/** Entries of the tile reassembler, their receipt bits and the table that finds them: a dense array of active
    entries and, per tile size, a slot for every tile id (src/client/tile_reassembly.cpp). */
module ReassemblyTable {
  import opened Wrappers
  import opened TilePacket

  const NO_ENTRY: nat := 0xFFFF_FFFF
  const RECEIPT_BITS: nat := 256

  /** A partly received tile. `receipts` is the receipt bitmap, `buffer` the payload received so far. */
  datatype Entry = Entry(tileId: nat, tileSize: nat, generation: nat, epoch: nat, inputSequence: nat, metadataSeen: bool,
                         packetCount: nat, compressed: bool, firstNs: nat, buffer: seq<Byte>, receipts: seq<bool>,
                         receivedCount: nat)

  // ----- receipts

  function CountSet(bits: seq<bool>): nat
  {
    if bits == [] then 0 else CountSet(bits[..|bits| - 1]) + if bits[|bits| - 1] then 1 else 0
  }

  lemma {:induction false} CountAll(bits: seq<bool>)
    ensures CountSet(bits) <= |bits|
    ensures CountSet(bits) == |bits| <==> forall i :: 0 <= i < |bits| ==> bits[i]
    ensures CountSet(bits) == 0 <==> forall i :: 0 <= i < |bits| ==> !bits[i]
  {
    if bits != [] {
      var n := |bits| - 1;
      CountAll(bits[..n]);
      assert forall i :: 0 <= i < n ==> bits[..n][i] == bits[i];
    }
  }

  lemma {:induction false} CountMark(bits: seq<bool>, i: nat)
    requires i < |bits|
    ensures CountSet(bits[i := true]) == CountSet(bits) + if bits[i] then 0 else 1
  {
    var n := |bits| - 1;
    if i == n {
      assert bits[i := true][..n] == bits[..n];
    } else {
      CountMark(bits[..n], i);
      assert bits[i := true][..n] == bits[..n][i := true];
    }
  }

  /** An active entry is incomplete, its count is the number of set receipt bits, and with fragment zero it has the
      metadata that only that fragment carries. */
  ghost predicate EntryOk(e: Entry)
  {
    && |e.receipts| == RECEIPT_BITS && 0 < e.packetCount <= U8_MAX && |e.buffer| > 0
    && e.receivedCount == CountSet(e.receipts[..e.packetCount]) < e.packetCount
    && (e.receipts[0] ==> e.metadataSeen)
  }

  // ----- bytes held

  function SumBytes(active: seq<Entry>): nat
  {
    if active == [] then 0 else SumBytes(active[..|active| - 1]) + |active[|active| - 1].buffer|
  }

  lemma {:induction false} SumUpdate(active: seq<Entry>, i: nat, e: Entry)
    requires i < |active|
    ensures SumBytes(active[i := e]) == SumBytes(active) - |active[i].buffer| + |e.buffer|
  {
    var n := |active| - 1;
    if i == n {
      assert active[i := e][..n] == active[..n];
    } else {
      SumUpdate(active[..n], i, e);
      assert active[i := e][..n] == active[..n][i := e];
    }
  }

  /** Remove an element by moving the last one into its place. */
  function SwapRemove<T>(s: seq<T>, i: nat): (r: seq<T>)
    requires i < |s|
    ensures |r| == |s| - 1
  {
    s[i := s[|s| - 1]][..|s| - 1]
  }

  lemma SwapRemoveSum(active: seq<Entry>, i: nat)
    requires i < |active|
    ensures SumBytes(SwapRemove(active, i)) == SumBytes(active) - |active[i].buffer|
  {
    SumUpdate(active, i, active[|active| - 1]);
  }

  lemma SwapRemoveMembers<T>(s: seq<T>, i: nat)
    requires i < |s|
    ensures forall x :: x in SwapRemove(s, i) ==> x in s
    ensures forall x :: x in s ==> x == s[i] || x in SwapRemove(s, i)
  {
    var r, n := SwapRemove(s, i), |s| - 1;
    forall x | x in s && x != s[i] ensures x in r {
      var k :| 0 <= k < |s| && s[k] == x;
      if k == n { assert r[i] == x; } else { assert r[k] == x; }
    }
  }

  // ----- the table

  function SetSlot(slots: seq<seq<nat>>, size: nat, id: nat, v: nat): (r: seq<seq<nat>>)
    requires size < |slots| && id < |slots[size]|
    ensures |r| == |slots| && forall s :: 0 <= s < |slots| ==> |r[s]| == |slots[s]|
  {
    var row: seq<nat> := slots[size][id := v];
    slots[size := row]
  }

  ghost predicate HasSlot(slots: seq<seq<nat>>, e: Entry)
  {
    e.tileSize < |slots| && e.tileId < |slots[e.tileSize]|
  }

  ghost predicate SlotUsed(active: seq<Entry>, slots: seq<seq<nat>>, s: int, t: int)
    requires 0 <= s < |slots| && 0 <= t < |slots[s]|
  {
    slots[s][t] < |active| && active[slots[s][t]].tileSize == s && active[slots[s][t]].tileId == t
  }

  /** The slot table and the dense array are inverses: entry i is found at its slot, every other slot is empty. */
  ghost predicate TableInv(active: seq<Entry>, slots: seq<seq<nat>>)
  {
    && |slots| == 4 && |active| <= NO_ENTRY
    && (forall i {:trigger HasSlot(slots, active[i])} :: 0 <= i < |active| ==>
          HasSlot(slots, active[i]) && slots[active[i].tileSize][active[i].tileId] == i)
    && (forall s, t {:trigger SlotUsed(active, slots, s, t)} :: 0 <= s < 4 && 0 <= t < |slots[s]| && slots[s][t] != NO_ENTRY ==>
          SlotUsed(active, slots, s, t))
  }

  lemma AddKeepsTable(active: seq<Entry>, slots: seq<seq<nat>>, e: Entry)
    requires TableInv(active, slots) && HasSlot(slots, e) && slots[e.tileSize][e.tileId] == NO_ENTRY && |active| < NO_ENTRY
    ensures TableInv(active + [e], SetSlot(slots, e.tileSize, e.tileId, |active|))
  {
    var r, all := SetSlot(slots, e.tileSize, e.tileId, |active|), active + [e];
    forall i | 0 <= i < |all| ensures HasSlot(r, all[i]) && r[all[i].tileSize][all[i].tileId] == i {
      if i < |active| { assert HasSlot(slots, active[i]); }
    }
    forall s, t | 0 <= s < 4 && 0 <= t < |r[s]| && r[s][t] != NO_ENTRY ensures SlotUsed(all, r, s, t) {
      if !(s == e.tileSize && t == e.tileId) { assert SlotUsed(active, slots, s, t); }
    }
  }

  /** remove_entry on the table: clear the slot of entry i and redirect the slot of the entry moved into its place. */
  function RemoveSlot(active: seq<Entry>, slots: seq<seq<nat>>, i: nat): seq<seq<nat>>
    requires i < |active| && forall k :: 0 <= k < |active| ==> HasSlot(slots, active[k])
  {
    assert HasSlot(slots, active[i]) && HasSlot(slots, active[|active| - 1]);
    var cleared := SetSlot(slots, active[i].tileSize, active[i].tileId, NO_ENTRY);
    var moved := active[|active| - 1];
    if i == |active| - 1 then cleared else SetSlot(cleared, moved.tileSize, moved.tileId, i)
  }

  lemma RemoveKeepsTable(active: seq<Entry>, slots: seq<seq<nat>>, i: nat)
    requires TableInv(active, slots) && i < |active|
    ensures TableInv(SwapRemove(active, i), RemoveSlot(active, slots, i))
    ensures RemoveSlot(active, slots, i)[active[i].tileSize][active[i].tileId] == NO_ENTRY
  {
    var left, r, n := SwapRemove(active, i), RemoveSlot(active, slots, i), |active| - 1;
    forall k | 0 <= k < |left| ensures HasSlot(r, left[k]) && r[left[k].tileSize][left[k].tileId] == k {
      var at := if k == i then n else k;
      assert left[k] == active[at] && slots[active[at].tileSize][active[at].tileId] == at;
    }
    forall s, t | 0 <= s < 4 && 0 <= t < |r[s]| && r[s][t] != NO_ENTRY ensures SlotUsed(left, r, s, t) {
      RemovedSlotUsed(active, slots, i, s, t);
    }
  }

  lemma RemovedSlotUsed(active: seq<Entry>, slots: seq<seq<nat>>, i: nat, s: nat, t: nat)
    requires TableInv(active, slots) && i < |active| && s < 4
    requires var r := RemoveSlot(active, slots, i); t < |r[s]| && r[s][t] != NO_ENTRY
    ensures SlotUsed(SwapRemove(active, i), RemoveSlot(active, slots, i), s, t)
  {
    var left, r, n := SwapRemove(active, i), RemoveSlot(active, slots, i), |active| - 1;
    var moved := active[n];
    if i != n && s == moved.tileSize && t == moved.tileId {
      assert left[i] == moved;
    } else {
      assert r[s][t] == slots[s][t] && SlotUsed(active, slots, s, t);
      var k := slots[s][t];
      assert k != n && k != i;
      assert left[k] == active[k];
    }
  }
}
