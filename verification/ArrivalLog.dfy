/** What a run of datagrams brought to each tile, and how the receipts of partial tiles account for it. */
module ArrivalLog {
  import opened Wrappers
  import opened ReassemblyTable
  import opened TileAssembly
  import opened TileReassembly

  /** A fragment of a tile that reached reassembly; it opens the tile if it found no live entry. */
  datatype Arrival = Arrival(key: Key, fragment: nat, opens: bool)

  /** The partial tiles and received generations before an event. */
  datatype Snapshot = Snapshot(active: seq<Entry>, received: seq<nat>)

  /** Event i brought a fragment of the tile. */
  ghost predicate Of(log: seq<Option<Arrival>>, i: nat, key: Key)
  {
    i < |log| && log[i].Some? && log[i].value.key == key
  }

  /** Event s is the last before n that opened the tile. */
  ghost predicate Started(log: seq<Option<Arrival>>, s: nat, n: nat, key: Key)
  {
    && s < n <= |log| && Of(log, s, key) && log[s].value.opens
    && forall i: nat :: s < i < n && Of(log, i, key) ==> !log[i].value.opens
  }

  /** Fragment j of the tile arrived in one of the events from s to before n. */
  ghost predicate Brought(log: seq<Option<Arrival>>, s: nat, n: nat, key: Key, j: nat)
  {
    exists i: nat :: s <= i < n && Of(log, i, key) && log[i].value.fragment == j
  }

  /** The receipts are exactly the fragments that arrived since s. */
  ghost predicate Since(log: seq<Option<Arrival>>, s: nat, n: nat, key: Key, receipts: seq<bool>)
  {
    forall j: nat :: j < |receipts| ==> (receipts[j] <==> Brought(log, s, n, key, j))
  }

  /** The receipts of an entry are exactly the fragments that arrived since its tile was opened. */
  ghost predicate Accounted(log: seq<Option<Arrival>>, n: nat, e: Entry)
  {
    exists s: nat :: Started(log, s, n, KeyOf(e)) && Since(log, s, n, KeyOf(e), e.receipts)
  }

  ghost predicate AllAccounted(log: seq<Option<Arrival>>, seen: seq<Snapshot>)
  {
    forall i: nat, k: nat :: i < |seen| && k < |seen[i].active| ==> Accounted(log, i, seen[i].active[k])
  }

  /** What an arrival does to the entries: those of its tile have what it found and its fragment, others are as they were. */
  ghost predicate Follows(a: Option<Arrival>, before: seq<Entry>, active: seq<Entry>)
  {
    forall k :: 0 <= k < |active| ==>
      if a.Some? && KeyOf(active[k]) == a.value.key then Joined(a.value, before, active[k]) else active[k] in before
  }

  ghost predicate Joined(a: Arrival, before: seq<Entry>, e: Entry)
  {
    && a.fragment < |e.receipts|
    && if a.opens then e.receipts == seq(|e.receipts|, _ => false)[a.fragment := true]
       else exists k :: 0 <= k < |before| && Extends(a, before[k], e)
  }

  ghost predicate Extends(a: Arrival, was: Entry, e: Entry)
  {
    KeyOf(was) == a.key && a.fragment < |was.receipts| && e.receipts == was.receipts[a.fragment := true]
  }

  ghost predicate FollowsAt(log: seq<Option<Arrival>>, seen: seq<Snapshot>, i: nat)
    requires i < |log| && |seen| == |log| + 1
  {
    Follows(log[i], seen[i].active, seen[i + 1].active)
  }

  /** The entries over a run: nothing at first, then each from the one before by an arrival. */
  ghost predicate Chain(log: seq<Option<Arrival>>, seen: seq<Snapshot>)
  {
    && |seen| == |log| + 1 && seen[0].active == []
    && forall i: nat :: i < |log| ==> FollowsAt(log, seen, i)
  }

  lemma ChainStep(log: seq<Option<Arrival>>, seen: seq<Snapshot>, a: Option<Arrival>, next: Snapshot)
    requires Chain(log, seen) && Follows(a, seen[|log|].active, next.active)
    ensures Chain(log + [a], seen + [next])
  {
    forall i: nat | i < |log| + 1 ensures FollowsAt(log + [a], seen + [next], i) {
      if i < |log| { assert FollowsAt(log, seen, i); }
    }
  }

  /** At every point of a run, the receipts of every entry are exactly the fragments that arrived since it was opened. */
  lemma {:induction false} ReceiptsAreArrivals(log: seq<Option<Arrival>>, seen: seq<Snapshot>, n: nat, k: nat)
    requires Chain(log, seen) && n < |seen| && k < |seen[n].active|
    ensures Accounted(log, n, seen[n].active[k])
    decreases n
  {
    assert n > 0;
    var e, before, i: nat := seen[n].active[k], seen[n - 1].active, n - 1;
    assert FollowsAt(log, seen, i);
    if !Of(log, i, KeyOf(e)) {
      var p :| 0 <= p < |before| && before[p] == e;
      ReceiptsAreArrivals(log, seen, i, p);
      PassedBy(log, i, e);
    } else if log[i].value.opens {
      OpenedNow(log, i, e);
    } else {
      var p :| 0 <= p < |before| && Extends(log[i].value, before[p], e);
      ReceiptsAreArrivals(log, seen, i, p);
      JoinedNow(log, i, before[p], e);
    }
  }

  lemma OpenedNow(log: seq<Option<Arrival>>, n: nat, e: Entry)
    requires Of(log, n, KeyOf(e)) && log[n].value.opens && log[n].value.fragment < |e.receipts|
    requires e.receipts == seq(|e.receipts|, _ => false)[log[n].value.fragment := true]
    ensures Accounted(log, n + 1, e)
  {
    var m := n + 1;
    assert Started(log, n, m, KeyOf(e)) && Since(log, n, m, KeyOf(e), e.receipts);
  }

  lemma JoinedNow(log: seq<Option<Arrival>>, n: nat, was: Entry, e: Entry)
    requires Of(log, n, KeyOf(e)) && !log[n].value.opens && Extends(log[n].value, was, e) && Accounted(log, n, was)
    ensures Accounted(log, n + 1, e)
  {
    var s: nat :| Started(log, s, n, KeyOf(was)) && Since(log, s, n, KeyOf(was), was.receipts);
    var m := n + 1;
    SinceNext(log, s, n, KeyOf(e), was.receipts, e.receipts);
    assert Started(log, s, m, KeyOf(e));
  }

  lemma PassedBy(log: seq<Option<Arrival>>, n: nat, e: Entry)
    requires n < |log| && !Of(log, n, KeyOf(e)) && Accounted(log, n, e)
    ensures Accounted(log, n + 1, e)
  {
    var s: nat :| Started(log, s, n, KeyOf(e)) && Since(log, s, n, KeyOf(e), e.receipts);
    var m := n + 1;
    SinceNext(log, s, n, KeyOf(e), e.receipts, e.receipts);
    assert Started(log, s, m, KeyOf(e));
  }

  lemma SinceNext(log: seq<Option<Arrival>>, s: nat, n: nat, key: Key, was: seq<bool>, receipts: seq<bool>)
    requires s <= n < |log| && Since(log, s, n, key, was)
    requires if Of(log, n, key) then log[n].value.fragment < |was| && receipts == was[log[n].value.fragment := true] else receipts == was
    ensures Since(log, s, n + 1, key, receipts)
  {
    forall j: nat | j < |receipts| ensures receipts[j] <==> Brought(log, s, n + 1, key, j) {
      BroughtNext(log, s, n, key, j);
    }
  }

  lemma BroughtNext(log: seq<Option<Arrival>>, s: nat, n: nat, key: Key, j: nat)
    requires s <= n < |log|
    ensures Brought(log, s, n + 1, key, j) <==> Brought(log, s, n, key, j) || (Of(log, n, key) && log[n].value.fragment == j)
  {
  }

  /** A tile has one start. */
  lemma OneStart(log: seq<Option<Arrival>>, s: nat, t: nat, n: nat, key: Key)
    requires Started(log, s, n, key) && Started(log, t, n, key)
    ensures s == t
  {
  }

  // ----- whole tiles

  ghost predicate AllBrought(log: seq<Option<Arrival>>, s: nat, n: nat, key: Key, count: nat)
  {
    forall j: nat :: j < count ==> Brought(log, s, n, key, j)
  }

  /** All fragments of the tile have arrived since it was opened. */
  ghost predicate AllIn(log: seq<Option<Arrival>>, n: nat, key: Key, count: nat)
  {
    exists s: nat :: Started(log, s, n, key) && AllBrought(log, s, n, key, count)
  }

  /** After an arrival that opens a tile all fragments are in exactly if there is one. */
  lemma OpensWhole(log: seq<Option<Arrival>>, n: nat, key: Key, count: nat)
    requires Of(log, n, key) && log[n].value.opens && log[n].value.fragment < count
    ensures AllIn(log, n + 1, key, count) <==> count == 1
  {
    var m, j := n + 1, log[n].value.fragment;
    assert Started(log, n, m, key) && Brought(log, n, m, key, j);
    if AllIn(log, m, key, count) {
      var s: nat :| Started(log, s, m, key) && AllBrought(log, s, m, key, count);
      OneStart(log, s, n, m, key);
      var other := if j == 0 then 1 else 0;
      assert other < count ==> Brought(log, n, m, key, other);
      assert !Brought(log, n, m, key, other);
    }
    if count == 1 {
      assert AllBrought(log, n, m, key, count);
    }
  }

  /** After an arrival that joins an entry all fragments are in exactly if the entry had all others. */
  lemma JoinsWhole(log: seq<Option<Arrival>>, n: nat, e: Entry)
    requires EntryOk(e) && Of(log, n, KeyOf(e)) && !log[n].value.opens && log[n].value.fragment < e.packetCount && Accounted(log, n, e)
    ensures AllIn(log, n + 1, KeyOf(e), e.packetCount) <==> AllBut(e, log[n].value.fragment)
  {
    var m, key, receipts := n + 1, KeyOf(e), e.receipts[log[n].value.fragment := true];
    var s: nat :| Started(log, s, n, key) && Since(log, s, n, key, e.receipts);
    SinceNext(log, s, n, key, e.receipts, receipts);
    assert Started(log, s, m, key);
    LacksOne(e, log[n].value.fragment);
    if AllIn(log, m, key, e.packetCount) {
      var t: nat :| Started(log, t, m, key) && AllBrought(log, t, m, key, e.packetCount);
      OneStart(log, s, t, m, key);
      forall j | 0 <= j < e.packetCount ensures e.receipts[j] || j == log[n].value.fragment {
        assert Brought(log, s, m, key, j) && receipts[j];
      }
    }
    if AllBut(e, log[n].value.fragment) {
      assert AllBrought(log, s, m, key, e.packetCount);
    }
  }

  /** An entry lacks a fragment: if the others are in, it lacks that one. */
  lemma LacksOne(e: Entry, id: nat)
    requires EntryOk(e) && id < e.packetCount
    ensures (forall j :: 0 <= j < e.packetCount ==> e.receipts[j] || j == id) ==> AllBut(e, id)
  {
    CountAll(e.receipts[..e.packetCount]);
  }
}
