/** The tile reassembler of src/client/tile_reassembly.cpp: fragments of tiles arrive in any order, duplicated and
    interleaved, and become whole tiles; what is given up is queued for repair. */
module TileReassembly {
  import opened Wrappers
  import opened Arithmetic
  import opened TileGeometry
  import opened TilePacket
  import opened ReassemblyTable
  import opened TileAssembly
  import RepairLog
  import RepairTables

  /** The slot tables are those of a frame size, or empty before one is configured. */
  ghost predicate SlotsFor(slots: seq<seq<nat>>, width: nat, height: nat)
  {
    && |slots| == 4
    && forall s :: 0 <= s < 4 ==>
         && |slots[s]| <= U16_MAX
         && |slots[s]| == if width == 0 then 0 else Product(TilesFor(width, TileWidth(s)), TilesFor(height, TileHeight(s)))
  }

  ghost predicate AllOk(active: seq<Entry>)
  {
    forall i {:trigger EntryOk(active[i])} :: 0 <= i < |active| ==> EntryOk(active[i])
  }

  lemma RemoveKeepsAll(active: seq<Entry>, slots: seq<seq<nat>>, i: nat, width: nat, height: nat)
    requires TableInv(active, slots) && SlotsFor(slots, width, height) && i < |active| && AllOk(active)
    ensures TableInv(SwapRemove(active, i), RemoveSlot(active, slots, i)) && SlotsFor(RemoveSlot(active, slots, i), width, height)
    ensures AllOk(SwapRemove(active, i))
    ensures SumBytes(SwapRemove(active, i)) == SumBytes(active) - |active[i].buffer| >= 0 && |SwapRemove(active, i)| == |active| - 1
  {
    RemoveKeepsTable(active, slots, i);
    SwapRemoveSum(active, i);
    assert HasSlot(slots, active[i]) && HasSlot(slots, active[|active| - 1]);
    forall k | 0 <= k < |active| - 1 ensures EntryOk(SwapRemove(active, i)[k]) {
      assert EntryOk(active[if k == i then |active| - 1 else k]);
    }
  }

  /** Each base tile of a tile that was given up is received or queued for repair at its generation or newer. */
  ghost predicate Repaired(key: Key, c: Config, received: seq<nat>, queued: seq<nat>)
    requires ValidConfig(c)
  {
    var tiles := CoveredByTile(c, key.tileSize, key.tileId);
    forall k :: 0 <= k < |tiles| ==>
      0 <= tiles[k] < |received| && tiles[k] < |queued| && (received[tiles[k]] >= key.generation || queued[tiles[k]] >= key.generation)
  }

  /** Every entry of before is still active or was repaired. */
  ghost predicate KeptOrRepaired(before: seq<Entry>, active: seq<Entry>, c: Config, received: seq<nat>, queued: seq<nat>)
    requires ValidConfig(c)
  {
    forall i :: 0 <= i < |before| ==> before[i] in active || Repaired(KeyOf(before[i]), c, received, queued)
  }

  lemma RepairedGrows(key: Key, c: Config, received: seq<nat>, queued: seq<nat>, queued': seq<nat>)
    requires ValidConfig(c) && Repaired(key, c, received, queued) && |queued| == |queued'|
    requires forall t :: 0 <= t < |queued| ==> queued[t] <= queued'[t]
    ensures Repaired(key, c, received, queued')
  {}

  /** Received generations only grow, and queued ones are only dropped once received. */
  ghost predicate Persists(received: seq<nat>, queued: seq<nat>, received': seq<nat>, queued': seq<nat>)
  {
    && |received| == |received'| && |queued| == |queued'|
    && (forall t :: 0 <= t < |received| ==> received[t] <= received'[t])
    && (forall t :: 0 <= t < |queued| && t < |received'| ==> queued[t] <= queued'[t] || queued[t] <= received'[t])
  }

  lemma PersistsOn(received: seq<nat>, queued: seq<nat>, received': seq<nat>, queued': seq<nat>, received'': seq<nat>, queued'': seq<nat>)
    requires |received| == |queued| && Persists(received, queued, received', queued') && Persists(received', queued', received'', queued'')
    ensures Persists(received, queued, received'', queued'')
  {}

  lemma RepairedPersists(key: Key, c: Config, received: seq<nat>, queued: seq<nat>, received': seq<nat>, queued': seq<nat>)
    requires ValidConfig(c) && Repaired(key, c, received, queued) && Persists(received, queued, received', queued')
    ensures Repaired(key, c, received', queued')
  {}

  lemma KeptStep(before: seq<Entry>, active: seq<Entry>, i: nat, c: Config, received: seq<nat>, queued: seq<nat>, queued': seq<nat>)
    requires ValidConfig(c) && KeptOrRepaired(before, active, c, received, queued) && i < |active|
    requires |queued| == |queued'| && forall t :: 0 <= t < |queued| ==> queued[t] <= queued'[t]
    requires Repaired(KeyOf(active[i]), c, received, queued')
    ensures KeptOrRepaired(before, SwapRemove(active, i), c, received, queued')
  {
    SwapRemoveMembers(active, i);
    forall k | 0 <= k < |before| && before[k] !in SwapRemove(active, i) ensures Repaired(KeyOf(before[k]), c, received, queued') {
      if before[k] != active[i] { RepairedGrows(KeyOf(before[k]), c, received, queued, queued'); }
    }
  }

  class Reassembler {
    const maxEntries: nat
    const maxBytes: nat
    const bound: nat -> nat                                    // worst-case compressed size
    const inflate: (seq<Byte>, nat) -> Option<seq<Byte>>       // decompression to a known size
    var active: seq<Entry>
    var slots: seq<seq<nat>>
    var frameWidth: nat
    var frameHeight: nat
    var bytes: nat

    ghost predicate Valid()
      reads this
    {
      && TableInv(active, slots) && SlotsFor(slots, frameWidth, frameHeight)
      && AllOk(active)
      && bytes == SumBytes(active) && |active| <= maxEntries && bytes <= maxBytes
    }

    /** Entries belong to the configured frame. */
    ghost predicate Fits(c: Config)
      reads this
    {
      active == [] || (frameWidth == c.width && frameHeight == c.height)
    }

    constructor (entries: nat, payloadBytes: nat, bound: nat -> nat, inflate: (seq<Byte>, nat) -> Option<seq<Byte>>)
      ensures Valid() && active == [] && frameWidth == 0
      ensures maxEntries == (if entries == 0 then 1 else entries) && maxBytes == (if payloadBytes == 0 then 1 else payloadBytes)
      ensures this.bound == bound && this.inflate == inflate
    {
      maxEntries := if entries == 0 then 1 else entries;
      maxBytes := if payloadBytes == 0 then 1 else payloadBytes;
      this.bound, this.inflate := bound, inflate;
      active, slots, bytes, frameWidth, frameHeight := [], [[], [], [], []], 0, 0, 0;
    }

    method Remove(i: nat)
      requires Valid() && i < |active|
      modifies this`active, this`slots, this`bytes
      ensures Valid() && active == SwapRemove(old(active), i)
      ensures slots == RemoveSlot(old(active), old(slots), i)
    {
      RemoveKeepsAll(active, slots, i, frameWidth, frameHeight);
      bytes := bytes - |active[i].buffer|;   // never below zero, so the source's clamp is not taken
      RetireSlot(i);
      active := SwapRemove(active, i);
    }

    method RetireSlot(i: nat)
      requires i < |active| && forall k :: 0 <= k < |active| ==> HasSlot(slots, active[k])
      modifies this`slots
      ensures slots == RemoveSlot(active, old(slots), i)
    {
      var n, retired := |active| - 1, active[i];
      assert HasSlot(slots, active[i]) && HasSlot(slots, active[n]);
      slots := SetSlot(slots, retired.tileSize, retired.tileId, NO_ENTRY);
      if i != n {
        var moved := active[n];
        slots := SetSlot(slots, moved.tileSize, moved.tileId, i);
      }
    }

    method Clear()
      requires Valid()
      modifies this`active, this`slots, this`bytes
      ensures Valid() && active == [] && bytes == 0
    {
      while active != []
        invariant Valid()
        decreases |active|
      {
        Remove(|active| - 1);
      }
    }

    method Reset()
      requires Valid()
      modifies this
      ensures Valid() && active == [] && bytes == 0 && frameWidth == 0 && frameHeight == 0
    {
      Clear();
      slots := [[], [], [], []];
      frameWidth, frameHeight, bytes := 0, 0, 0;
    }

    /** The frame is the configured one already, or its tiles of every size can be numbered in 16 bits. */
    predicate Configurable(c: Config)
      reads this
    {
      (frameWidth == c.width && frameHeight == c.height && frameWidth != 0) || AllSizesFit(c)
    }

    /** The entries that survive the configuration of a frame size. */
    ghost function Usable(c: Config): seq<Entry>
      reads this
    {
      if frameWidth == c.width && frameHeight == c.height && frameWidth != 0 then active else []
    }

    /** configure_entry_slots: a new frame size drops all entries and gives every tile of every size an empty slot. */
    method Configure(c: Config) returns (ok: bool)
      requires Valid()
      modifies this
      ensures Valid() && (ok ==> frameWidth == c.width && frameHeight == c.height && c.width != 0 && active == old(Usable(c)))
      ensures !ok ==> unchanged(this)
      ensures ok <==> old(Configurable(c))
    {
      if frameWidth == c.width && frameHeight == c.height && frameWidth != 0 {
        return true;
      }
      var empty: seq<seq<nat>> := [];
      for s := 0 to 4
        invariant |empty| == s
        invariant forall k :: 0 <= k < s ==> SizeFits(c, k) && empty[k] == seq(SlotCount(c, k), _ => NO_ENTRY)
      {
        if !SizeFits(c, s) { return false; }
        var row: seq<nat> := seq(SlotCount(c, s), _ => NO_ENTRY);
        empty := empty + [row];
      }
      Clear();
      slots, frameWidth, frameHeight := empty, c.width, c.height;
      return true;
    }

    // ----- giving entries up

    ghost predicate RequestsFor(c: Config, requests: RepairTables.RequestTable)
      reads requests
    {
      ValidConfig(c) && requests.Valid() && requests.total == c.totalTiles
    }

    lemma EntryOnFrame(c: Config, i: nat)
      requires Valid() && ValidConfig(c) && Fits(c) && i < |active|
      ensures TileIdKnown(c, active[i].tileSize, active[i].tileId)
      ensures forall k :: 0 <= k < |CoveredByTile(c, active[i].tileSize, active[i].tileId)| ==>
                0 <= CoveredByTile(c, active[i].tileSize, active[i].tileId)[k] < c.totalTiles
    {
      assert HasSlot(slots, active[i]);
      SlotIsTile(c, slots, active[i].tileSize, active[i].tileId);
      TileCovers(c, active[i].tileSize, active[i].tileId);
    }

    /** Give entry i up: queue its base tiles for repair and drop it. */
    method GiveUp(i: nat, c: Config, requests: RepairTables.RequestTable)
      requires Valid() && RequestsFor(c, requests) && Fits(c) && i < |active|
      modifies this`active, this`slots, this`bytes, requests
      ensures Valid() && Fits(c) && RequestsFor(c, requests) && RequestsOnlyGrow(requests)
      ensures active == SwapRemove(old(active), i) && slots == RemoveSlot(old(active), old(slots), i)
      ensures Repaired(KeyOf(old(active[i])), c, requests.received, requests.queuedGen)
    {
      EntryOnFrame(c, i);
      var e := active[i];
      requests.RepairPartials(CoveredByTile(c, e.tileSize, e.tileId), e.generation);
      Remove(i);
    }

    twostate predicate RequestsOnlyGrow(requests: RepairTables.RequestTable)
      reads requests
    {
      && requests.received == old(requests.received) && |requests.queuedGen| == |old(requests.queuedGen)|
      && requests.log == old(requests.log) && requests.clock == old(requests.clock)
      && forall t :: 0 <= t < |requests.queuedGen| ==> old(requests.queuedGen[t]) <= requests.queuedGen[t]
    }

    method Oldest() returns (oldest: nat)
      requires active != []
      ensures oldest < |active| && forall i :: 0 <= i < |active| ==> active[oldest].firstNs <= active[i].firstNs
    {
      oldest := 0;
      for i := 1 to |active|
        invariant oldest < |active| && forall k :: 0 <= k < i ==> active[oldest].firstNs <= active[k].firstNs
      {
        if active[i].firstNs < active[oldest].firstNs { oldest := i; }
      }
    }

    predicate OverBudget(payloadSize: nat)
      reads this
    {
      |active| >= maxEntries || bytes + payloadSize > maxBytes
    }

    method EvictOldest(ghost payloadSize: nat, c: Config, requests: RepairTables.RequestTable, ghost before: seq<Entry>,
                       ghost table: seq<seq<nat>>)
      requires Valid() && RequestsFor(c, requests) && Fits(c) && active != [] && OverBudget(payloadSize)
      requires Evicted(before, active, table, slots, c, requests.received, requests.queuedGen)
      modifies this`active, this`slots, this`bytes, requests
      ensures Valid() && Fits(c) && RequestsFor(c, requests) && RequestsOnlyGrow(requests) && |active| < |old(active)|
      ensures Evicted(before, active, table, slots, c, requests.received, requests.queuedGen)
      ensures NoneTooMany(before, active, payloadSize, maxEntries, maxBytes)
    {
      var oldest := Oldest();
      GiveUp(oldest, c, requests);
      EvictedStep(before, old(active), table, old(slots), oldest, c, requests.received, old(requests.queuedGen), requests.queuedGen);
      NeededStep(before, old(active), old(slots), oldest, payloadSize, maxEntries, maxBytes);
    }

    /** ensure_budget: evict oldest first until one more payload fits and no further; evicted tiles are repaired. It
        fails exactly for a payload that can never fit, and then evicts nothing. */
    method EnsureBudget(payloadSize: nat, c: Config, requests: RepairTables.RequestTable) returns (ok: bool)
      requires Valid() && RequestsFor(c, requests) && Fits(c) && maxEntries > 0
      modifies this`active, this`slots, this`bytes, requests
      ensures Valid() && Fits(c) && RequestsFor(c, requests) && RequestsOnlyGrow(requests)
      ensures ok <==> payloadSize <= maxBytes
      ensures ok ==> !OverBudget(payloadSize)
      ensures Evicted(old(active), active, old(slots), slots, c, requests.received, requests.queuedGen)
      ensures NoneTooMany(old(active), active, payloadSize, maxEntries, maxBytes)
      ensures !ok || !old(OverBudget(payloadSize)) ==> active == old(active) && slots == old(slots)
    {
      if payloadSize > maxBytes { return false; }
      while active != [] && OverBudget(payloadSize)
        invariant Valid() && Fits(c) && RequestsFor(c, requests) && RequestsOnlyGrow(requests)
        invariant Evicted(old(active), active, old(slots), slots, c, requests.received, requests.queuedGen)
        invariant NoneTooMany(old(active), active, payloadSize, maxEntries, maxBytes)
        invariant !old(OverBudget(payloadSize)) ==> active == old(active) && slots == old(slots)
        decreases |active|
      {
        EvictOldest(payloadSize, c, requests, old(active), old(slots));
      }
      return true;
    }

    // ----- expiry

    /** expire_stale_entries: give up what is older than the reassembly timeout, which every loss may lower; the
        timeout read at the n-th check is any value between its clamps. */
    method ExpireStale(now: nat, timeoutAt: nat -> nat, c: Config, requests: RepairTables.RequestTable)
      requires Valid() && RequestsFor(c, requests) && Fits(c)
      modifies this`active, this`slots, this`bytes, requests
      ensures Valid() && Fits(c) && RequestsFor(c, requests) && RequestsOnlyGrow(requests)
      ensures KeptOrRepaired(old(active), active, c, requests.received, requests.queuedGen)
      ensures forall e :: e in active ==> e in old(active) && !Expired(e, now, TIMEOUT_MAX_NS)
      ensures forall e :: e in old(active) && !Expired(e, now, TIMEOUT_MIN_NS) ==> e in active
    {
      var i, n := 0, 0;
      while i < |active|
        invariant 0 <= i <= |active| && 0 <= n
        invariant Valid() && Fits(c) && RequestsFor(c, requests) && RequestsOnlyGrow(requests)
        invariant KeptOrRepaired(old(active), active, c, requests.received, requests.queuedGen)
        invariant ExpiredSoFar(old(active), active, i, now)
        decreases |active| - i
      {
        if Expired(active[i], now, ClampTimeout(timeoutAt(n))) {
          ghost var entries, queued := active, requests.queuedGen;
          GiveUp(i, c, requests);
          KeptStep(old(active), entries, i, c, requests.received, queued, requests.queuedGen);
          ExpiredStep(old(active), entries, i, now);
        } else {
          StaysStep(old(active), active, i, now, ClampTimeout(timeoutAt(n)));
          i := i + 1;
        }
        n := n + 1;
      }
    }

    // ----- finding and creating the entry of a packet

    function Find(size: nat, id: nat): Option<nat>
      reads this
    {
      if size >= |slots| || id >= |slots[size]| || slots[size][id] == NO_ENTRY then None else Some(slots[size][id])
    }

    /** Find is exact: it gives the one entry of a tile, or there is none. */
    lemma FindIsExact(size: nat, id: nat)
      requires Valid()
      ensures match Find(size, id)
              case Some(i) => i < |active| && active[i].tileSize == size && active[i].tileId == id
              case None => true
      ensures forall k :: 0 <= k < |active| && active[k].tileSize == size && active[k].tileId == id ==> Find(size, id) == Some(k)
    {
      if Find(size, id).Some? { assert SlotUsed(active, slots, size, id); }
      forall k | 0 <= k < |active| && active[k].tileSize == size && active[k].tileId == id ensures Find(size, id) == Some(k) {
        assert HasSlot(slots, active[k]);
      }
    }

    method Activate(h: Header, now: nat, c: Config, requests: RepairTables.RequestTable) returns (index: Option<nat>)
      requires Valid() && RequestsFor(c, requests) && frameWidth == c.width && frameHeight == c.height
      requires HeaderFor(h, c) && Find(h.tileSize, h.tileId) == None && !OverBudget(h.tilePayloadSize)
      modifies this`active, this`slots, this`bytes, requests
      ensures Valid() && RequestsFor(c, requests) && RequestsOnlyGrow(requests)
      ensures index == None ==> active == old(active) && |active| >= NO_ENTRY
      ensures index.Some? ==> active == old(active) + [NewEntry(h, now)] && index.value == |old(active)|
      ensures requests.queuedGen == old(requests.queuedGen)
    {
      if |active| >= NO_ENTRY { return None; }
      SlotIsTile(c, slots, h.tileSize, h.tileId);
      NewEntryOk(h, now);
      Add(NewEntry(h, now));
      TileCovers(c, h.tileSize, h.tileId);
      requests.NoteInflight(CoveredByTile(c, h.tileSize, h.tileId), h.generation, now);
      return Some(|active| - 1);
    }

    method Add(e: Entry)
      requires Valid() && EntryOk(e) && HasSlot(slots, e) && slots[e.tileSize][e.tileId] == NO_ENTRY
      requires |active| < NO_ENTRY && |active| < maxEntries && bytes + |e.buffer| <= maxBytes
      modifies this`active, this`slots, this`bytes
      ensures Valid() && active == old(active) + [e] && slots == SetSlot(old(slots), e.tileSize, e.tileId, |old(active)|)
    {
      AddKeepsTable(active, slots, e);
      ghost var before := active;
      slots := SetSlot(slots, e.tileSize, e.tileId, |active|);
      active := active + [e];
      bytes := bytes + |e.buffer|;
      assert active[..|before|] == before;
    }

    /** Make room for the tile of a packet and start an entry for it. */
    method Begin(h: Header, now: nat, c: Config, requests: RepairTables.RequestTable) returns (index: Option<nat>)
      requires Valid() && RequestsFor(c, requests) && frameWidth == c.width && frameHeight == c.height && maxEntries > 0
      requires HeaderFor(h, c) && Find(h.tileSize, h.tileId) == None
      modifies this`active, this`slots, this`bytes, requests
      ensures Valid() && RequestsFor(c, requests) && RequestsOnlyGrow(requests)
      ensures Begun(old(active), active, index, h, now, c, requests.received, requests.queuedGen)
      ensures index == None <==> h.tilePayloadSize > maxBytes
      ensures index == None ==> active == old(active)
    {
      var ok := EnsureBudget(h.tilePayloadSize, c, requests);
      if !ok { return None; }
      SlotIsTile(c, slots, h.tileSize, h.tileId);
      FewEntries(active, slots, frameWidth, frameHeight);
      ghost var kept, queued := active, requests.queuedGen;
      index := Activate(h, now, c, requests);
      BegunBy(old(active), kept, active, index, h, now, c, requests.received, queued);
    }

    /** Find or start the entry a packet belongs to. A packet is dropped exactly if a newer generation of its tile is
        being assembled, or no entry of its own is and its payload can never fit. */
    method Prepare(h: Header, now: nat, timeout: nat, c: Config, requests: RepairTables.RequestTable) returns (index: Option<nat>)
      requires Valid() && RequestsFor(c, requests) && frameWidth == c.width && frameHeight == c.height && maxEntries > 0
      requires HeaderFor(h, c)
      modifies this`active, this`slots, this`bytes, requests
      ensures Valid() && RequestsFor(c, requests) && RequestsOnlyGrow(requests)
      ensures Prepared(old(active), active, index, h, now, timeout, maxBytes, c, requests.received, requests.queuedGen)
      ensures index == None ==> !HasKey(active, HeaderKey(h))
    {
      var found := Find(h.tileSize, h.tileId);
      FindIsExact(h.tileSize, h.tileId);
      if found.Some? {
        var e := active[found.value];
        if e.epoch == h.epoch && h.generation < e.generation { return None; }
        if e.epoch == h.epoch && h.generation == e.generation && !Expired(e, now, timeout) { return found; }
      }
      index := Restart(found, h, now, timeout, c, requests);
    }

    /** Drop what is in the way of a packet and start an entry for its tile. */
    method Restart(found: Option<nat>, h: Header, now: nat, ghost timeout: nat, c: Config, requests: RepairTables.RequestTable)
      returns (index: Option<nat>)
      requires Valid() && RequestsFor(c, requests) && frameWidth == c.width && frameHeight == c.height && maxEntries > 0
      requires HeaderFor(h, c) && found == Find(h.tileSize, h.tileId)
      requires found.Some? ==> found.value < |active| && Passed(h, active[found.value], now, timeout)
      modifies this`active, this`slots, this`bytes, requests
      ensures Valid() && RequestsFor(c, requests) && RequestsOnlyGrow(requests)
      ensures Prepared(old(active), active, index, h, now, timeout, maxBytes, c, requests.received, requests.queuedGen)
      ensures index == None ==> !HasKey(active, HeaderKey(h))
    {
      FindIsExact(h.tileSize, h.tileId);
      NotAssembling(active, found, h, now, timeout);
      if found.Some? {
        Discard(found.value, h, c, requests);
        SwapRemoveMembers(old(active), found.value);
        FindIsExact(h.tileSize, h.tileId);
      }
      ghost var left, queued := active, requests.queuedGen;
      index := Begin(h, now, c, requests);
      PreparedBy(old(active), left, active, index, h, now, timeout, maxBytes, c, requests.received, queued, requests.queuedGen);
    }

    /** Drop the entry in the way of a packet: repaired if it timed out, forgotten if the packet supersedes it. */
    method Discard(i: nat, h: Header, c: Config, requests: RepairTables.RequestTable)
      requires Valid() && RequestsFor(c, requests) && Fits(c) && i < |active|
      requires Find(h.tileSize, h.tileId) == Some(i) && active[i].tileSize == h.tileSize && active[i].tileId == h.tileId
      requires active[i].epoch == h.epoch ==> active[i].generation <= h.generation
      modifies this`active, this`slots, this`bytes, requests
      ensures Valid() && RequestsFor(c, requests) && RequestsOnlyGrow(requests)
      ensures active == SwapRemove(old(active), i) && Find(h.tileSize, h.tileId) == None
      ensures Repaired(KeyOf(old(active[i])), c, requests.received, requests.queuedGen) || Superseded(h, KeyOf(old(active[i])))
    {
      RemoveKeepsTable(active, slots, i);
      var e := active[i];
      if e.epoch == h.epoch && e.generation == h.generation {
        GiveUp(i, c, requests);
      } else {
        EntryOnFrame(c, i);
        requests.ClearInflights(CoveredByTile(c, e.tileSize, e.tileId), e.generation);
        Remove(i);
      }
    }

    // ----- one packet

    method Replace(i: nat, e: Entry)
      requires Valid() && i < |active| && EntryOk(e) && |e.buffer| == |active[i].buffer|
      requires e.tileSize == active[i].tileSize && e.tileId == active[i].tileId
      modifies this`active
      ensures Valid() && active == old(active)[i := e]
    {
      SumUpdate(active, i, e);
      ReplaceKeepsTable(active, slots, i, e);
      active := active[i := e];
    }

    /** Let the entry of a packet absorb it. */
    method AbsorbAt(i: nat, h: Header, body: seq<Byte>, target: nat, c: Config, requests: RepairTables.RequestTable)
      returns (whole: Option<Entry>)
      requires Valid() && RequestsFor(c, requests) && Fits(c) && i < |active| && Placed(active[i], h, body, target)
      modifies this`active, this`slots, this`bytes, requests
      ensures Valid() && RequestsFor(c, requests) && RequestsOnlyGrow(requests)
      ensures match Absorb(old(active[i]), h, body, target)
              case Conflict => && whole == None && active == SwapRemove(old(active), i)
                               && Repaired(KeyOf(old(active[i])), c, requests.received, requests.queuedGen)
              case Keep(k) => whole == None && active == old(active)[i := k] && requests.queuedGen == old(requests.queuedGen)
              case Whole(w) => whole == Some(w) && active == SwapRemove(old(active), i) && requests.queuedGen == old(requests.queuedGen)
    {
      AbsorbKeepsEntry(active[i], h, body, target);
      match Absorb(active[i], h, body, target) {
        case Conflict =>
          GiveUp(i, c, requests);
          return None;
        case Keep(k) =>
          Replace(i, k);
          return None;
        case Whole(w) =>
          Remove(i);
          return Some(w);
      }
    }

    /** Pixels of a whole entry: the buffer itself, or what it decompresses to. */
    function Contents(size: nat, compressed: bool, buffer: seq<Byte>): Option<seq<Byte>>
    {
      if compressed then inflate(buffer, TileBytes(size)) else Some(buffer)
    }

    /** Turn a whole entry into a tile; one that does not decompress is repaired. */
    method Finish(w: Entry, c: Config, requests: RepairTables.RequestTable) returns (tile: Option<Tile>)
      requires RequestsFor(c, requests) && TileIdKnown(c, w.tileSize, w.tileId)
      modifies requests
      ensures RequestsFor(c, requests) && RequestsOnlyGrow(requests)
      ensures tile == Deliver(w)
      ensures tile == None ==> Repaired(KeyOf(w), c, requests.received, requests.queuedGen)
    {
      TileCovers(c, w.tileSize, w.tileId);
      match Contents(w.tileSize, w.compressed, w.buffer) {
        case None =>
          requests.RepairPartials(CoveredByTile(c, w.tileSize, w.tileId), w.generation);
          return None;
        case Some(b) =>
          requests.ClearInflights(CoveredByTile(c, w.tileSize, w.tileId), w.generation);
          return Some(Tile(w.tileId, w.tileSize, w.generation, w.epoch, w.inputSequence, w.firstNs, b));
      }
    }

    /** A validated fragment that passed the generation gate. Partial tiles are conserved, and so is the tile of the
        packet unless the packet is refused. If all packets are fragments of true payloads, entries stay fragments of
        true payloads; a tile is delivered exactly when its last missing fragment comes in, and then it is the payload. */
    method ReceiveFragment(h: Header, body: seq<Byte>, now: nat, timeout: nat, target: nat, c: Config,
                           requests: RepairTables.RequestTable, ghost truth: Key -> Source)
      returns (tile: Option<Tile>)
      requires Valid() && RequestsFor(c, requests) && frameWidth == c.width && frameHeight == c.height && maxEntries > 0
      requires HeaderFor(h, c) && LayoutValid(h, h.headerSize + |body|, target) && h.payloadSize == |body|
      modifies this`active, this`slots, this`bytes, requests
      ensures Valid() && RequestsFor(c, requests) && RequestsOnlyGrow(requests)
      ensures Conserved(old(active), active, h, tile.Some?, c, requests.received, requests.queuedGen)
      ensures tile.Some? ==> TileKey(tile.value) == HeaderKey(h)
      ensures tile == None && !Refused(old(active), h, now, timeout, maxBytes) ==>
                HasKey(active, HeaderKey(h)) || Repaired(HeaderKey(h), c, requests.received, requests.queuedGen)
      ensures old(Faithful(active, truth, target)) && FragmentOf(h, body, truth(HeaderKey(h)), target) ==>
                && Faithful(active, truth, target)
                && TrueOutcome(old(active), active, h, now, timeout, truth(HeaderKey(h)), tile, c, requests.received, requests.queuedGen)
    {
      var index := Prepare(h, now, timeout, c, requests);
      ghost var mid, queued := active, requests.queuedGen;
      if index == None {
        PreparedConserves(old(active), mid, h, now, timeout, maxBytes, c, requests.received, queued);
        TrueDropped(old(active), mid, h, body, now, timeout, c, requests.received, queued, truth, target);
        return None;
      }
      assert EntryOk(active[index.value]);
      tile := ReceivePrepared(index.value, h, body, now, timeout, target, c, requests, truth, old(active));
    }

    /** The rest of ReceiveFragment, once the entry of the packet is prepared. */
    method ReceivePrepared(i: nat, h: Header, body: seq<Byte>, ghost now: nat, ghost timeout: nat, target: nat, c: Config,
                           requests: RepairTables.RequestTable, ghost truth: Key -> Source, ghost before: seq<Entry>)
      returns (tile: Option<Tile>)
      requires Valid() && RequestsFor(c, requests) && Fits(c) && i < |active| && Placed(active[i], h, body, target)
      requires Prepared(before, active, Some(i), h, now, timeout, maxBytes, c, requests.received, requests.queuedGen)
      modifies this`active, this`slots, this`bytes, requests
      ensures Valid() && RequestsFor(c, requests) && RequestsOnlyGrow(requests)
      ensures Conserved(before, active, h, tile.Some?, c, requests.received, requests.queuedGen)
      ensures tile.Some? ==> TileKey(tile.value) == HeaderKey(h)
      ensures tile == None ==>
                HasKey(active, HeaderKey(h)) || Repaired(HeaderKey(h), c, requests.received, requests.queuedGen)
      ensures Faithful(before, truth, target) && FragmentOf(h, body, truth(HeaderKey(h)), target) ==>
                && Faithful(active, truth, target)
                && TrueOutcome(before, active, h, now, timeout, truth(HeaderKey(h)), tile, c, requests.received, requests.queuedGen)
    {
      ghost var mid, queued := active, requests.queuedGen;
      TilesDistinct(active, slots);
      tile := AbsorbAndFinish(i, h, body, target, c, requests);
      ConservedBy(before, mid, active, i, h, now, timeout, maxBytes, Absorb(mid[i], h, body, target), tile.Some?, c,
                  requests.received, queued, requests.queuedGen);
      TrueAbsorbed(before, mid, active, i, h, body, now, timeout, c, requests.received, queued, requests.queuedGen, truth, target, tile);
    }

    /** A datagram is let through to reassembly: it decodes, passes validation and opens the generation gate. */
    ghost predicate Admitted(packet: seq<Byte>, c: Config, received: seq<nat>)
      requires ValidConfig(c)
    {
      && Decode(packet).Some?
      && var h := Decode(packet).value;
         && Validate(h, |packet|, PayloadTarget(c), c, bound) == Validation.Valid
         && Gate(received, CoveredByTile(c, h.tileSize, h.tileId), h.generation)
    }

    /** An admitted datagram lies inside the layout of its tile. */
    lemma AdmittedLayout(packet: seq<Byte>, c: Config, received: seq<nat>)
      requires ValidConfig(c) && Admitted(packet, c, received)
      ensures var h := Decode(packet).value; LayoutValid(h, |packet|, PayloadTarget(c)) && h.pktId < h.pktCount
    {
    }

    /** Decode, validate and gate a datagram. */
    method Admit(packet: seq<Byte>, c: Config, received: seq<nat>) returns (header: Option<Header>)
      requires ValidConfig(c) && |received| == c.totalTiles
      ensures header.Some? <==> Admitted(packet, c, received)
      ensures header.Some? ==>
                && header == Decode(packet) && HeaderFor(header.value, c) && header.value.headerSize <= |packet|
                && LayoutValid(header.value, |packet|, PayloadTarget(c))
    {
      var decoded := Decode(packet);
      if decoded == None { return None; }
      var h := decoded.value;
      if Validate(h, |packet|, PayloadTarget(c), c, bound) != Validation.Valid { return None; }
      TileCovers(c, h.tileSize, h.tileId);
      var open := CheckGate(received, CoveredByTile(c, h.tileSize, h.tileId), h.generation);
      return if open then decoded else None;
    }

    /** process_udp_packet. Entries of another frame size are dropped first. */
    method Receive(packet: seq<Byte>, now: nat, timeout: nat, c: Config, requests: RepairTables.RequestTable, ghost truth: Key -> Source)
      returns (tile: Option<Tile>)
      requires Valid() && RequestsFor(c, requests) && maxEntries > 0
      modifies this, requests
      ensures Valid() && RequestsFor(c, requests) && RequestsOnlyGrow(requests)
      ensures !Admitted(packet, c, requests.received) || !old(Configurable(c)) ==> tile == None && unchanged(this) && unchanged(requests)
      ensures Admitted(packet, c, requests.received) && old(Configurable(c)) ==>
                var before, h := old(Usable(c)), Decode(packet).value;
                && frameWidth == c.width && frameHeight == c.height
                && Conserved(before, active, h, tile.Some?, c, requests.received, requests.queuedGen)
                && (tile.Some? ==> TileKey(tile.value) == HeaderKey(h))
                && (tile == None && !Refused(before, h, now, ClampTimeout(timeout), maxBytes) ==>
                      HasKey(active, HeaderKey(h)) || Repaired(HeaderKey(h), c, requests.received, requests.queuedGen))
      ensures old(Faithful(active, truth, PayloadTarget(c))) && Admitted(packet, c, requests.received) && old(Configurable(c)) ==>
                var before, h := old(Usable(c)), Decode(packet).value;
                FragmentOf(h, packet[h.headerSize..], truth(HeaderKey(h)), PayloadTarget(c)) ==>
                  && Faithful(active, truth, PayloadTarget(c))
                  && TrueOutcome(before, active, h, now, ClampTimeout(timeout), truth(HeaderKey(h)), tile, c, requests.received,
                                 requests.queuedGen)
    {
      var header := Admit(packet, c, requests.received);
      if header == None { return None; }
      var h := header.value;
      var ok := Configure(c);
      if !ok { return None; }
      tile := ReceiveFragment(h, packet[h.headerSize..], now, ClampTimeout(timeout), PayloadTarget(c), c, requests, truth);
    }

    function Deliver(w: Entry): Option<Tile>
    {
      match Contents(w.tileSize, w.compressed, w.buffer)
      case Some(b) => Some(Tile(w.tileId, w.tileSize, w.generation, w.epoch, w.inputSequence, w.firstNs, b))
      case None => None
    }

    /** Let the prepared entry absorb the packet and deliver the tile if that makes it whole. */
    method AbsorbAndFinish(i: nat, h: Header, body: seq<Byte>, target: nat, c: Config, requests: RepairTables.RequestTable)
      returns (tile: Option<Tile>)
      requires Valid() && RequestsFor(c, requests) && Fits(c) && i < |active| && Placed(active[i], h, body, target)
      modifies this`active, this`slots, this`bytes, requests
      ensures Valid() && RequestsFor(c, requests) && RequestsOnlyGrow(requests)
      ensures match Absorb(old(active[i]), h, body, target)
              case Conflict => tile == None && active == SwapRemove(old(active), i)
              case Keep(k) => tile == None && active == old(active)[i := k] && KeyOf(k) == KeyOf(old(active[i]))
              case Whole(w) => tile == Deliver(w) && active == SwapRemove(old(active), i) && KeyOf(w) == KeyOf(old(active[i]))
      ensures tile == None && !Absorb(old(active[i]), h, body, target).Keep? ==>
                Repaired(KeyOf(old(active[i])), c, requests.received, requests.queuedGen)
    {
      AbsorbKeepsEntry(active[i], h, body, target);
      EntryOnFrame(c, i);
      var whole := AbsorbAt(i, h, body, target, c, requests);
      if whole == None { return None; }
      tile := Finish(whole.value, c, requests);
    }

    /** With true fragments: a tile comes out exactly on the packet that brings its last missing fragment, if the
        payload decodes, and is the payload; a tile made whole by the packet that does not decode is repaired. Any other
        packet that is not refused is recorded in the entry of its tile, and no other entry changes. */
    ghost predicate TrueOutcome(before: seq<Entry>, active: seq<Entry>, h: Header, now: nat, timeout: nat, source: Source, tile: Option<Tile>,
                                c: Config, received: seq<nat>, queued: seq<nat>)
      requires ValidConfig(c)
    {
      var contents, last := Contents(h.tileSize, source.compressed, source.payload), Completes(before, h, now, timeout, maxBytes);
      && (tile.Some? <==> last && contents.Some?)
      && (tile.Some? ==> tile.value.bytes == contents.value && tile.value.inputSequence == source.inputSequence)
      && (last && contents == None ==> Repaired(HeaderKey(h), c, received, queued))
      && Records(before, active, h, now, timeout)
      && (HasKey(active, HeaderKey(h)) <==> !last && !Refused(before, h, now, timeout, maxBytes))
    }

    lemma TrueDropped(before: seq<Entry>, mid: seq<Entry>, h: Header, body: seq<Byte>, now: nat, timeout: nat, c: Config,
                      received: seq<nat>, queued: seq<nat>, truth: Key -> Source, target: nat)
      requires ValidConfig(c) && Prepared(before, mid, None, h, now, timeout, maxBytes, c, received, queued)
      requires LayoutValid(h, h.headerSize + h.payloadSize, target) && !HasKey(mid, HeaderKey(h))
      ensures Faithful(before, truth, target) && FragmentOf(h, body, truth(HeaderKey(h)), target) ==>
                && Faithful(mid, truth, target)
                && TrueOutcome(before, mid, h, now, timeout, truth(HeaderKey(h)), None, c, received, queued)
    {
      if Faithful(before, truth, target) && FragmentOf(h, body, truth(HeaderKey(h)), target) {
        FaithfulPrepared(before, mid, None, h, now, timeout, maxBytes, c, received, queued, body, truth, target);
        DroppedRecords(before, mid, h, now, timeout, maxBytes, c, received, queued);
      }
    }

    lemma TrueAbsorbed(before: seq<Entry>, mid: seq<Entry>, active: seq<Entry>, i: nat, h: Header, body: seq<Byte>, now: nat,
                       timeout: nat, c: Config, received: seq<nat>, queued: seq<nat>, queued': seq<nat>, truth: Key -> Source, target: nat,
                       tile: Option<Tile>)
      requires ValidConfig(c) && Prepared(before, mid, Some(i), h, now, timeout, maxBytes, c, received, queued)
      requires EntryOk(mid[i]) && Placed(mid[i], h, body, target) && OneEach(mid)
      requires match Absorb(mid[i], h, body, target)
               case Conflict => tile == None && active == SwapRemove(mid, i)
               case Keep(k) => tile == None && active == mid[i := k]
               case Whole(w) => && tile == Deliver(w) && active == SwapRemove(mid, i)
                                && (tile == None ==> Repaired(KeyOf(mid[i]), c, received, queued'))
      ensures Faithful(before, truth, target) && FragmentOf(h, body, truth(HeaderKey(h)), target) ==>
                && Faithful(active, truth, target)
                && TrueOutcome(before, active, h, now, timeout, truth(HeaderKey(h)), tile, c, received, queued')
    {
      if Faithful(before, truth, target) && FragmentOf(h, body, truth(HeaderKey(h)), target) {
        FaithfulPrepared(before, mid, Some(i), h, now, timeout, maxBytes, c, received, queued, body, truth, target);
        FaithfulAbsorbed(mid, active, i, h, body, truth, target);
        AbsorbKeepsEntry(mid[i], h, body, target);
        TrueWhole(before, mid, i, h, now, timeout, maxBytes, c, received, queued, body, truth(HeaderKey(h)), target);
        AbsorbedRecords(before, mid, active, i, h, now, timeout, maxBytes, c, received, queued, body, truth(HeaderKey(h)), target);
      }
    }
  }

  ghost predicate AllBut(e: Entry, id: nat)
  {
    e.packetCount <= |e.receipts| && forall j :: 0 <= j < e.packetCount ==> (e.receipts[j] <==> j != id)
  }

  /** A partial tile that has not timed out lacks only the fragment of the packet. */
  ghost predicate LastMissing(before: seq<Entry>, h: Header, now: nat, timeout: nat)
  {
    exists i :: 0 <= i < |before| && KeyOf(before[i]) == HeaderKey(h) && !Expired(before[i], now, timeout)
                && AllBut(before[i], h.pktId)
  }

  /** The packet brings the only fragment its tile lacks: the others are in, or the tile has one fragment. */
  ghost predicate Completes(before: seq<Entry>, h: Header, now: nat, timeout: nat, maxBytes: nat)
  {
    LastMissing(before, h, now, timeout) || (h.pktCount == 1 && !Refused(before, h, now, timeout, maxBytes))
  }

  // ----- receipts

  /** A tile has at most one entry. */
  ghost predicate OneEach(active: seq<Entry>)
  {
    forall i, j :: 0 <= i < j < |active| ==> !(active[i].tileSize == active[j].tileSize && active[i].tileId == active[j].tileId)
  }

  lemma TilesDistinct(active: seq<Entry>, slots: seq<seq<nat>>)
    requires TableInv(active, slots)
    ensures OneEach(active)
  {
    forall i, j | 0 <= i < j < |active| ensures !(active[i].tileSize == active[j].tileSize && active[i].tileId == active[j].tileId) {
      assert HasSlot(slots, active[i]) && HasSlot(slots, active[j]);
    }
  }

  /** The receipts that a packet finds: those of the entry it joins, or none. */
  ghost predicate Found(before: seq<Entry>, h: Header, now: nat, timeout: nat, receipts: seq<bool>)
  {
    if Assembling(before, h, now, timeout)
    then exists k :: 0 <= k < |before| && KeyOf(before[k]) == HeaderKey(h) && !Expired(before[k], now, timeout) && receipts == before[k].receipts
    else receipts == seq(RECEIPT_BITS, _ => false)
  }

  /** The entry has what the packet found, and the fragment of the packet. */
  ghost predicate Recorded(before: seq<Entry>, e: Entry, h: Header, now: nat, timeout: nat)
  {
    && e.packetCount == h.pktCount && h.pktId < |e.receipts|
    && exists found :: Found(before, h, now, timeout, found) && |found| == |e.receipts| && e.receipts == found[h.pktId := true]
  }

  /** Entries of the tile of a packet have recorded it, all others are as they were. */
  ghost predicate Records(before: seq<Entry>, active: seq<Entry>, h: Header, now: nat, timeout: nat)
  {
    forall i :: 0 <= i < |active| ==>
      if KeyOf(active[i]) == HeaderKey(h) then Recorded(before, active[i], h, now, timeout) else active[i] in before
  }

  lemma DroppedRecords(before: seq<Entry>, mid: seq<Entry>, h: Header, now: nat, timeout: nat, maxBytes: nat, c: Config,
                       received: seq<nat>, queued: seq<nat>)
    requires ValidConfig(c) && Prepared(before, mid, None, h, now, timeout, maxBytes, c, received, queued) && !HasKey(mid, HeaderKey(h))
    ensures Records(before, mid, h, now, timeout)
  {
    forall i | 0 <= i < |mid| ensures KeyOf(mid[i]) != HeaderKey(h) && mid[i] in before { HasKeyIn(mid, mid[i]); }
  }

  lemma AbsorbedRecords(before: seq<Entry>, mid: seq<Entry>, active: seq<Entry>, index: nat, h: Header, now: nat, timeout: nat, maxBytes: nat,
                        c: Config, received: seq<nat>, queued: seq<nat>, body: seq<Byte>, source: Source, target: nat)
    requires ValidConfig(c) && Prepared(before, mid, Some(index), h, now, timeout, maxBytes, c, received, queued) && OneEach(mid)
    requires EntryOk(mid[index]) && Placed(mid[index], h, body, target)
    requires HoldsFragmentsOf(mid[index], source, target) && FragmentOf(h, body, source, target)
    requires match Absorb(mid[index], h, body, target)
             case Keep(k) => active == mid[index := k]
             case _ => active == SwapRemove(mid, index)
    ensures Records(before, active, h, now, timeout)
    ensures HasKey(active, HeaderKey(h)) <==> Absorb(mid[index], h, body, target).Keep?
  {
    AbsorbFragment(mid[index], h, body, source, target);
    AbsorbKeepsEntry(mid[index], h, body, target);
    PreparedFinds(before, mid, index, h, now, timeout, maxBytes, c, received, queued);
    forall i | 0 <= i < |active|
      ensures (active[i] in mid && KeyOf(active[i]) != HeaderKey(h)) || (i == index && Absorb(mid[index], h, body, target).Keep?)
    {
      if Absorb(mid[index], h, body, target).Keep? {
        if i != index { OtherTile(mid, index, i, h); }
      } else {
        OtherTile(mid, index, if i == index then |mid| - 1 else i, h);
      }
    }
    if Absorb(mid[index], h, body, target).Keep? {
      HasKeyIn(active, active[index]);
      assert Recorded(before, active[index], h, now, timeout);
    }
  }

  lemma OtherTile(mid: seq<Entry>, index: nat, i: nat, h: Header)
    requires OneEach(mid) && index < |mid| && i < |mid| && i != index && KeyOf(mid[index]) == HeaderKey(h)
    ensures KeyOf(mid[i]) != HeaderKey(h)
  {
  }

  lemma PreparedFinds(before: seq<Entry>, mid: seq<Entry>, index: nat, h: Header, now: nat, timeout: nat, maxBytes: nat, c: Config,
                      received: seq<nat>, queued: seq<nat>)
    requires ValidConfig(c) && Prepared(before, mid, Some(index), h, now, timeout, maxBytes, c, received, queued)
    ensures Found(before, h, now, timeout, mid[index].receipts)
  {
    if Assembling(before, h, now, timeout) {
      var i :| 0 <= i < |before| && KeyOf(before[i]) == HeaderKey(h) && !Expired(before[i], now, timeout);
      assert mid[index] == before[i];
    }
  }

  lemma TrueWhole(before: seq<Entry>, mid: seq<Entry>, index: nat, h: Header, now: nat, timeout: nat, maxBytes: nat, c: Config,
                  received: seq<nat>, queued: seq<nat>, body: seq<Byte>, source: Source, target: nat)
    requires ValidConfig(c) && Prepared(before, mid, Some(index), h, now, timeout, maxBytes, c, received, queued)
    requires EntryOk(mid[index]) && Placed(mid[index], h, body, target)
    requires HoldsFragmentsOf(mid[index], source, target) && FragmentOf(h, body, source, target)
    ensures Absorb(mid[index], h, body, target).Whole? ==>
              && Absorb(mid[index], h, body, target).entry.buffer == source.payload
              && Absorb(mid[index], h, body, target).entry.inputSequence == source.inputSequence
              && Absorb(mid[index], h, body, target).entry.compressed == source.compressed
    ensures Absorb(mid[index], h, body, target).Whole? <==> Completes(before, h, now, timeout, maxBytes)
  {
    AbsorbFragment(mid[index], h, body, source, target);
    if Assembling(before, h, now, timeout) {
      var i :| 0 <= i < |before| && KeyOf(before[i]) == HeaderKey(h) && !Expired(before[i], now, timeout);
      assert mid[index] == before[i];
      OneFragmentMissing(mid[index], h, body, target);
    } else {
      assert forall j :: 0 <= j < h.pktCount ==> !mid[index].receipts[j];
    }
  }

  /** An active entry of a one-fragment tile lacks that fragment. */
  lemma OneFragmentMissing(e: Entry, h: Header, body: seq<Byte>, target: nat)
    requires EntryOk(e) && Placed(e, h, body, target)
    ensures e.packetCount == 1 && h.pktId == 0 ==> AllBut(e, h.pktId)
  {
    CountAll(e.receipts[..e.packetCount]);
  }

  lemma ReplaceKeepsTable(active: seq<Entry>, slots: seq<seq<nat>>, i: nat, e: Entry)
    requires TableInv(active, slots) && i < |active|
    requires e.tileSize == active[i].tileSize && e.tileId == active[i].tileId
    ensures TableInv(active[i := e], slots)
  {
    forall s, t | 0 <= s < 4 && 0 <= t < |slots[s]| && slots[s][t] != NO_ENTRY ensures SlotUsed(active[i := e], slots, s, t) {
      assert SlotUsed(active, slots, s, t);
    }
    var r := active[i := e];
    forall k | 0 <= k < |r| ensures HasSlot(slots, r[k]) && slots[r[k].tileSize][r[k].tileId] == k {
      assert HasSlot(slots, active[k]);
    }
  }

  /** A tile delivered by the reassembler. */
  datatype Tile = Tile(tileId: nat, tileSize: nat, generation: nat, epoch: nat, inputSequence: nat, firstNs: nat, bytes: seq<Byte>)

  function TileKey(t: Tile): Key { Key(t.tileSize, t.tileId, t.epoch, t.generation) }

  // ----- what a packet does to the set of partial tiles

  ghost predicate HasKey(active: seq<Entry>, key: Key)
  {
    exists i :: 0 <= i < |active| && KeyOf(active[i]) == key
  }

  /** No partial tile vanishes: it is still there, was repaired, was superseded by the packet, or was delivered. */
  ghost predicate Conserved(before: seq<Entry>, active: seq<Entry>, h: Header, delivered: bool, c: Config,
                            received: seq<nat>, queued: seq<nat>)
    requires ValidConfig(c)
  {
    forall i :: 0 <= i < |before| ==>
      || HasKey(active, KeyOf(before[i])) || Repaired(KeyOf(before[i]), c, received, queued)
      || Superseded(h, KeyOf(before[i])) || (delivered && KeyOf(before[i]) == HeaderKey(h))
  }

  lemma ConservedPersists(before: seq<Entry>, active: seq<Entry>, h: Header, delivered: bool, c: Config,
                          received: seq<nat>, queued: seq<nat>, received': seq<nat>, queued': seq<nat>)
    requires ValidConfig(c) && Conserved(before, active, h, delivered, c, received, queued) && Persists(received, queued, received', queued')
    ensures Conserved(before, active, h, delivered, c, received', queued')
  {
    forall i | 0 <= i < |before| && Repaired(KeyOf(before[i]), c, received, queued) ensures Repaired(KeyOf(before[i]), c, received', queued') {
      RepairedPersists(KeyOf(before[i]), c, received, queued, received', queued');
    }
  }

  lemma HasKeyIn(active: seq<Entry>, e: Entry)
    requires e in active
    ensures HasKey(active, KeyOf(e))
  {
    var i :| 0 <= i < |active| && active[i] == e;
  }

  /** Preparing and absorbing conserve partial tiles, if a tile taken out whole or on conflict was delivered or repaired. */
  lemma ConservedBy(before: seq<Entry>, mid: seq<Entry>, active: seq<Entry>, index: nat, h: Header, now: nat, timeout: nat, maxBytes: nat,
                    absorbed: Absorbed, delivered: bool, c: Config, received: seq<nat>, queued: seq<nat>, queued': seq<nat>)
    requires ValidConfig(c) && |queued| == |queued'| && forall t :: 0 <= t < |queued| ==> queued[t] <= queued'[t]
    requires Prepared(before, mid, Some(index), h, now, timeout, maxBytes, c, received, queued)
    requires match absorbed
             case Keep(k) => KeyOf(k) == KeyOf(mid[index]) && active == mid[index := k]
             case _ => active == SwapRemove(mid, index) && (delivered || Repaired(KeyOf(mid[index]), c, received, queued'))
    ensures Conserved(before, active, h, delivered, c, received, queued')
    ensures !delivered ==> HasKey(active, HeaderKey(h)) || Repaired(HeaderKey(h), c, received, queued')
  {
    if absorbed.Keep? { HasKeyIn(active, active[index]); }
    forall i | 0 <= i < |before| && !Superseded(h, KeyOf(before[i]))
      ensures || HasKey(active, KeyOf(before[i])) || Repaired(KeyOf(before[i]), c, received, queued')
              || (delivered && KeyOf(before[i]) == HeaderKey(h))
    {
      var e := before[i];
      if e !in mid {
        RepairedGrows(KeyOf(e), c, received, queued, queued');
      } else if !absorbed.Keep? {
        SwapRemoveMembers(mid, index);
        if e in active { HasKeyIn(active, e); }
      } else {
        var at :| 0 <= at < |mid| && mid[at] == e;
        assert KeyOf(active[at]) == KeyOf(e);
      }
    }
  }

  lemma PreparedConserves(before: seq<Entry>, mid: seq<Entry>, h: Header, now: nat, timeout: nat, maxBytes: nat, c: Config,
                          received: seq<nat>, queued: seq<nat>)
    requires ValidConfig(c) && Prepared(before, mid, None, h, now, timeout, maxBytes, c, received, queued)
    ensures Conserved(before, mid, h, false, c, received, queued)
  {
    forall i | 0 <= i < |before| && before[i] in mid ensures HasKey(mid, KeyOf(before[i])) {
      HasKeyIn(mid, before[i]);
    }
  }

  // ----- fragments of true payloads

  lemma NewEntryHolds(h: Header, now: nat, body: seq<Byte>, source: Source, target: nat)
    requires FragmentOf(h, body, source, target) && LayoutValid(h, h.headerSize + h.payloadSize, target)
    ensures HoldsFragmentsOf(NewEntry(h, now), source, target)
  {}

  lemma FaithfulPrepared(before: seq<Entry>, mid: seq<Entry>, index: Option<nat>, h: Header, now: nat, timeout: nat,
                         maxBytes: nat, c: Config, received: seq<nat>, queued: seq<nat>, body: seq<Byte>, truth: Key -> Source, target: nat)
    requires ValidConfig(c) && Prepared(before, mid, index, h, now, timeout, maxBytes, c, received, queued)
    requires Faithful(before, truth, target) && FragmentOf(h, body, truth(HeaderKey(h)), target)
    requires LayoutValid(h, h.headerSize + h.payloadSize, target)
    ensures Faithful(mid, truth, target)
  {
    NewEntryHolds(h, now, body, truth(HeaderKey(h)), target);
    forall i | 0 <= i < |mid| ensures HoldsFragmentsOf(mid[i], truth(KeyOf(mid[i])), target) {
      if mid[i] in before {
        var k :| 0 <= k < |before| && before[k] == mid[i];
      }
    }
  }

  lemma FaithfulAbsorbed(mid: seq<Entry>, active: seq<Entry>, index: nat, h: Header, body: seq<Byte>, truth: Key -> Source, target: nat)
    requires Faithful(mid, truth, target) && index < |mid| && KeyOf(mid[index]) == HeaderKey(h) && EntryOk(mid[index])
    requires Placed(mid[index], h, body, target) && FragmentOf(h, body, truth(HeaderKey(h)), target)
    requires match Absorb(mid[index], h, body, target)
             case Conflict => active == SwapRemove(mid, index)
             case Keep(k) => active == mid[index := k]
             case Whole(w) => active == SwapRemove(mid, index)
    ensures Faithful(active, truth, target) && !Absorb(mid[index], h, body, target).Conflict?
  {
    AbsorbFragment(mid[index], h, body, truth(HeaderKey(h)), target);
    AbsorbKeepsEntry(mid[index], h, body, target);
    SwapRemoveMembers(mid, index);
    forall i | 0 <= i < |active| ensures HoldsFragmentsOf(active[i], truth(KeyOf(active[i])), target) {
      if active[i] in mid {
        var k :| 0 <= k < |mid| && mid[k] == active[i];
      }
    }
  }

  /** A packet of a newer generation, or of another epoch, replaces a partial tile in its slot. */
  predicate Superseded(h: Header, key: Key)
  {
    key.tileSize == h.tileSize && key.tileId == h.tileId && (key.epoch != h.epoch || key.generation < h.generation)
  }

  ghost predicate TooOld(h: Header, before: seq<Entry>)
  {
    exists i :: 0 <= i < |before| && before[i].tileSize == h.tileSize && before[i].tileId == h.tileId
                && before[i].epoch == h.epoch && h.generation < before[i].generation
  }

  ghost predicate Begun(before: seq<Entry>, active: seq<Entry>, index: Option<nat>, h: Header, now: nat, c: Config,
                        received: seq<nat>, queued: seq<nat>)
    requires ValidConfig(c)
  {
    && KeptOrRepaired(before, active, c, received, queued)
    && (forall e :: e in active ==> e in before || (index.Some? && e == NewEntry(h, now)))
    && (index.Some? ==> index.value < |active| && active[index.value] == NewEntry(h, now))
  }

  lemma BegunBy(before: seq<Entry>, kept: seq<Entry>, active: seq<Entry>, index: Option<nat>, h: Header, now: nat, c: Config,
                received: seq<nat>, queued: seq<nat>)
    requires ValidConfig(c) && KeptOrRepaired(before, kept, c, received, queued)
    requires forall e :: e in kept ==> e in before
    requires if index.Some? then active == kept + [NewEntry(h, now)] && index.value == |kept| else active == kept
    ensures Begun(before, active, index, h, now, c, received, queued)
  {}

  /** What preparing for a packet does to the active entries. */
  ghost predicate Prepared(before: seq<Entry>, active: seq<Entry>, index: Option<nat>, h: Header, now: nat, timeout: nat,
                           maxBytes: nat, c: Config, received: seq<nat>, queued: seq<nat>)
    requires ValidConfig(c)
  {
    && (forall i :: 0 <= i < |before| ==>
          before[i] in active || Repaired(KeyOf(before[i]), c, received, queued) || Superseded(h, KeyOf(before[i])))
    && (forall e :: e in active ==> e in before || (index.Some? && e == NewEntry(h, now)))
    && (index.Some? ==> index.value < |active| && KeyOf(active[index.value]) == HeaderKey(h))
    && (forall i :: 0 <= i < |before| && KeyOf(before[i]) == HeaderKey(h) && !Expired(before[i], now, timeout) ==>
          active == before && index.Some? && active[index.value] == before[i])
    && (index.Some? && !Assembling(before, h, now, timeout) ==> active[index.value] == NewEntry(h, now))
    && (index == None <==> Refused(before, h, now, timeout, maxBytes))
  }

  /** The packet does not belong to the entry: the entry has timed out, is older, or is of another epoch. */
  predicate Passed(h: Header, e: Entry, now: nat, timeout: nat)
  {
    e.epoch == h.epoch ==> e.generation < h.generation || (e.generation == h.generation && Expired(e, now, timeout))
  }

  lemma NotAssembling(before: seq<Entry>, found: Option<nat>, h: Header, now: nat, timeout: nat)
    requires forall k :: 0 <= k < |before| && before[k].tileSize == h.tileSize && before[k].tileId == h.tileId ==> found == Some(k)
    requires found.Some? ==> found.value < |before| && Passed(h, before[found.value], now, timeout)
    ensures !Assembling(before, h, now, timeout) && !TooOld(h, before)
  {}

  /** A newer generation of the tile of a packet is being assembled, or its own is not and its payload can never fit. */
  ghost predicate Refused(before: seq<Entry>, h: Header, now: nat, timeout: nat, maxBytes: nat)
  {
    TooOld(h, before) || (!Assembling(before, h, now, timeout) && h.tilePayloadSize > maxBytes)
  }

  /** The tile of a packet is being assembled and has not timed out. */
  ghost predicate Assembling(before: seq<Entry>, h: Header, now: nat, timeout: nat)
  {
    exists i :: 0 <= i < |before| && KeyOf(before[i]) == HeaderKey(h) && !Expired(before[i], now, timeout)
  }

  lemma PreparedBy(before: seq<Entry>, left: seq<Entry>, active: seq<Entry>, index: Option<nat>, h: Header, now: nat, timeout: nat,
                   maxBytes: nat, c: Config, received: seq<nat>, queued: seq<nat>, queued': seq<nat>)
    requires ValidConfig(c) && |queued| == |queued'| && forall t :: 0 <= t < |queued| ==> queued[t] <= queued'[t]
    requires Begun(left, active, index, h, now, c, received, queued')
    requires forall i :: 0 <= i < |before| ==>
               before[i] in left || Repaired(KeyOf(before[i]), c, received, queued) || Superseded(h, KeyOf(before[i]))
    requires forall e :: e in left ==> e in before
    requires !Assembling(before, h, now, timeout) && !TooOld(h, before) && (index == None <==> h.tilePayloadSize > maxBytes)
    ensures Prepared(before, active, index, h, now, timeout, maxBytes, c, received, queued')
  {
    forall i | 0 <= i < |before|
      ensures before[i] in active || Repaired(KeyOf(before[i]), c, received, queued') || Superseded(h, KeyOf(before[i]))
    {
      if before[i] in left {
        var k :| 0 <= k < |left| && left[k] == before[i];
      } else if Repaired(KeyOf(before[i]), c, received, queued) {
        RepairedGrows(KeyOf(before[i]), c, received, queued, queued');
      }
    }
  }

  const TIMEOUT_MIN_NS: nat := 150_000_000
  const TIMEOUT_MAX_NS: nat := 900_000_000

  function ClampTimeout(ns: nat): (r: nat)
    ensures TIMEOUT_MIN_NS <= r <= TIMEOUT_MAX_NS
  {
    RepairLog.Clamp(ns, TIMEOUT_MIN_NS, TIMEOUT_MAX_NS)
  }

  predicate Expired(e: Entry, now: nat, timeout: nat) { e.firstNs != 0 && RepairLog.Elapsed(now, e.firstNs) > timeout }

  ghost predicate ExpiredSoFar(before: seq<Entry>, active: seq<Entry>, i: nat, now: nat)
  {
    && (forall e :: e in active ==> e in before)
    && (forall k :: 0 <= k < i && k < |active| ==> !Expired(active[k], now, TIMEOUT_MAX_NS))
    && (forall e :: e in before && !Expired(e, now, TIMEOUT_MIN_NS) ==> e in active)
  }

  lemma ExpiredStep(before: seq<Entry>, active: seq<Entry>, i: nat, now: nat)
    requires ExpiredSoFar(before, active, i, now) && i < |active| && Expired(active[i], now, TIMEOUT_MIN_NS)
    ensures ExpiredSoFar(before, SwapRemove(active, i), i, now)
  {
    SwapRemoveMembers(active, i);
  }

  lemma StaysStep(before: seq<Entry>, active: seq<Entry>, i: nat, now: nat, timeout: nat)
    requires ExpiredSoFar(before, active, i, now) && i < |active| && timeout <= TIMEOUT_MAX_NS && !Expired(active[i], now, timeout)
    ensures ExpiredSoFar(before, active, i + 1, now)
  {}

  /** What validation establishes of a header before an entry is made for it. */
  ghost predicate HeaderFor(h: Header, c: Config)
  {
    TileIdKnown(c, h.tileSize, h.tileId) && 0 < h.pktCount <= U8_MAX && h.tilePayloadSize > 0
  }

  function NewEntry(h: Header, now: nat): Entry
  {
    Entry(h.tileId, h.tileSize, h.generation, h.epoch, if h.pktId == 0 then h.inputSequence else 0, h.pktId == 0,
          h.pktCount, IsCompressed(h), now, seq(h.tilePayloadSize, _ => 0), seq(RECEIPT_BITS, _ => false), 0)
  }

  lemma NewEntryOk(h: Header, now: nat)
    requires 0 < h.pktCount <= U8_MAX && h.tilePayloadSize > 0
    ensures EntryOk(NewEntry(h, now))
  {
    CountAll(NewEntry(h, now).receipts[..h.pktCount]);
  }

  /** What was evicted is no younger than what stayed. */
  ghost predicate OldestGone(before: seq<Entry>, active: seq<Entry>)
  {
    forall e, f :: e in before && e !in active && f in active ==> e.firstNs <= f.firstNs
  }

  /** The effect of any number of oldest-first evictions. */
  ghost predicate Evicted(before: seq<Entry>, active: seq<Entry>, slotsBefore: seq<seq<nat>>, slots: seq<seq<nat>>, c: Config,
                          received: seq<nat>, queued: seq<nat>)
    requires ValidConfig(c)
  {
    && KeptOrRepaired(before, active, c, received, queued)
    && (forall e :: e in active ==> e in before)
    && OldestGone(before, active)
    && StillEmpty(slotsBefore, slots)
  }

  lemma EvictedStep(before: seq<Entry>, active: seq<Entry>, slotsBefore: seq<seq<nat>>, slots: seq<seq<nat>>, oldest: nat,
                    c: Config, received: seq<nat>, queued: seq<nat>, queued': seq<nat>)
    requires ValidConfig(c) && Evicted(before, active, slotsBefore, slots, c, received, queued)
    requires TableInv(active, slots) && oldest < |active|
    requires forall i :: 0 <= i < |active| ==> active[oldest].firstNs <= active[i].firstNs
    requires |queued| == |queued'| && forall t :: 0 <= t < |queued| ==> queued[t] <= queued'[t]
    requires Repaired(KeyOf(active[oldest]), c, received, queued')
    ensures Evicted(before, SwapRemove(active, oldest), slotsBefore, RemoveSlot(active, slots, oldest), c, received, queued')
  {
    KeptStep(before, active, oldest, c, received, queued, queued');
    EvictStep(before, active, oldest);
    RemoveKeepsEmpty(active, slots, oldest);
  }

  /** Eviction stopped as early as it could: with the youngest evicted entry back, the payload would not fit. */
  ghost predicate NoneTooMany(before: seq<Entry>, active: seq<Entry>, payloadSize: nat, maxEntries: nat, maxBytes: nat)
  {
    active == before || exists e :: EvictedLast(e, before, active, payloadSize, maxEntries, maxBytes)
  }

  ghost predicate EvictedLast(e: Entry, before: seq<Entry>, active: seq<Entry>, payloadSize: nat, maxEntries: nat, maxBytes: nat)
  {
    && e in before && e !in active && (forall f :: f in before && f !in active ==> f.firstNs <= e.firstNs)
    && (|active| + 1 >= maxEntries || SumBytes(active) + |e.buffer| + payloadSize > maxBytes)
  }

  lemma NeededStep(before: seq<Entry>, active: seq<Entry>, slots: seq<seq<nat>>, oldest: nat, payloadSize: nat,
                   maxEntries: nat, maxBytes: nat)
    requires TableInv(active, slots) && oldest < |active| && OldestGone(before, active)
    requires forall e :: e in active ==> e in before
    requires |active| >= maxEntries || SumBytes(active) + payloadSize > maxBytes
    ensures NoneTooMany(before, SwapRemove(active, oldest), payloadSize, maxEntries, maxBytes)
  {
    SwapRemoveMembers(active, oldest);
    SwapRemoveSum(active, oldest);
    RemovedIsGone(active, slots, oldest);
    assert EvictedLast(active[oldest], before, SwapRemove(active, oldest), payloadSize, maxEntries, maxBytes);
  }

  lemma RemovedIsGone(active: seq<Entry>, slots: seq<seq<nat>>, i: nat)
    requires TableInv(active, slots) && i < |active|
    ensures active[i] !in SwapRemove(active, i)
  {
    var left := SwapRemove(active, i);
    forall k | 0 <= k < |left| ensures left[k] != active[i] {
      var at := if k == i then |active| - 1 else k;
      assert left[k] == active[at] && HasSlot(slots, active[at]) && HasSlot(slots, active[i]);
    }
  }

  lemma EvictStep(before: seq<Entry>, active: seq<Entry>, oldest: nat)
    requires OldestGone(before, active) && oldest < |active|
    requires forall e :: e in active ==> e in before
    requires forall i :: 0 <= i < |active| ==> active[oldest].firstNs <= active[i].firstNs
    ensures OldestGone(before, SwapRemove(active, oldest))
    ensures forall e :: e in SwapRemove(active, oldest) ==> e in before
  {
    SwapRemoveMembers(active, oldest);
  }

  /** Slots that were empty are still empty. */
  ghost predicate StillEmpty(before: seq<seq<nat>>, slots: seq<seq<nat>>)
  {
    && |before| == |slots|
    && (forall s :: 0 <= s < |slots| ==> |before[s]| == |slots[s]|)
    && (forall s, t :: 0 <= s < |slots| && 0 <= t < |slots[s]| && before[s][t] == NO_ENTRY ==> slots[s][t] == NO_ENTRY)
  }

  lemma RemoveKeepsEmpty(active: seq<Entry>, slots: seq<seq<nat>>, i: nat)
    requires TableInv(active, slots) && i < |active|
    ensures StillEmpty(slots, RemoveSlot(active, slots, i))
  {
    assert HasSlot(slots, active[i]) && HasSlot(slots, active[|active| - 1]);
  }

  /** Entries have slots of their own, of which there are fewer than 2^18: the index of an entry is never NO_ENTRY. */
  lemma FewEntries(active: seq<Entry>, slots: seq<seq<nat>>, width: nat, height: nat)
    requires TableInv(active, slots) && SlotsFor(slots, width, height)
    ensures |active| < NO_ENTRY
  {
    var codes: seq<nat> := seq(|active|, i requires 0 <= i < |active| => active[i].tileSize * (U16_MAX + 1) + active[i].tileId);
    forall i | 0 <= i < |active|
      ensures active[i].tileSize < 4 && active[i].tileId < U16_MAX && HasSlot(slots, active[i])
    {
      assert HasSlot(slots, active[i]);
    }
    RepairLog.DistinctBelow(codes, 4 * (U16_MAX + 1));
  }

  /** Slots of a configured frame are the tiles of that frame. */
  lemma SlotIsTile(c: Config, slots: seq<seq<nat>>, size: nat, id: nat)
    requires ValidConfig(c) && SlotsFor(slots, c.width, c.height) && size < 4
    ensures id < |slots[size]| ==> TileIdKnown(c, size, id)
    ensures TileIdKnown(c, size, id) ==> id < |slots[size]|
  {
    SomeTiles(c.width, TileWidth(size));
    SomeTiles(c.height, TileHeight(size));
  }

  lemma SomeTiles(extent: nat, tile: nat)
    requires 0 < extent <= U16_MAX && 0 < tile
    ensures TilesFor(extent, tile) > 0
  {
    QuotientBlock(extent + tile - 1, tile, 1);
    QuotientBlock(extent + tile - 1, tile, U16_MAX + 1);
    MulBound(U16_MAX + 1, 1, U16_MAX + 1, tile);
    assert Product(U16_MAX + 1, tile) >= extent + tile by {
      ProductAdd(U16_MAX, 1, tile);
      MulBound(U16_MAX, 1, U16_MAX, tile);
    }
  }

  function SlotCount(c: Config, size: nat): (n: nat)
    ensures n == Product(TilesFor(c.width, TileWidth(size)), TilesFor(c.height, TileHeight(size)))
  {
    MulBound(0, 0, TilesFor(c.width, TileWidth(size)), TilesFor(c.height, TileHeight(size)));
    Product(TilesFor(c.width, TileWidth(size)), TilesFor(c.height, TileHeight(size)))
  }

  predicate SizeFits(c: Config, size: nat)
  {
    TilesFor(c.width, TileWidth(size)) > 0 && TilesFor(c.height, TileHeight(size)) > 0 && SlotCount(c, size) <= U16_MAX
  }

  predicate AllSizesFit(c: Config) { SizeFits(c, 0) && SizeFits(c, 1) && SizeFits(c, 2) && SizeFits(c, 3) }
}
