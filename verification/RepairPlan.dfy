/** What a summary and a promotion decide, over the values they find (src/client/client_net.cpp): which announcements
    become pending, which generations are asked for, and exactly what a summary can lose. */
module RepairPlan {
  import opened RepairLog
  import opened Sorting

  // ----- throttling

  predicate Pressure(total: nat, queueLength: nat, pendingCount: nat)
  {
    var tiles := Max(PRESSURE_MAX_TILES, total * PRESSURE_PERCENT / 100);
    total != 0 && (queueLength >= tiles || pendingCount >= tiles)
  }

  predicate LargeBatch(total: nat, count: nat, now: nat, timers: Timers)
  {
    && total > 0 && count > 0 && count * 100 >= total * LARGE_REPAIR_PERCENT
    && (timers.lossSignalUntil == 0 || now >= timers.lossSignalUntil)
  }

  predicate TooSoon(minAge: nat, notBefore: nat, now: nat, timers: Timers)
  {
    minAge < LargeRepairGraceNs(timers) || now < notBefore
  }

  function Age(c: Candidate, now: nat): nat { if c.since != 0 && now >= c.since then now - c.since else 0 }

  function MinAge(candidates: seq<Candidate>, now: nat): nat
  {
    if candidates == [] then U64_MAX
    else Min(MinAge(candidates[..|candidates| - 1], now), Age(candidates[|candidates| - 1], now))
  }

  /** Under pressure only the oldest candidates are kept. */
  function Limited(candidates: seq<Candidate>, pressure: bool): (kept: seq<Candidate>)
    ensures forall c :: c in kept ==> c in candidates
    ensures !pressure || |candidates| <= PRESSURE_MAX_TILES ==> kept == candidates
    ensures pressure && |candidates| > PRESSURE_MAX_TILES ==> |kept| == PRESSURE_MAX_TILES
  {
    if pressure && |candidates| > PRESSURE_MAX_TILES then
      SortKeepsMembers(candidates, OlderFirst);
      Sort(candidates, OlderFirst)[..PRESSURE_MAX_TILES]
    else candidates
  }

  /** The candidates that are not kept under pressure. */
  function Overflow(candidates: seq<Candidate>, pressure: bool): (dropped: seq<Candidate>)
    ensures forall c :: c in dropped ==> c in candidates
  {
    if pressure && |candidates| > PRESSURE_MAX_TILES then
      SortKeepsMembers(candidates, OlderFirst);
      Sort(candidates, OlderFirst)[PRESSURE_MAX_TILES..]
    else []
  }

  /** The candidates that go to the request queue. */
  function Chosen(candidates: seq<Candidate>, total: nat, queueLength: nat, pendingCount: nat, notBefore: nat, now: nat, timers: Timers)
    : (chosen: seq<Candidate>)
    ensures forall c :: c in chosen ==> c in candidates
  {
    var kept := Limited(candidates, Pressure(total, queueLength, pendingCount));
    if LargeBatch(total, |kept|, now, timers) && TooSoon(MinAge(candidates, now), notBefore, now, timers) then [] else kept
  }

  /** When the next large batch may go. */
  function NextLarge(candidates: seq<Candidate>, total: nat, queueLength: nat, pendingCount: nat, notBefore: nat, now: nat, timers: Timers): nat
  {
    var kept := Limited(candidates, Pressure(total, queueLength, pendingCount));
    if LargeBatch(total, |kept|, now, timers) && !TooSoon(MinAge(candidates, now), notBefore, now, timers)
    then now + Max(LARGE_REPAIR_COOLDOWN_NS, CleanIntervalNs(timers)) else notBefore
  }

  /** The candidates are too many under pressure, or a large batch that comes too soon. */
  predicate Throttled(candidates: seq<Candidate>, total: nat, queueLength: nat, pendingCount: nat, notBefore: nat, now: nat, timers: Timers)
  {
    || (Pressure(total, queueLength, pendingCount) && |candidates| > PRESSURE_MAX_TILES)
    || (LargeBatch(total, |candidates|, now, timers) && TooSoon(MinAge(candidates, now), notBefore, now, timers))
  }

  lemma UnthrottledTakesAll(candidates: seq<Candidate>, total: nat, queueLength: nat, pendingCount: nat, notBefore: nat, now: nat,
                            timers: Timers)
    requires !Throttled(candidates, total, queueLength, pendingCount, notBefore, now, timers)
    ensures Chosen(candidates, total, queueLength, pendingCount, notBefore, now, timers) == candidates
  {}

  // ----- what queueing candidates does to the tables

  ghost predicate Lists(candidates: seq<Candidate>, n: nat, t: int)
    requires n <= |candidates|
  {
    exists k :: 0 <= k < n && candidates[k].tile == t
  }

  /** The tiles of the first n candidates are no longer pending, and no other tile changed. */
  ghost predicate TakenOff(candidates: seq<Candidate>, n: nat, before: seq<nat>, gens: seq<nat>)
  {
    && n <= |candidates| && |before| == |gens|
    && forall t :: 0 <= t < |gens| ==> gens[t] == if Lists(candidates, n, t) then 0 else before[t]
  }

  lemma TakenOffStep(candidates: seq<Candidate>, n: nat, before: seq<nat>, gens: seq<nat>)
    requires n < |candidates| && TakenOff(candidates, n, before, gens) && candidates[n].tile < |gens|
    ensures TakenOff(candidates, n + 1, before, gens[candidates[n].tile := 0])
  {
    forall t | 0 <= t < |gens| ensures Lists(candidates, n + 1, t) == (Lists(candidates, n, t) || t == candidates[n].tile) {
      if Lists(candidates, n, t) {
        var k :| 0 <= k < n && candidates[k].tile == t;
      }
    }
  }

  /** The newest generation the first n candidates name for a tile. */
  ghost function MaxAsked(candidates: seq<Candidate>, n: nat, t: int): nat
    requires n <= |candidates|
  {
    if n == 0 then 0
    else if candidates[n - 1].tile == t then Max(MaxAsked(candidates, n - 1, t), candidates[n - 1].generation)
    else MaxAsked(candidates, n - 1, t)
  }

  /** MaxAsked is the maximum: it bounds every candidate of the tile and, unless it is 0, is one of them. */
  lemma {:induction false} MaxAskedIsMax(candidates: seq<Candidate>, n: nat, t: int)
    requires n <= |candidates|
    ensures forall k :: 0 <= k < n && candidates[k].tile == t ==> candidates[k].generation <= MaxAsked(candidates, n, t)
    ensures MaxAsked(candidates, n, t) != 0 ==>
              exists k :: 0 <= k < n && candidates[k].tile == t && candidates[k].generation == MaxAsked(candidates, n, t)
  {
    if n != 0 {
      MaxAskedIsMax(candidates, n - 1, t);
      if MaxAsked(candidates, n, t) != 0 && MaxAsked(candidates, n, t) == MaxAsked(candidates, n - 1, t) {
        var k :| 0 <= k < n - 1 && candidates[k].tile == t && candidates[k].generation == MaxAsked(candidates, n - 1, t);
      } else if MaxAsked(candidates, n, t) != 0 {
        assert candidates[n - 1].tile == t && candidates[n - 1].generation == MaxAsked(candidates, n, t);
      }
    }
  }

  /** The first n candidates were queued, each tile at the newest generation asked for, and nothing else was. */
  ghost predicate QueuedBy(candidates: seq<Candidate>, n: nat, before: seq<nat>, queued: seq<nat>)
  {
    && n <= |candidates| && |before| == |queued|
    && forall t :: 0 <= t < |queued| ==> queued[t] == Max(before[t], MaxAsked(candidates, n, t))
  }

  lemma NothingChosen(gens: seq<nat>, queued: seq<nat>)
    ensures TakenOff([], 0, gens, gens) && QueuedBy([], 0, queued, queued)
  {}

  lemma NoneToChoose(total: nat, queueLength: nat, pendingCount: nat, notBefore: nat, now: nat, timers: Timers)
    ensures Chosen([], total, queueLength, pendingCount, notBefore, now, timers) == []
    ensures NextLarge([], total, queueLength, pendingCount, notBefore, now, timers) == notBefore
  {}

  // ----- scanning a summary

  datatype Board = Board(gens: seq<nat>, since: seq<nat>, candidates: seq<Candidate>)

  /** An announced generation may be asked for: nothing of it is on the way and its grace is over. */
  predicate Ripe(v: Seen, since: nat, t: nat, g: nat, now: nat, timers: Timers)
    requires v.Sized(|v.received|) && t < |v.received|
  {
    !Busy(v, t, g, now, timers) && (since == 0 || Elapsed(now, since) >= SummaryGraceNs(timers))
  }

  ghost predicate InGrid(entries: seq<Announcement>, total: nat)
  {
    forall i :: 0 <= i < |entries| ==> entries[i].tile < total
  }

  ghost predicate BoardOk(s: Board, v: Seen)
  {
    v.Sized(|v.received|) && |s.gens| == |s.since| == |v.received|
  }

  /** One announcement: satisfied, newly pending, ripe for repair, or still waiting. */
  ghost function Announced(s: Board, e: Announcement, v: Seen, now: nat, timers: Timers): (r: Board)
    requires BoardOk(s, v) && e.tile < |v.received|
    ensures BoardOk(r, v)
  {
    var t, g := e.tile, e.generation;
    if g <= v.received[t] then Board(s.gens[t := 0], s.since[t := 0], s.candidates)
    else if s.gens[t] < g then Board(s.gens[t := g], s.since[t := now], s.candidates)
    else if Ripe(v, s.since[t], t, g, now, timers) then s.(candidates := s.candidates + [Candidate(t, g, s.since[t])])
    else s
  }

  /** The first n announcements of a summary, in order. */
  ghost function Scanned(entries: seq<Announcement>, n: nat, gens: seq<nat>, since: seq<nat>, v: Seen, now: nat, timers: Timers): (r: Board)
    requires n <= |entries| && InGrid(entries, |v.received|) && BoardOk(Board(gens, since, []), v)
    ensures BoardOk(r, v)
  {
    if n == 0 then Board(gens, since, [])
    else Announced(Scanned(entries, n - 1, gens, since, v, now, timers), entries[n - 1], v, now, timers)
  }

  lemma ScannedNext(entries: seq<Announcement>, n: nat, gens: seq<nat>, since: seq<nat>, v: Seen, now: nat, timers: Timers, r: Board)
    requires n < |entries| && InGrid(entries, |v.received|) && BoardOk(Board(gens, since, []), v)
    requires r == Announced(Scanned(entries, n, gens, since, v, now, timers), entries[n], v, now, timers)
    ensures r == Scanned(entries, n + 1, gens, since, v, now, timers)
  {}

  /** The due record of an announcement that makes its tile newly pending. */
  ghost function DueOf(gens: seq<nat>, e: Announcement, received: seq<nat>, now: nat, timers: Timers): seq<Due>
    requires e.tile < |gens| == |received|
  {
    if received[e.tile] < e.generation && gens[e.tile] < e.generation
    then [Due(e.tile, e.generation, SaturatingAdd(now, SummaryGraceNs(timers)))]
    else []
  }

  /** The due records of the first n announcements. */
  ghost function ScanDue(entries: seq<Announcement>, n: nat, gens: seq<nat>, since: seq<nat>, v: Seen, now: nat, timers: Timers): seq<Due>
    requires n <= |entries| && InGrid(entries, |v.received|) && BoardOk(Board(gens, since, []), v)
  {
    if n == 0 then []
    else ScanDue(entries, n - 1, gens, since, v, now, timers)
         + DueOf(Scanned(entries, n - 1, gens, since, v, now, timers).gens, entries[n - 1], v.received, now, timers)
  }

  ghost predicate Touched(entries: seq<Announcement>, n: nat, t: int)
    requires n <= |entries|
  {
    exists i :: 0 <= i < n && entries[i].tile == t
  }

  ghost predicate Announces(entries: seq<Announcement>, n: nat, t: int, g: nat)
    requires n <= |entries|
  {
    exists i :: 0 <= i < n && entries[i].tile == t && entries[i].generation == g
  }

  /** A pending generation was pending before or comes from one of the first n announcements. */
  ghost predicate Sourced(entries: seq<Announcement>, n: nat, before: seq<nat>, gens: seq<nat>)
  {
    && n <= |entries| && |before| == |gens|
    && forall t :: 0 <= t < |gens| ==> gens[t] == 0 || gens[t] == before[t] || Announces(entries, n, t, gens[t])
  }

  lemma {:induction false} ScanIsSourced(entries: seq<Announcement>, n: nat, gens: seq<nat>, since: seq<nat>, v: Seen, now: nat, timers: Timers)
    requires n <= |entries| && InGrid(entries, |v.received|) && BoardOk(Board(gens, since, []), v)
    ensures Sourced(entries, n, gens, Scanned(entries, n, gens, since, v, now, timers).gens)
    ensures AllAnnounced(entries, n, Scanned(entries, n, gens, since, v, now, timers).candidates)
  {
    if n != 0 {
      ScanIsSourced(entries, n - 1, gens, since, v, now, timers);
      var s, r := Scanned(entries, n - 1, gens, since, v, now, timers), Scanned(entries, n, gens, since, v, now, timers);
      SourcedStep(entries, n - 1, gens, s.gens, r.gens);
      AnnouncedStep(entries, n - 1, s.candidates, r.candidates);
    }
  }

  /** Each candidate is of one of the first n announcements. */
  ghost predicate AllAnnounced(entries: seq<Announcement>, n: nat, candidates: seq<Candidate>)
  {
    n <= |entries| && forall c :: c in candidates ==> Announces(entries, n, c.tile, c.generation)
  }

  lemma AnnouncedStep(entries: seq<Announcement>, n: nat, candidates: seq<Candidate>, candidates': seq<Candidate>)
    requires n < |entries| && AllAnnounced(entries, n, candidates)
    requires candidates' == candidates
             || exists since :: candidates' == candidates + [Candidate(entries[n].tile, entries[n].generation, since)]
    ensures AllAnnounced(entries, n + 1, candidates')
  {
    forall c | c in candidates' ensures Announces(entries, n + 1, c.tile, c.generation) {
      if c in candidates {
        var i :| 0 <= i < n && entries[i].tile == c.tile && entries[i].generation == c.generation;
      } else {
        assert entries[n].tile == c.tile && entries[n].generation == c.generation;
      }
    }
  }

  lemma SourcedStep(entries: seq<Announcement>, n: nat, before: seq<nat>, gens: seq<nat>, gens': seq<nat>)
    requires n < |entries| && Sourced(entries, n, before, gens) && |gens'| == |gens| && entries[n].tile < |gens|
    requires gens' == gens || gens' == gens[entries[n].tile := 0] || gens' == gens[entries[n].tile := entries[n].generation]
    ensures Sourced(entries, n + 1, before, gens')
  {
    assert Announces(entries, n + 1, entries[n].tile, entries[n].generation);
    forall t | 0 <= t < |gens| && Announces(entries, n, t, gens[t]) ensures Announces(entries, n + 1, t, gens[t]) {
      var i :| 0 <= i < n && entries[i].tile == t && entries[i].generation == gens[t];
    }
  }

  // ----- summaries that list each tile once

  ghost predicate ListsOnce(entries: seq<Announcement>)
  {
    forall i, j :: 0 <= i < j < |entries| ==> entries[i].tile != entries[j].tile
  }

  /** The announcement is of a generation the client lacks, that was pending long enough and is not on the way. */
  ghost predicate Asks(e: Announcement, gens: seq<nat>, since: seq<nat>, v: Seen, now: nat, timers: Timers)
    requires BoardOk(Board(gens, since, []), v) && e.tile < |gens|
  {
    v.received[e.tile] < e.generation <= gens[e.tile] && Ripe(v, since[e.tile], e.tile, e.generation, now, timers)
  }

  function CandidateOf(e: Announcement, since: seq<nat>): Candidate
    requires e.tile < |since|
  {
    Candidate(e.tile, e.generation, since[e.tile])
  }

  /** Whether a tile is listed at all and, if so, what its announcement makes of it. */
  ghost predicate ScannedOnce(entries: seq<Announcement>, n: nat, gens: seq<nat>, since: seq<nat>, v: Seen, now: nat, timers: Timers, r: Board)
    requires n <= |entries| && InGrid(entries, |v.received|) && BoardOk(Board(gens, since, []), v)
  {
    BoardOk(r, v) && RowsOnce(entries, n, gens, since, v, r) && AskedOnce(entries, n, gens, since, v, now, timers, r.candidates)
  }

  ghost predicate RowsOnce(entries: seq<Announcement>, n: nat, gens: seq<nat>, since: seq<nat>, v: Seen, r: Board)
    requires n <= |entries| && InGrid(entries, |v.received|) && BoardOk(Board(gens, since, []), v) && BoardOk(r, v)
  {
    && (forall t :: 0 <= t < |gens| && !Touched(entries, n, t) ==> r.gens[t] == gens[t] && r.since[t] == since[t])
    && (forall i :: 0 <= i < n ==>
          r.gens[entries[i].tile] == if entries[i].generation <= v.received[entries[i].tile] then 0
                                     else Max(gens[entries[i].tile], entries[i].generation))
  }

  ghost predicate AskedOnce(entries: seq<Announcement>, n: nat, gens: seq<nat>, since: seq<nat>, v: Seen, now: nat, timers: Timers,
                            candidates: seq<Candidate>)
    requires n <= |entries| && InGrid(entries, |v.received|) && BoardOk(Board(gens, since, []), v)
  {
    && (forall i :: 0 <= i < n && Asks(entries[i], gens, since, v, now, timers) ==> CandidateOf(entries[i], since) in candidates)
    && (forall c :: c in candidates ==> AskedBy(entries, n, gens, since, v, now, timers, c))
  }

  ghost predicate AskedBy(entries: seq<Announcement>, n: nat, gens: seq<nat>, since: seq<nat>, v: Seen, now: nat, timers: Timers, c: Candidate)
    requires n <= |entries| && InGrid(entries, |v.received|) && BoardOk(Board(gens, since, []), v)
  {
    exists i :: 0 <= i < n && Asks(entries[i], gens, since, v, now, timers) && c == CandidateOf(entries[i], since)
  }

  /** In a summary that lists each tile once every announcement meets the table as it was, so the scan has a closed
      form: exactly the ripe announcements become candidates, and each tile is judged by its one announcement. */
  lemma ScanOnce(entries: seq<Announcement>, n: nat, gens: seq<nat>, since: seq<nat>, v: Seen, now: nat, timers: Timers, r: Board)
    requires n <= |entries| && InGrid(entries, |v.received|) && BoardOk(Board(gens, since, []), v) && ListsOnce(entries)
    requires r == Scanned(entries, n, gens, since, v, now, timers)
    ensures ScannedOnce(entries, n, gens, since, v, now, timers, r)
  {
    var i, s := 0, Board(gens, since, []);
    while i < n
      invariant 0 <= i <= n && s == Scanned(entries, i, gens, since, v, now, timers)
      invariant ScannedOnce(entries, i, gens, since, v, now, timers, s)
    {
      var t := Announced(s, entries[i], v, now, timers);
      ScanOnceStep(entries, i, i + 1, gens, since, v, now, timers, s, t);
      i, s := i + 1, t;
    }
  }

  lemma ScanOnceStep(entries: seq<Announcement>, n: nat, next: nat, gens: seq<nat>, since: seq<nat>, v: Seen, now: nat, timers: Timers,
                     s: Board, r: Board)
    requires n < |entries| && next == n + 1 && InGrid(entries, |v.received|) && BoardOk(Board(gens, since, []), v) && ListsOnce(entries)
    requires ScannedOnce(entries, n, gens, since, v, now, timers, s) && r == Announced(s, entries[n], v, now, timers)
    ensures ScannedOnce(entries, next, gens, since, v, now, timers, r)
  {
    assert !Touched(entries, n, entries[n].tile);
    RowsOnceStep(entries, n, next, gens, since, v, now, timers, s, r);
    AskedOnceStep(entries, n, next, gens, since, v, now, timers, s.candidates, r.candidates);
  }

  lemma RowsOnceStep(entries: seq<Announcement>, n: nat, next: nat, gens: seq<nat>, since: seq<nat>, v: Seen, now: nat, timers: Timers,
                     s: Board, r: Board)
    requires n < |entries| && next == n + 1 && InGrid(entries, |v.received|) && BoardOk(Board(gens, since, []), v) && ListsOnce(entries)
    requires BoardOk(s, v) && RowsOnce(entries, n, gens, since, v, s) && !Touched(entries, n, entries[n].tile)
    requires r == Announced(s, entries[n], v, now, timers)
    ensures RowsOnce(entries, next, gens, since, v, r)
  {
    assert Touched(entries, next, entries[n].tile);
    assert forall t :: 0 <= t < |gens| && Touched(entries, n, t) ==> Touched(entries, next, t);
  }

  lemma AskedOnceStep(entries: seq<Announcement>, n: nat, next: nat, gens: seq<nat>, since: seq<nat>, v: Seen, now: nat, timers: Timers,
                      candidates: seq<Candidate>, candidates': seq<Candidate>)
    requires n < |entries| && next == n + 1 && InGrid(entries, |v.received|) && BoardOk(Board(gens, since, []), v)
    requires AskedOnce(entries, n, gens, since, v, now, timers, candidates)
    requires candidates' == if Asks(entries[n], gens, since, v, now, timers) then candidates + [CandidateOf(entries[n], since)] else candidates
    ensures AskedOnce(entries, next, gens, since, v, now, timers, candidates')
  {
    forall c | c in candidates' ensures AskedBy(entries, next, gens, since, v, now, timers, c) {
      if c in candidates {
        var i :| 0 <= i < n && Asks(entries[i], gens, since, v, now, timers) && c == CandidateOf(entries[i], since);
      }
    }
  }

  // ----- what a summary loses

  /** A generation of a tile is neither pending nor received nor queued, nor is a newer one. */
  ghost predicate Lost(t: int, g: nat, gens: seq<nat>, received: seq<nat>, queued: seq<nat>)
    requires 0 <= t < |gens| == |received| == |queued|
  {
    gens[t] < g && received[t] < g && queued[t] < g
  }

  /** A pending generation is still pending or was raised, has been received, or went to the request queue. */
  ghost predicate HandedOver(before: seq<nat>, gens: seq<nat>, received: seq<nat>, queued: seq<nat>)
  {
    && |before| == |gens| == |received| == |queued|
    && forall t :: 0 <= t < |before| ==> !Lost(t, before[t], gens, received, queued)
  }

  /** Each announced generation is received, pending or queued. */
  ghost predicate Kept(entries: seq<Announcement>, gens: seq<nat>, received: seq<nat>, queued: seq<nat>)
  {
    && |gens| == |received| == |queued|
    && forall i :: 0 <= i < |entries| && entries[i].tile < |gens| ==> !Lost(entries[i].tile, entries[i].generation, gens, received, queued)
  }

  /** From entry i to before n the tile is announced at a generation that is received, and afterwards only below g. */
  ghost predicate ClearedSince(entries: seq<Announcement>, i: nat, n: nat, t: int, g: nat, received: nat)
    requires n <= |entries|
  {
    exists k: nat :: i <= k < n && ClearedAt(entries, k, n, t, g, received)
  }

  ghost predicate ClearedAt(entries: seq<Announcement>, k: nat, n: nat, t: int, g: nat, received: nat)
    requires k < n <= |entries|
  {
    && entries[k].tile == t && entries[k].generation <= received
    && forall m :: k < m < n && entries[m].tile == t ==> entries[m].generation < g
  }

  lemma ClearedNext(entries: seq<Announcement>, i: nat, n: nat, t: int, g: nat, received: nat)
    requires i <= n < |entries| && received < g
    ensures ClearedSince(entries, i, n + 1, t, g, received) <==>
              if entries[n].tile != t then ClearedSince(entries, i, n, t, g, received)
              else entries[n].generation <= received || (entries[n].generation < g && ClearedSince(entries, i, n, t, g, received))
  {
    var next := n + 1;
    if entries[n].tile == t && entries[n].generation <= received { assert ClearedAt(entries, n, next, t, g, received); }
    if ClearedSince(entries, i, n, t, g, received) {
      var k: nat :| i <= k < n && ClearedAt(entries, k, n, t, g, received);
      assert entries[n].tile != t || entries[n].generation < g ==> ClearedAt(entries, k, next, t, g, received);
    }
    if ClearedSince(entries, i, next, t, g, received) {
      var k: nat :| i <= k < next && ClearedAt(entries, k, next, t, g, received);
      assert k < n ==> ClearedAt(entries, k, n, t, g, received);
    }
  }

  /** Whatever generation the tile was pending at, at or above g, before entry i: after entry n it is below g exactly if
      it was cleared in between and not raised again. */
  lemma {:induction false} ScanClears(entries: seq<Announcement>, i: nat, n: nat, gens: seq<nat>, since: seq<nat>, v: Seen, now: nat,
                                      timers: Timers, t: nat, g: nat)
    requires i <= n <= |entries| && InGrid(entries, |v.received|) && BoardOk(Board(gens, since, []), v) && t < |gens|
    requires v.received[t] < g <= Scanned(entries, i, gens, since, v, now, timers).gens[t]
    ensures Scanned(entries, n, gens, since, v, now, timers).gens[t] < g <==> ClearedSince(entries, i, n, t, g, v.received[t])
  {
    if i < n {
      ScanClears(entries, i, n - 1, gens, since, v, now, timers, t, g);
      ClearedNext(entries, i, n - 1, t, g, v.received[t]);
      var s := Scanned(entries, n - 1, gens, since, v, now, timers);
      assert Scanned(entries, n, gens, since, v, now, timers) == Announced(s, entries[n - 1], v, now, timers);
    }
  }

  /** An announcement makes the tile pending at its generation or above, unless that is received. */
  lemma AnnouncementRaises(entries: seq<Announcement>, i: nat, gens: seq<nat>, since: seq<nat>, v: Seen, now: nat, timers: Timers)
    requires i < |entries| && InGrid(entries, |v.received|) && BoardOk(Board(gens, since, []), v)
    requires v.received[entries[i].tile] < entries[i].generation
    ensures Scanned(entries, i + 1, gens, since, v, now, timers).gens[entries[i].tile] >= entries[i].generation
  {
    var s := Scanned(entries, i, gens, since, v, now, timers);
    assert Scanned(entries, i + 1, gens, since, v, now, timers) == Announced(s, entries[i], v, now, timers);
  }

  /** A generation that the tile was pending at before entry i of the summary is neither received nor queued nor asked
      for, and is taken off: the tile is asked for at older ones only, or it was cleared and not raised again. */
  ghost predicate Forgotten(entries: seq<Announcement>, i: nat, t: int, g: nat, received: seq<nat>, queued: seq<nat>, asked: seq<Candidate>)
    requires 0 <= t < |received| == |queued|
  {
    && received[t] < g && queued[t] < g && (forall k :: 0 <= k < |asked| && asked[k].tile == t ==> asked[k].generation < g)
    && (Lists(asked, |asked|, t) || ClearedSince(entries, i, |entries|, t, g, received[t]))
  }

  lemma LosesExactly(entries: seq<Announcement>, i: nat, gens: seq<nat>, since: seq<nat>, v: Seen, now: nat, timers: Timers,
                     asked: seq<Candidate>, gens': seq<nat>, queued: seq<nat>, queued': seq<nat>, t: nat, g: nat)
    requires i <= |entries| && InGrid(entries, |v.received|) && BoardOk(Board(gens, since, []), v) && |queued| == |gens| && t < |gens|
    requires v.received[t] < g ==> g <= Scanned(entries, i, gens, since, v, now, timers).gens[t]
    requires TakenOff(asked, |asked|, Scanned(entries, |entries|, gens, since, v, now, timers).gens, gens')
    requires QueuedBy(asked, |asked|, queued, queued')
    ensures Lost(t, g, gens', v.received, queued') <==> Forgotten(entries, i, t, g, v.received, queued, asked)
  {
    MaxAskedIsMax(asked, |asked|, t);
    if v.received[t] < g {
      ScanClears(entries, i, |entries|, gens, since, v, now, timers, t, g);
    }
  }

  /** What a summary loses, whatever it lists: a pending generation, or one that it announces, exactly if it is forgotten. */
  lemma SummaryLosesExactly(entries: seq<Announcement>, gens: seq<nat>, since: seq<nat>, v: Seen, now: nat, timers: Timers,
                            asked: seq<Candidate>, gens': seq<nat>, queued: seq<nat>, queued': seq<nat>)
    requires InGrid(entries, |v.received|) && BoardOk(Board(gens, since, []), v) && |queued| == |gens|
    requires TakenOff(asked, |asked|, Scanned(entries, |entries|, gens, since, v, now, timers).gens, gens')
    requires QueuedBy(asked, |asked|, queued, queued')
    ensures LostPending(entries, gens, gens', v.received, queued, queued', asked)
    ensures LostAnnounced(entries, gens', v.received, queued, queued', asked)
  {
    forall t: nat | t < |gens|
      ensures Lost(t, gens[t], gens', v.received, queued') <==> Forgotten(entries, 0, t, gens[t], v.received, queued, asked)
    {
      LosesExactly(entries, 0, gens, since, v, now, timers, asked, gens', queued, queued', t, gens[t]);
    }
    forall i: nat | i < |entries| ensures LostEntry(entries, i, gens', v.received, queued, queued', asked) {
      var t, g := entries[i].tile, entries[i].generation;
      if v.received[t] < g { AnnouncementRaises(entries, i, gens, since, v, now, timers); }
      LosesExactly(entries, i + 1, gens, since, v, now, timers, asked, gens', queued, queued', t, g);
    }
  }

  ghost predicate LostPending(entries: seq<Announcement>, gens: seq<nat>, gens': seq<nat>, received: seq<nat>, queued: seq<nat>,
                              queued': seq<nat>, asked: seq<Candidate>)
  {
    && |gens| == |gens'| == |received| == |queued| == |queued'|
    && forall t :: 0 <= t < |gens| ==>
         (Lost(t, gens[t], gens', received, queued') <==> Forgotten(entries, 0, t, gens[t], received, queued, asked))
  }

  ghost predicate LostAnnounced(entries: seq<Announcement>, gens': seq<nat>, received: seq<nat>, queued: seq<nat>, queued': seq<nat>,
                                asked: seq<Candidate>)
  {
    && |gens'| == |received| == |queued| == |queued'| && InGrid(entries, |gens'|)
    && forall i: nat :: i < |entries| ==> LostEntry(entries, i, gens', received, queued, queued', asked)
  }

  ghost predicate LostEntry(entries: seq<Announcement>, i: nat, gens': seq<nat>, received: seq<nat>, queued: seq<nat>, queued': seq<nat>,
                            asked: seq<Candidate>)
    requires i < |entries| && entries[i].tile < |gens'| == |received| == |queued| == |queued'|
  {
    Lost(entries[i].tile, entries[i].generation, gens', received, queued') <==>
      Forgotten(entries, i + 1, entries[i].tile, entries[i].generation, received, queued, asked)
  }

  /** A summary that lists each tile once keeps every generation it announces. */
  lemma OnceKeeps(entries: seq<Announcement>, gens': seq<nat>, received: seq<nat>, queued: seq<nat>, queued': seq<nat>, asked: seq<Candidate>)
    requires LostAnnounced(entries, gens', received, queued, queued', asked) && ListsOnce(entries)
    requires AllAnnounced(entries, |entries|, asked)
    ensures Kept(entries, gens', received, queued')
  {
    forall i: nat | i < |entries| ensures !Lost(entries[i].tile, entries[i].generation, gens', received, queued') {
      assert LostEntry(entries, i, gens', received, queued, queued', asked);
      forall k | 0 <= k < |asked| && asked[k].tile == entries[i].tile ensures asked[k].generation == entries[i].generation {
        assert asked[k] in asked;
      }
    }
  }

  /** A well-formed summary: each tile once, and no announced generation goes backwards. */
  ghost predicate Forward(entries: seq<Announcement>, gens: seq<nat>)
  {
    && ListsOnce(entries) && InGrid(entries, |gens|)
    && (forall i :: 0 <= i < |entries| ==> gens[entries[i].tile] <= entries[i].generation)
  }

  /** A summary that does not go backwards keeps everything pending. */
  lemma ForwardKeeps(entries: seq<Announcement>, gens: seq<nat>, gens': seq<nat>, received: seq<nat>, queued: seq<nat>, queued': seq<nat>,
                     asked: seq<Candidate>)
    requires LostPending(entries, gens, gens', received, queued, queued', asked) && Forward(entries, gens)
    requires AllAnnounced(entries, |entries|, asked)
    ensures HandedOver(gens, gens', received, queued')
  {
    forall t | 0 <= t < |gens| ensures !Forgotten(entries, 0, t, gens[t], received, queued, asked) {
      forall k | 0 <= k < |asked| && asked[k].tile == t ensures asked[k].generation >= gens[t] {
        assert asked[k] in asked;
      }
    }
  }

  // ----- overdue records

  /** The time until which a due announcement must wait: its in-flight grace and request interval are over then. */
  function RetryNs(v: Seen, t: nat, g: nat, timers: Timers): nat
    requires v.Sized(|v.received|) && t < |v.received|
  {
    var inflight := if v.inflightGen[t] >= g && v.inflightSince[t] != 0
                    then SaturatingAdd(v.inflightSince[t], InflightGraceNs(timers)) else 0;
    var requested := if v.requestedGen[t] >= g && v.requestedAt[t] != 0
                     then SaturatingAdd(v.requestedAt[t], RequestIntervalNs(timers)) else 0;
    Max(inflight, requested)
  }

  /** The wait is over exactly when nothing of the generation is on the way, as long as no stored time is ahead. */
  lemma RetryWhenIdle(v: Seen, t: nat, g: nat, now: nat, timers: Timers)
    requires v.Sized(|v.received|) && t < |v.received| && v.inflightSince[t] <= now && v.requestedAt[t] <= now < U64_MAX
    ensures RetryNs(v, t, g, timers) <= now <==> !Busy(v, t, g, now, timers)
  {}

  /** Once the wait is over, nothing of that generation or a newer one is on the way. */
  lemma IdleAfterRetry(v: Seen, t: nat, g: nat, newer: nat, now: nat, timers: Timers)
    requires v.Sized(|v.received|) && t < |v.received| && now < U64_MAX && g <= newer && RetryNs(v, t, g, timers) <= now
    ensures !Busy(v, t, newer, now, timers)
  {}

  /** A record that is still of the pending generation of its tile. */
  ghost predicate Live(d: Due, gens: seq<nat>, since: seq<nat>)
    requires |gens| == |since|
  {
    d.tile < |gens| && gens[d.tile] == d.generation && since[d.tile] != 0
  }

  /** A live record of a generation that is neither received nor to be waited for. */
  ghost predicate Matures(d: Due, gens: seq<nat>, since: seq<nat>, v: Seen, now: nat, timers: Timers)
    requires BoardOk(Board(gens, since, []), v)
  {
    Live(d, gens, since) && v.received[d.tile] < d.generation && RetryNs(v, d.tile, d.generation, timers) <= now
  }

  /** A live record of a generation that is not received, but to be waited for. */
  ghost predicate Waits(d: Due, gens: seq<nat>, since: seq<nat>, v: Seen, now: nat, timers: Timers)
    requires BoardOk(Board(gens, since, []), v)
  {
    Live(d, gens, since) && v.received[d.tile] < d.generation && RetryNs(v, d.tile, d.generation, timers) > now
  }

  /** What is put back of a record: nothing, or a record for when its wait is over. */
  ghost function Again(d: Due, gens: seq<nat>, since: seq<nat>, v: Seen, now: nat, timers: Timers): (r: seq<Due>)
    requires BoardOk(Board(gens, since, []), v)
    ensures r == [] || (|r| == 1 && r[0].dueNs > now)
  {
    if Waits(d, gens, since, v, now, timers) then [Due(d.tile, d.generation, RetryNs(v, d.tile, d.generation, timers))] else []
  }

  /** What is put back of the first n records, in order. */
  ghost function Deferred(due: seq<Due>, n: nat, gens: seq<nat>, since: seq<nat>, v: Seen, now: nat, timers: Timers): (r: seq<Due>)
    requires n <= |due| && BoardOk(Board(gens, since, []), v)
    ensures AllLater(r, now)
  {
    if n == 0 then [] else
      Deferred(due, n - 1, gens, since, v, now, timers) + Again(due[n - 1], gens, since, v, now, timers)
  }

  lemma DeferredNext(due: seq<Due>, n: nat, gens: seq<nat>, since: seq<nat>, v: Seen, now: nat, timers: Timers, left: seq<Due>, back: seq<Due>)
    requires n < |due| && BoardOk(Board(gens, since, []), v) && back == Deferred(due, n, gens, since, v, now, timers)
    requires left != [] && left[1..] == due[n + 1..] + back
    ensures left[1..] + Again(due[n], gens, since, v, now, timers) == due[n + 1..] + Deferred(due, n + 1, gens, since, v, now, timers)
  {
    Assoc(due[n + 1..], back, Again(due[n], gens, since, v, now, timers));
  }

  /** Due records of candidates that are put back. */
  ghost function Records(later: seq<Candidate>, dueNs: nat): (r: seq<Due>)
    ensures |r| == |later|
  {
    seq(|later|, i requires 0 <= i < |later| => Due(later[i].tile, later[i].generation, dueNs))
  }

  lemma RecordsLater(later: seq<Candidate>, dueNs: nat, now: nat)
    requires now < dueNs
    ensures AllLater(Records(later, dueNs), now)
  {}

  lemma Assoc(a: seq<Due>, b: seq<Due>, c: seq<Due>)
    ensures a + b + c == a + (b + c)
  {}

  lemma RecordsNext(later: seq<Candidate>, n: nat, dueNs: nat)
    requires n < |later|
    ensures Records(later[..n + 1], dueNs) == Records(later[..n], dueNs) + [Due(later[n].tile, later[n].generation, dueNs)]
  {}

  /** How many records at the head of the due queue are due. */
  ghost function Reached(due: seq<Due>, now: nat): (m: nat)
    ensures m <= |due| && (m < |due| ==> now < due[m].dueNs)
    ensures forall k :: 0 <= k < m ==> due[k].dueNs <= now
  {
    ReachedFrom(due, 0, now)
  }

  ghost function ReachedFrom(due: seq<Due>, i: nat, now: nat): (m: nat)
    requires i <= |due|
    ensures i <= m <= |due| && (m < |due| ==> now < due[m].dueNs)
    ensures forall k :: i <= k < m ==> due[k].dueNs <= now
    decreases |due| - i
  {
    if i == |due| || due[i].dueNs > now then i else ReachedFrom(due, i + 1, now)
  }

  /** A record is reached exactly if it and all records before it are due. */
  lemma {:induction false} ReachedExactly(due: seq<Due>, now: nat, k: nat)
    requires k < |due|
    ensures k < Reached(due, now) <==> forall j :: 0 <= j <= k ==> due[j].dueNs <= now
  {
    var m := Reached(due, now);
    if m <= k { assert due[m].dueNs > now; }
  }

  lemma NothingReached(due: seq<Due>, back: seq<Due>, now: nat)
    requires AllLater(back, now)
    ensures Reached(due[Reached(due, now)..] + back, now) == 0
  {
    var m := Reached(due, now);
    var left := due[m..] + back;
    if m < |due| {
      assert left[0] == due[m];
    } else if back != [] {
      assert left == back && back[0] in back;
    }
  }

  ghost predicate AllLater(back: seq<Due>, now: nat)
  {
    forall d :: d in back ==> d.dueNs > now
  }

  /** While records that were put back lie in the future, a record that is due is one of those first reached. */
  lemma NextReached(due: seq<Due>, n: nat, back: seq<Due>, left: seq<Due>, now: nat)
    requires n <= Reached(due, now) && left == due[n..] + back && left != [] && left[0].dueNs <= now && AllLater(back, now)
    ensures n < Reached(due, now) && left[0] == due[n] && left[1..] == due[n + 1..] + back
  {
    assert n == |due| ==> left == back;
    assert back != [] ==> back[0] in back;
  }

  lemma AllReached(due: seq<Due>, n: nat, back: seq<Due>, left: seq<Due>, now: nat)
    requires n <= Reached(due, now) && left == due[n..] + back && (left == [] || left[0].dueNs > now)
    ensures n == Reached(due, now)
  {
    assert n < |due| ==> left[0] == due[n];
  }

  /** The candidates among the first n records, in order. */
  ghost function Matured(due: seq<Due>, n: nat, gens: seq<nat>, since: seq<nat>, v: Seen, now: nat, timers: Timers): (r: seq<Candidate>)
    requires n <= |due| && BoardOk(Board(gens, since, []), v)
    ensures forall c :: c in r ==> c.tile < |gens| && v.received[c.tile] < c.generation == gens[c.tile]
  {
    if n == 0 then []
    else if Matures(due[n - 1], gens, since, v, now, timers)
    then Matured(due, n - 1, gens, since, v, now, timers) + [Candidate(due[n - 1].tile, due[n - 1].generation, since[due[n - 1].tile])]
    else Matured(due, n - 1, gens, since, v, now, timers)
  }

  lemma {:induction false} NothingMatured(due: seq<Due>, n: nat, gens: seq<nat>, since: seq<nat>, v: Seen, now: nat, timers: Timers)
    requires n <= |due| && BoardOk(Board(gens, since, []), v) && forall t :: 0 <= t < |gens| ==> gens[t] == 0
    ensures Matured(due, n, gens, since, v, now, timers) == []
  {
    if n != 0 { NothingMatured(due, n - 1, gens, since, v, now, timers); }
  }

  lemma {:induction false} MaturedAll(due: seq<Due>, n: nat, gens: seq<nat>, since: seq<nat>, v: Seen, now: nat, timers: Timers, k: nat)
    requires n <= |due| && BoardOk(Board(gens, since, []), v) && k < n && Matures(due[k], gens, since, v, now, timers)
    ensures Candidate(due[k].tile, due[k].generation, since[due[k].tile]) in Matured(due, n, gens, since, v, now, timers)
  {
    if k < n - 1 { MaturedAll(due, n - 1, gens, since, v, now, timers, k); }
  }

  lemma {:induction false} MaturedOnly(due: seq<Due>, n: nat, gens: seq<nat>, since: seq<nat>, v: Seen, now: nat, timers: Timers, c: Candidate)
    returns (k: nat)
    requires n <= |due| && BoardOk(Board(gens, since, []), v) && c in Matured(due, n, gens, since, v, now, timers)
    ensures k < n && Matures(due[k], gens, since, v, now, timers) && due[k].tile == c.tile
  {
    k := n - 1;
    if c in Matured(due, n - 1, gens, since, v, now, timers) {
      k := MaturedOnly(due, n - 1, gens, since, v, now, timers, c);
    }
  }

  /** One of the first n records is of the pending generation of a tile, and that has been received. */
  ghost predicate Satisfied(due: seq<Due>, n: nat, gens: seq<nat>, received: seq<nat>, t: int)
    requires n <= |due| && 0 <= t < |gens| == |received|
  {
    0 < gens[t] <= received[t] && HasDue(due[..n], t, gens[t])
  }

  /** A column of the pending table after its satisfied rows were cleared. */
  ghost function Relieved(due: seq<Due>, n: nat, gens: seq<nat>, received: seq<nat>, column: seq<nat>): (r: seq<nat>)
    requires n <= |due| && |gens| == |received| == |column|
    ensures |r| == |column| && forall t :: 0 <= t < |r| ==> r[t] == if Satisfied(due, n, gens, received, t) then 0 else column[t]
  {
    seq(|column|, t requires 0 <= t < |column| => if Satisfied(due, n, gens, received, t) then 0 else column[t])
  }

  lemma HasDueStep(due: seq<Due>, n: nat, t: nat, g: nat)
    requires n < |due|
    ensures HasDue(due[..n + 1], t, g) <==> HasDue(due[..n], t, g) || (due[n].tile == t && due[n].generation == g)
  {
    var more := due[..n + 1];
    if HasDue(due[..n], t, g) {
      var k :| 0 <= k < n && due[..n][k].tile == t && due[..n][k].generation == g;
      assert more[k] == due[..n][k];
    }
    if due[n].tile == t && due[n].generation == g { assert more[n] == due[n]; }
    if HasDue(more, t, g) && !(due[n].tile == t && due[n].generation == g) {
      var k :| 0 <= k < n + 1 && more[k].tile == t && more[k].generation == g;
      assert due[..n][k] == more[k];
    }
  }

  /** The next record meets the table as it was at the start, except for rows cleared because they were received. */
  lemma CollectStep(due: seq<Due>, n: nat, gens: seq<nat>, since: seq<nat>, v: Seen, now: nat, timers: Timers)
    requires n < |due| && BoardOk(Board(gens, since, []), v) && forall t :: 0 <= t < |gens| ==> (gens[t] != 0 <==> since[t] != 0)
    ensures var gens', since', d := Relieved(due, n, gens, v.received, gens), Relieved(due, n, gens, v.received, since), due[n];
            && (Live(d, gens', since') ==> gens[d.tile] == d.generation && since'[d.tile] == since[d.tile])
            && (Matures(d, gens', since', v, now, timers) <==> Matures(d, gens, since, v, now, timers))
            && (Waits(d, gens', since', v, now, timers) <==> Waits(d, gens, since, v, now, timers))
            && (if Live(d, gens', since') && v.received[d.tile] >= d.generation
                then Relieved(due, n + 1, gens, v.received, gens) == gens'[d.tile := 0]
                     && Relieved(due, n + 1, gens, v.received, since) == since'[d.tile := 0]
                else Relieved(due, n + 1, gens, v.received, gens) == gens'
                     && Relieved(due, n + 1, gens, v.received, since) == since')
  {
    forall t | 0 <= t < |gens|
      ensures Satisfied(due, n + 1, gens, v.received, t) <==>
                Satisfied(due, n, gens, v.received, t)
                || (0 < gens[t] <= v.received[t] && due[n].tile == t && due[n].generation == gens[t])
    {
      HasDueStep(due, n, t, gens[t]);
    }
  }

  lemma NothingRelieved(due: seq<Due>, gens: seq<nat>, received: seq<nat>, column: seq<nat>)
    requires |gens| == |received| == |column|
    ensures Relieved(due, 0, gens, received, column) == column
  {}

  /** Queueing candidates of matured records loses nothing pending. */
  lemma PromotionHandsOver(due: seq<Due>, n: nat, gens: seq<nat>, since: seq<nat>, v: Seen, now: nat, timers: Timers,
                           chosen: seq<Candidate>, gens': seq<nat>, queued: seq<nat>, queued': seq<nat>)
    requires n <= |due| && BoardOk(Board(gens, since, []), v) && |queued| == |gens|
    requires forall c :: c in chosen ==> c in Matured(due, n, gens, since, v, now, timers)
    requires TakenOff(chosen, |chosen|, Relieved(due, n, gens, v.received, gens), gens') && QueuedBy(chosen, |chosen|, queued, queued')
    ensures HandedOver(gens, gens', v.received, queued')
    ensures forall t :: 0 <= t < |gens| ==> gens'[t] == gens[t] || gens'[t] == 0
  {
    forall t | 0 <= t < |gens| && Lists(chosen, |chosen|, t) ensures queued'[t] >= gens[t] {
      var k :| 0 <= k < |chosen| && chosen[k].tile == t;
      assert chosen[k] in Matured(due, n, gens, since, v, now, timers);
      MaxAskedIsMax(chosen, |chosen|, t);
    }
  }

  // ----- the number of pending tiles

  ghost function PendingTiles(gens: seq<nat>): set<int> { set t | 0 <= t < |gens| && gens[t] != 0 }

  ghost function PendingCount(gens: seq<nat>): nat { |PendingTiles(gens)| }

  lemma {:induction false} DistinctSet(tiles: seq<nat>) returns (s: set<int>)
    requires forall i, j :: 0 <= i < j < |tiles| ==> tiles[i] != tiles[j]
    ensures |s| == |tiles| && forall t :: t in s <==> t in tiles
  {
    s := {};
    if tiles != [] {
      var n := |tiles| - 1;
      s := DistinctSet(tiles[..n]);
      assert forall i :: 0 <= i < n ==> tiles[..n][i] == tiles[i];
      assert tiles == tiles[..n] + [tiles[n]];
      s := s + {tiles[n] as int};
    }
  }

  /** The dense index counts the pending tiles. */
  lemma IndexCounts(total: nat, tiles: seq<nat>, positions: seq<nat>, gens: seq<nat>, since: seq<nat>)
    requires IndexInv(total, tiles, positions) && PendingInv(total, gens, since, positions)
    ensures |tiles| == PendingCount(gens)
  {
    var s := DistinctSet(tiles);
    DistinctBelow(tiles, total);
    forall t ensures t in s <==> t in PendingTiles(gens) {
      if t in s {
        var i :| 0 <= i < |tiles| && tiles[i] == t;
        assert positions[tiles[i]] == i;
      }
    }
    assert s == PendingTiles(gens);
  }
}
