/** The client's tile repair scheduler (src/client/client_net.cpp): summaries from the server, promotion of
    overdue announcements and completion of tiles, over the two repair tables. */
module RepairScheduler {
  import opened RepairLog
  import opened RepairPlan
  import opened RepairTables
  import opened Sorting
  import opened Wrappers

  // ----- announcements and their promotion to repairs

  ghost predicate HasCandidate(candidates: seq<Candidate>, t: nat, g: nat)
  {
    exists k :: 0 <= k < |candidates| && candidates[k].tile == t && candidates[k].generation == g
  }

  /** Every pending generation has a due record, or is one of the candidates in hand. */
  ghost predicate DueOrCandidate(gens: seq<nat>, due: seq<Due>, candidates: seq<Candidate>)
  {
    forall t :: 0 <= t < |gens| && gens[t] != 0 ==> HasDue(due, t, gens[t]) || HasCandidate(candidates, t, gens[t])
  }

  ghost predicate Grown(before: seq<nat>, now: seq<nat>)
  {
    |before| == |now| && forall t :: 0 <= t < |before| ==> before[t] <= now[t]
  }

  /** The first n listed tiles were raised to the generation, and no other tile changed. */
  ghost predicate Raised(tiles: seq<int>, n: nat, generation: nat, before: seq<nat>, received: seq<nat>)
  {
    && n <= |tiles| && |before| == |received|
    && forall t :: 0 <= t < |before| ==> received[t] == if t in tiles[..n] then Max(before[t], generation) else before[t]
  }

  lemma RaisedStep(tiles: seq<int>, n: nat, generation: nat, before: seq<nat>, received: seq<nat>)
    requires n < |tiles| && Raised(tiles, n, generation, before, received) && 0 <= tiles[n] < |before|
    ensures Raised(tiles, n + 1, generation, before, received[tiles[n] := Max(received[tiles[n]], generation)])
  {
    assert tiles[..n + 1] == tiles[..n] + [tiles[n]];
  }

  /** Entries of the first n listed tiles were dropped where received, and no other entry changed. */
  ghost predicate Dropped(tiles: seq<int>, n: nat, before: seq<nat>, after: seq<nat>, received: seq<nat>)
  {
    && n <= |tiles| && |before| == |after| == |received|
    && forall t :: 0 <= t < |before| ==> after[t] == if t in tiles[..n] && before[t] <= received[t] then 0 else before[t]
  }

  lemma DroppedStep(tiles: seq<int>, n: nat, generation: nat, start: seq<nat>, before: seq<nat>, after: seq<nat>, received: seq<nat>)
    requires n < |tiles| && 0 <= tiles[n] < |before| && Raised(tiles, n, generation, start, received)
    requires Dropped(tiles, n, before, after, received)
    ensures var t := tiles[n]; var received' := received[t := Max(received[t], generation)];
            Dropped(tiles, n + 1, before, if after[t] <= received'[t] then after[t := 0] else after, received')
  {
    assert tiles[..n + 1] == tiles[..n] + [tiles[n]];
  }

  lemma TakenOffDue(candidates: seq<Candidate>, before: seq<nat>, gens: seq<nat>, due: seq<Due>)
    requires TakenOff(candidates, |candidates|, before, gens) && DueOrCandidate(before, due, candidates)
    ensures DueInv(gens, due)
  {
    forall t | 0 <= t < |gens| && gens[t] != 0 ensures HasDue(due, t, gens[t]) {
      assert !Lists(candidates, |candidates|, t);
      assert !HasCandidate(candidates, t, before[t]);
    }
  }

  class Scheduler {
    const pending: PendingTable
    const requests: RequestTable
    var largeNotBefore: nat

    ghost predicate Valid()
      reads this, pending, requests
    {
      pending.Valid() && requests.Valid() && pending.total == requests.total
    }

    constructor (size: nat)
      requires size <= 0xFFFF
      ensures Valid() && fresh(pending) && fresh(requests) && requests.total == size
      ensures requests.log == [] && requests.clock == 0 && pending.gens == seq(size, _ => 0) && pending.due == [] && largeNotBefore == 0
      ensures var zeros := seq(size, _ => 0); requests.queuedGen == zeros && requests.View() == Seen(zeros, zeros, zeros, zeros, zeros)
    {
      pending := new PendingTable(size);
      requests := new RequestTable(size);
      largeNotBefore := 0;
    }

    /** mark_completed_base_generations for one base tile. */
    method CompleteOne(tile: nat, generation: nat)
      requires Valid() && tile < requests.total
      modifies pending, requests
      ensures Valid() && requests.log == old(requests.log) && requests.clock == old(requests.clock)
      ensures requests.received == old(requests.received)[tile := Max(old(requests.received[tile]), generation)]
      ensures requests.queuedGen == if old(requests.queuedGen[tile]) <= requests.received[tile]
                                    then old(requests.queuedGen)[tile := 0] else old(requests.queuedGen)
      ensures pending.gens == if old(pending.gens[tile]) <= requests.received[tile]
                              then old(pending.gens)[tile := 0] else old(pending.gens)
    {
      requests.Receive(tile, generation);
      if pending.gens[tile] != 0 && pending.gens[tile] <= requests.received[tile] {
        pending.Clear(tile);
      }
    }

    /** mark_completed_base_generations: a completed tile satisfies the base tiles it covers and nothing else. */
    method Complete(tiles: seq<int>, generation: nat)
      requires Valid() && forall k :: 0 <= k < |tiles| ==> 0 <= tiles[k] < requests.total
      modifies pending, requests
      ensures Valid() && requests.log == old(requests.log) && requests.clock == old(requests.clock)
      ensures Raised(tiles, |tiles|, generation, old(requests.received), requests.received)
      ensures Dropped(tiles, |tiles|, old(requests.queuedGen), requests.queuedGen, requests.received)
      ensures Dropped(tiles, |tiles|, old(pending.gens), pending.gens, requests.received)
    {
      for n := 0 to |tiles|
        invariant Valid() && requests.log == old(requests.log) && requests.clock == old(requests.clock)
        invariant Raised(tiles, n, generation, old(requests.received), requests.received)
        invariant Dropped(tiles, n, old(requests.queuedGen), requests.queuedGen, requests.received)
        invariant Dropped(tiles, n, old(pending.gens), pending.gens, requests.received)
      {
        DroppedStep(tiles, n, generation, old(requests.received), old(requests.queuedGen), requests.queuedGen, requests.received);
        DroppedStep(tiles, n, generation, old(requests.received), old(pending.gens), pending.gens, requests.received);
        RaisedStep(tiles, n, generation, old(requests.received), requests.received);
        CompleteOne(tiles[n], generation);
      }
    }

    /** Hand candidates to the request queue and take them off the pending table. */
    method QueueCandidates(candidates: seq<Candidate>)
      requires pending.Indexed() && requests.Valid() && pending.total == requests.total
      requires forall k :: 0 <= k < |candidates| ==> candidates[k].tile < pending.total
      requires DueOrCandidate(pending.gens, pending.due, candidates)
      modifies pending, requests`queue, requests`queuedGen
      ensures Valid()
      ensures QueuedBy(candidates, |candidates|, old(requests.queuedGen), requests.queuedGen)
      ensures TakenOff(candidates, |candidates|, old(pending.gens), pending.gens)
      ensures TakenOff(candidates, |candidates|, old(pending.since), pending.since)
      ensures pending.due == old(pending.due)
    {
      for n := 0 to |candidates|
        invariant pending.Indexed() && requests.Valid() && pending.due == old(pending.due)
        invariant QueuedBy(candidates, n, old(requests.queuedGen), requests.queuedGen)
        invariant TakenOff(candidates, n, old(pending.gens), pending.gens)
        invariant TakenOff(candidates, n, old(pending.since), pending.since)
      {
        TakenOffStep(candidates, n, old(pending.gens), pending.gens);
        TakenOffStep(candidates, n, old(pending.since), pending.since);
        requests.Queue(candidates[n].tile, candidates[n].generation);
        pending.Clear(candidates[n].tile);
      }
      TakenOffDue(candidates, old(pending.gens), pending.gens, pending.due);
    }

    // ----- throttling

    /** Under pressure keep only the oldest candidates; the others stay pending. */
    method LimitCandidates(candidates: seq<Candidate>) returns (kept: seq<Candidate>, dropped: seq<Candidate>)
      ensures kept == Limited(candidates, Pressure(requests.total, |requests.queue|, pending.count))
      ensures dropped == Overflow(candidates, Pressure(requests.total, |requests.queue|, pending.count))
      ensures multiset(candidates) == multiset(kept) + multiset(dropped)
      ensures forall i, j :: 0 <= i < |kept| && 0 <= j < |dropped| ==> OlderFirst(kept[i], dropped[j])
    {
      if !Pressure(requests.total, |requests.queue|, pending.count) || |candidates| <= PRESSURE_MAX_TILES {
        return candidates, [];
      }
      var sorted := Sort(candidates, OlderFirst);
      SortSorts(candidates, OlderFirst);
      SortKeepsMembers(candidates, OlderFirst);
      kept, dropped := sorted[..PRESSURE_MAX_TILES], sorted[PRESSURE_MAX_TILES..];
      assert sorted == kept + dropped;
    }

    /** A batch covering a quarter of the grid waits for its grace and the cool-down, unless loss is certain. */
    method LargeBatchBlocked(count: nat, minAge: nat, now: nat, timers: Timers) returns (blocked: bool)
      modifies this`largeNotBefore
      ensures blocked <==> LargeBatch(requests.total, count, now, timers) && TooSoon(minAge, old(largeNotBefore), now, timers)
      ensures largeNotBefore == if LargeBatch(requests.total, count, now, timers) && !blocked
                                then now + Max(LARGE_REPAIR_COOLDOWN_NS, CleanIntervalNs(timers)) else old(largeNotBefore)
    {
      if requests.total == 0 || count == 0 || count * 100 < requests.total * LARGE_REPAIR_PERCENT {
        return false;
      }
      if timers.lossSignalUntil != 0 && now < timers.lossSignalUntil {
        return false;
      }
      if minAge < LargeRepairGraceNs(timers) || (largeNotBefore != 0 && now < largeNotBefore) {
        return true;
      }
      largeNotBefore := now + Max(LARGE_REPAIR_COOLDOWN_NS, CleanIntervalNs(timers));
      return false;
    }

    // ----- a summary from the server

    /** One announcement: satisfied, newly pending, still waiting, or ripe for repair. */
    method Announce(e: Announcement, now: nat, timers: Timers, ghost candidates: seq<Candidate>) returns (candidate: Option<Candidate>)
      requires Valid() && e.tile < requests.total && 0 < now
      modifies pending
      ensures Valid()
      ensures Board(pending.gens, pending.since, if candidate.Some? then candidates + [candidate.value] else candidates)
              == Announced(Board(old(pending.gens), old(pending.since), candidates), e, requests.View(), now, timers)
      ensures pending.due == old(pending.due) + DueOf(old(pending.gens), e, requests.received, now, timers)
    {
      var t, g := e.tile, e.generation;
      if g <= requests.received[t] {
        pending.Clear(t);
        return None;
      }
      if pending.gens[t] < g {
        // in flight, recently requested or seen for the first time: wait for it
        pending.Set(t, g, now, SummaryGraceNs(timers));
        return None;
      }
      if requests.StillInflight(t, g, now, timers) || requests.RecentlyRequested(t, g, now, timers) {
        return None;
      }
      var since := pending.since[t];
      if since != 0 && Elapsed(now, since) < SummaryGraceNs(timers) {
        return None;
      }
      return Some(Candidate(t, g, since));
    }

    method CheckGrid(entries: seq<Announcement>) returns (ok: bool)
      ensures ok <==> InGrid(entries, requests.total)
    {
      for n := 0 to |entries|
        invariant forall i :: 0 <= i < n ==> entries[i].tile < requests.total
      {
        if entries[n].tile >= requests.total { return false; }
      }
      return true;
    }

    /** Scan a summary into the pending table and collect what is ripe for repair. */
    method Scan(entries: seq<Announcement>, now: nat, timers: Timers) returns (candidates: seq<Candidate>, minAge: nat)
      requires Valid() && 0 < now && InGrid(entries, requests.total)
      modifies pending
      ensures Valid() && minAge == MinAge(candidates, now)
      ensures Board(pending.gens, pending.since, candidates)
              == Scanned(entries, |entries|, old(pending.gens), old(pending.since), requests.View(), now, timers)
      ensures pending.due == old(pending.due) + ScanDue(entries, |entries|, old(pending.gens), old(pending.since), requests.View(), now, timers)
    {
      candidates, minAge := [], U64_MAX;
      for n := 0 to |entries|
        invariant Valid() && minAge == MinAge(candidates, now)
        invariant Board(pending.gens, pending.since, candidates)
                  == Scanned(entries, n, old(pending.gens), old(pending.since), requests.View(), now, timers)
        invariant pending.due == old(pending.due) + ScanDue(entries, n, old(pending.gens), old(pending.since), requests.View(), now, timers)
      {
        candidates, minAge := ScanNext(entries[n], candidates, minAge, now, timers);
        ScannedNext(entries, n, old(pending.gens), old(pending.since), requests.View(), now, timers,
                    Board(pending.gens, pending.since, candidates));
      }
    }

    method ScanNext(e: Announcement, candidates: seq<Candidate>, minAge: nat, now: nat, timers: Timers)
      returns (candidates': seq<Candidate>, minAge': nat)
      requires Valid() && e.tile < requests.total && 0 < now && minAge == MinAge(candidates, now)
      modifies pending
      ensures Valid() && minAge' == MinAge(candidates', now)
      ensures Board(pending.gens, pending.since, candidates')
              == Announced(Board(old(pending.gens), old(pending.since), candidates), e, requests.View(), now, timers)
      ensures pending.due == old(pending.due) + DueOf(old(pending.gens), e, requests.received, now, timers)
    {
      var candidate := Announce(e, now, timers, candidates);
      candidates', minAge' := candidates, minAge;
      if candidate.Some? {
        candidates' := candidates + [candidate.value];
        minAge' := Min(minAge, Age(candidate.value, now));
      }
    }

    /** The scan of a summary against the tables as they stand. */
    ghost function ScanOf(entries: seq<Announcement>, now: nat, timers: Timers): Board
      reads this, pending, requests
      requires Valid() && InGrid(entries, requests.total)
    {
      Scanned(entries, |entries|, pending.gens, pending.since, requests.View(), now, timers)
    }

    /** The due records of what a summary makes newly pending. */
    ghost function DueFrom(entries: seq<Announcement>, now: nat, timers: Timers): seq<Due>
      reads this, pending, requests
      requires Valid() && InGrid(entries, requests.total)
    {
      ScanDue(entries, |entries|, pending.gens, pending.since, requests.View(), now, timers)
    }

    /** What a summary asks for. */
    ghost function AskedFor(entries: seq<Announcement>, now: nat, timers: Timers): seq<Candidate>
      reads this, pending, requests
      requires Valid() && InGrid(entries, requests.total)
    {
      var scan := ScanOf(entries, now, timers);
      Chosen(scan.candidates, requests.total, |requests.queue|, PendingCount(scan.gens), largeNotBefore, now, timers)
    }

    ghost function NextLargeFor(scan: Board, now: nat, timers: Timers): nat
      reads this, requests
    {
      NextLarge(scan.candidates, requests.total, |requests.queue|, PendingCount(scan.gens), largeNotBefore, now, timers)
    }

    /** queue_retransmits_from_summary. Exactly what the summary asks for is queued, and leaves the pending table. What
        was pending or is announced is lost exactly if it is forgotten; a summary that lists each tile once keeps what it
        announces, and one that does not go backwards keeps everything pending. */
    method HandleSummary(entries: seq<Announcement>, now: nat, timers: Timers) returns (accepted: bool)
      requires Valid() && 0 < now
      modifies this`largeNotBefore, pending, requests`queue, requests`queuedGen
      ensures Valid() && Grown(old(requests.queuedGen), requests.queuedGen)
      ensures accepted <==> InGrid(entries, requests.total)
      ensures !accepted ==> unchanged(this, pending, requests)
      ensures Sourced(entries, |entries|, old(pending.gens), pending.gens)
      ensures accepted ==>
                var asked := old(AskedFor(entries, now, timers));
                && QueuedBy(asked, |asked|, old(requests.queuedGen), requests.queuedGen)
                && TakenOff(asked, |asked|, old(ScanOf(entries, now, timers)).gens, pending.gens)
                && TakenOff(asked, |asked|, old(ScanOf(entries, now, timers)).since, pending.since)
                && pending.due == old(pending.due) + old(DueFrom(entries, now, timers))
                && largeNotBefore == old(NextLargeFor(ScanOf(entries, now, timers), now, timers))
      ensures accepted && ListsOnce(entries) ==> Kept(entries, pending.gens, requests.received, requests.queuedGen)
      ensures accepted ==>
                var asked := old(AskedFor(entries, now, timers));
                && LostPending(entries, old(pending.gens), pending.gens, requests.received, old(requests.queuedGen), requests.queuedGen, asked)
                && LostAnnounced(entries, pending.gens, requests.received, old(requests.queuedGen), requests.queuedGen, asked)
      ensures accepted && Forward(entries, old(pending.gens)) ==>
                HandedOver(old(pending.gens), pending.gens, requests.received, requests.queuedGen)
    {
      accepted := CheckGrid(entries);
      if !accepted { return; }
      var candidates, minAge := Scan(entries, now, timers);
      ScanIsSourced(entries, |entries|, old(pending.gens), old(pending.since), requests.View(), now, timers);
      ghost var gens := pending.gens;
      ghost var asked := QueueChosen(candidates, minAge, now, timers);
      StillSourced(entries, asked, old(pending.gens), gens, pending.gens);
      SummaryLoses(entries, old(pending.gens), old(pending.since), now, timers, asked, pending.gens, old(requests.queuedGen), requests.queuedGen);
    }

    lemma SummaryLoses(entries: seq<Announcement>, gens: seq<nat>, since: seq<nat>, now: nat, timers: Timers, asked: seq<Candidate>,
                       gens': seq<nat>, queued: seq<nat>, queued': seq<nat>)
      requires requests.Valid() && InGrid(entries, requests.total) && BoardOk(Board(gens, since, []), requests.View()) && |queued| == |gens|
      requires TakenOff(asked, |asked|, Scanned(entries, |entries|, gens, since, requests.View(), now, timers).gens, gens')
      requires QueuedBy(asked, |asked|, queued, queued') && AllAnnounced(entries, |entries|, asked)
      ensures LostPending(entries, gens, gens', requests.received, queued, queued', asked)
      ensures LostAnnounced(entries, gens', requests.received, queued, queued', asked)
      ensures ListsOnce(entries) ==> Kept(entries, gens', requests.received, queued')
      ensures Forward(entries, gens) ==> HandedOver(gens, gens', requests.received, queued')
    {
      SummaryLosesExactly(entries, gens, since, requests.View(), now, timers, asked, gens', queued, queued');
      if ListsOnce(entries) { OnceKeeps(entries, gens', requests.received, queued, queued', asked); }
      if Forward(entries, gens) { ForwardKeeps(entries, gens, gens', requests.received, queued, queued', asked); }
    }

    /** Limit the candidates of a summary, check for a large batch, and queue them. */
    method QueueChosen(candidates: seq<Candidate>, minAge: nat, now: nat, timers: Timers) returns (ghost chosen: seq<Candidate>)
      requires Valid() && minAge == MinAge(candidates, now) && forall c :: c in candidates ==> c.tile < requests.total
      modifies this`largeNotBefore, pending, requests`queue, requests`queuedGen
      ensures Valid()
      ensures chosen == old(Chosen(candidates, requests.total, |requests.queue|, PendingCount(pending.gens), largeNotBefore, now, timers))
      ensures QueuedBy(chosen, |chosen|, old(requests.queuedGen), requests.queuedGen)
      ensures TakenOff(chosen, |chosen|, old(pending.gens), pending.gens)
      ensures TakenOff(chosen, |chosen|, old(pending.since), pending.since)
      ensures pending.due == old(pending.due)
      ensures largeNotBefore == old(NextLarge(candidates, requests.total, |requests.queue|, PendingCount(pending.gens), largeNotBefore, now, timers))
    {
      if candidates == [] {
        NothingChosen(pending.gens, requests.queuedGen);
        NothingChosen(pending.since, requests.queuedGen);
        NoneToChoose(requests.total, |requests.queue|, PendingCount(pending.gens), largeNotBefore, now, timers);
        return [];
      }
      pending.Counts();
      var kept, dropped := LimitCandidates(candidates);
      assert forall k :: 0 <= k < |kept| ==> kept[k] in candidates;
      var blocked := QueueUnlessLarge(kept, minAge, now, timers);
      chosen := if blocked then [] else kept;
    }

    /** A large batch that comes too soon is not queued; any other is. */
    method QueueUnlessLarge(kept: seq<Candidate>, minAge: nat, now: nat, timers: Timers) returns (blocked: bool)
      requires Valid() && forall k :: 0 <= k < |kept| ==> kept[k].tile < requests.total
      modifies this`largeNotBefore, pending, requests`queue, requests`queuedGen
      ensures Valid() && pending.due == old(pending.due)
      ensures blocked <==> LargeBatch(requests.total, |kept|, now, timers) && TooSoon(minAge, old(largeNotBefore), now, timers)
      ensures largeNotBefore == if LargeBatch(requests.total, |kept|, now, timers) && !blocked
                                then now + Max(LARGE_REPAIR_COOLDOWN_NS, CleanIntervalNs(timers)) else old(largeNotBefore)
      ensures var chosen := if blocked then [] else kept;
              && QueuedBy(chosen, |chosen|, old(requests.queuedGen), requests.queuedGen)
              && TakenOff(chosen, |chosen|, old(pending.gens), pending.gens) && TakenOff(chosen, |chosen|, old(pending.since), pending.since)
    {
      blocked := LargeBatchBlocked(|kept|, minAge, now, timers);
      if blocked {
        NothingChosen(pending.gens, requests.queuedGen);
        NothingChosen(pending.since, requests.queuedGen);
      } else {
        QueueCandidates(kept);
      }
    }

    // ----- promotion of overdue announcements

    /** Take one overdue record: stale, satisfied, to be looked at again later, or a candidate. */
    method TakeDue(now: nat, timers: Timers, ghost candidates: seq<Candidate>) returns (candidate: Option<Candidate>)
      requires pending.Indexed() && requests.Valid() && pending.total == requests.total
      requires pending.due != [] && DueOrCandidate(pending.gens, pending.due, candidates)
      modifies pending
      ensures pending.Indexed()
      ensures DueOrCandidate(pending.gens, pending.due, if candidate.Some? then candidates + [candidate.value] else candidates)
      ensures var d, rest := old(pending.due[0]), old(pending.due)[1..];
              if !old(Live(d, pending.gens, pending.since)) then
                candidate == None && pending.gens == old(pending.gens) && pending.since == old(pending.since) && pending.due == rest
              else if requests.received[d.tile] >= d.generation then
                && candidate == None && pending.due == rest
                && pending.gens == old(pending.gens)[d.tile := 0] && pending.since == old(pending.since)[d.tile := 0]
              else
                && pending.gens == old(pending.gens) && pending.since == old(pending.since)
                && var retry := RetryNs(requests.View(), d.tile, d.generation, timers);
                   if retry > now then candidate == None && pending.due == rest + [Due(d.tile, d.generation, retry)]
                   else candidate == Some(Candidate(d.tile, d.generation, pending.since[d.tile])) && pending.due == rest
    {
      var d := pending.due[0];
      ghost var all := pending.due;
      pending.due := pending.due[1..];
      DuePopped(pending.gens, all, candidates);
      if d.tile >= pending.total || pending.gens[d.tile] != d.generation || pending.since[d.tile] == 0 {
        return None;
      }
      if requests.received[d.tile] >= d.generation {
        pending.Clear(d.tile);
        return None;
      }
      var retry := RetryNs(requests.View(), d.tile, d.generation, timers);
      if retry > now {
        DueRescheduled(pending.gens, pending.due, candidates, Due(d.tile, d.generation, retry));
        pending.Schedule(d.tile, d.generation, retry);
        return None;
      }
      candidate := Some(Candidate(d.tile, d.generation, pending.since[d.tile]));
      CandidateAdded(pending.gens, pending.due, candidates, candidate.value);
    }

    /** Empty the due queue up to now; this ends although records are put back, because those lie in the future. The
        candidates are exactly the matured records that were due at the head of the queue. */
    method CollectDue(now: nat, timers: Timers) returns (candidates: seq<Candidate>, minAge: nat)
      requires Valid()
      modifies pending
      ensures pending.Indexed() && DueOrCandidate(pending.gens, pending.due, candidates) && minAge == MinAge(candidates, now)
      ensures Collected(old(pending.due), old(Reached(pending.due, now)), old(pending.gens), old(pending.since), now, timers, candidates)
      ensures pending.due == old(DueLeft(now, timers))
    {
      candidates, minAge := [], U64_MAX;
      ghost var due, n := pending.due, 0;
      StartCollecting(now, timers);
      while pending.due != [] && pending.due[0].dueNs <= now
        invariant Collecting(due, n, old(pending.gens), old(pending.since), now, timers, candidates, minAge)
        decreases Reached(due, now) - n
      {
        candidates, minAge := CollectNext(due, n, old(pending.gens), old(pending.since), now, timers, candidates, minAge);
        n := n + 1;
      }
      AllReached(due, n, Deferred(due, n, old(pending.gens), old(pending.since), requests.View(), now, timers), pending.due, now);
    }

    ghost predicate Collecting(due: seq<Due>, n: nat, gens: seq<nat>, since: seq<nat>, now: nat, timers: Timers,
                               candidates: seq<Candidate>, minAge: nat)
      reads this, pending, requests
    {
      && pending.Indexed() && requests.Valid() && pending.total == requests.total
      && DueOrCandidate(pending.gens, pending.due, candidates) && minAge == MinAge(candidates, now)
      && n <= Reached(due, now) && Collected(due, n, gens, since, now, timers, candidates)
      && pending.due == due[n..] + Deferred(due, n, gens, since, requests.View(), now, timers) && (forall t :: 0 <= t < |gens| ==> (gens[t] != 0 <==> since[t] != 0))
    }

    lemma StartCollecting(now: nat, timers: Timers)
      requires Valid()
      ensures Collecting(pending.due, 0, pending.gens, pending.since, now, timers, [], U64_MAX)
    {
      NothingRelieved(pending.due, pending.gens, requests.received, pending.gens);
      NothingRelieved(pending.due, pending.gens, requests.received, pending.since);
      assert pending.due == pending.due[0..] + [];
    }

    method CollectNext(ghost due: seq<Due>, ghost n: nat, ghost gens: seq<nat>, ghost since: seq<nat>, now: nat, timers: Timers,
                       candidates: seq<Candidate>, minAge: nat)
      returns (candidates': seq<Candidate>, minAge': nat)
      requires Collecting(due, n, gens, since, now, timers, candidates, minAge) && pending.due != [] && pending.due[0].dueNs <= now
      modifies pending
      ensures n < Reached(due, now) && Collecting(due, n + 1, gens, since, now, timers, candidates', minAge')
    {
      ghost var left, back := pending.due, Deferred(due, n, gens, since, requests.View(), now, timers);
      NextReached(due, n, back, left, now);
      var candidate := TakeNext(now, timers, candidates, due, n, gens, since);
      DeferredNext(due, n, gens, since, requests.View(), now, timers, left, back);
      candidates', minAge' := candidates, minAge;
      if candidate.Some? {
        candidates' := candidates + [candidate.value];
        minAge' := Min(minAge, Age(candidate.value, now));
      }
    }

    method TakeNext(now: nat, timers: Timers, ghost candidates: seq<Candidate>, ghost due: seq<Due>, ghost n: nat, ghost gens: seq<nat>,
                    ghost since: seq<nat>)
      returns (candidate: Option<Candidate>)
      requires pending.Indexed() && requests.Valid() && pending.total == requests.total
      requires pending.due != [] && n < |due| && pending.due[0] == due[n] && DueOrCandidate(pending.gens, pending.due, candidates)
      requires Collected(due, n, gens, since, now, timers, candidates) && forall t :: 0 <= t < |gens| ==> (gens[t] != 0 <==> since[t] != 0)
      modifies pending
      ensures pending.Indexed()
      ensures var all := if candidate.Some? then candidates + [candidate.value] else candidates;
              DueOrCandidate(pending.gens, pending.due, all) && Collected(due, n + 1, gens, since, now, timers, all)
      ensures pending.due == old(pending.due)[1..] + Again(due[n], gens, since, requests.View(), now, timers)
      ensures candidate.Some? ==> candidate.value.since != 0
    {
      CollectStep(due, n, gens, since, requests.View(), now, timers);
      candidate := TakeDue(now, timers, candidates);
    }

    /** The first n due records have been taken. */
    ghost predicate Collected(due: seq<Due>, n: nat, gens: seq<nat>, since: seq<nat>, now: nat, timers: Timers, candidates: seq<Candidate>)
      reads this, pending, requests
    {
      && n <= |due| && BoardOk(Board(gens, since, []), requests.View())
      && candidates == Matured(due, n, gens, since, requests.View(), now, timers)
      && pending.gens == Relieved(due, n, gens, requests.received, gens)
      && pending.since == Relieved(due, n, gens, requests.received, since)
    }

    /** The pending table once satisfied rows of due records are cleared. */
    ghost function GensLeft(now: nat): seq<nat>
      reads this, pending, requests
      requires Valid()
    {
      Relieved(pending.due, Reached(pending.due, now), pending.gens, requests.received, pending.gens)
    }

    ghost function SinceLeft(now: nat): seq<nat>
      reads this, pending, requests
      requires Valid()
    {
      Relieved(pending.due, Reached(pending.due, now), pending.gens, requests.received, pending.since)
    }

    /** The due queue once its due records were taken: those not reached, then those put back for later. */
    ghost function DueLeft(now: nat, timers: Timers): seq<Due>
      reads this, pending, requests
      requires Valid()
    {
      var m := Reached(pending.due, now);
      pending.due[m..] + Deferred(pending.due, m, pending.gens, pending.since, requests.View(), now, timers)
    }

    /** The matured records at the head of the due queue. */
    ghost function MaturedNow(now: nat, timers: Timers): seq<Candidate>
      reads this, pending, requests
      requires Valid()
    {
      Matured(pending.due, Reached(pending.due, now), pending.gens, pending.since, requests.View(), now, timers)
    }

    /** What a promotion asks for. */
    ghost function PromotedFrom(now: nat, timers: Timers): seq<Candidate>
      reads this, pending, requests
      requires Valid()
    {
      Chosen(MaturedNow(now, timers), requests.total, |requests.queue|, PendingCount(GensLeft(now)), largeNotBefore, now, timers)
    }

    /** The due records of matured candidates that are not asked for: those over the limit, and a batch that comes too soon. */
    ghost function DueAgain(candidates: seq<Candidate>, pendingCount: nat, now: nat, timers: Timers): seq<Due>
      reads this, requests
    {
      var pressure := Pressure(requests.total, |requests.queue|, pendingCount);
      Records(Overflow(candidates, pressure), now + REPAIR_RETRY_MIN_NS)
      + KeptAgain(Limited(candidates, pressure), MinAge(candidates, now), now, timers)
    }

    ghost function KeptAgain(kept: seq<Candidate>, minAge: nat, now: nat, timers: Timers): seq<Due>
      reads this, requests
    {
      if LargeBatch(requests.total, |kept|, now, timers) && TooSoon(minAge, largeNotBefore, now, timers)
      then Records(kept, Max(now + REPAIR_RETRY_MIN_NS, largeNotBefore)) else []
    }

    ghost predicate HeldBack(now: nat, timers: Timers)
      reads this, pending, requests
      requires Valid()
    {
      Throttled(MaturedNow(now, timers), requests.total, |requests.queue|, PendingCount(GensLeft(now)), largeNotBefore, now, timers)
    }

    /** A due record is of a pending generation that is neither received nor on the way, and no record before it is due
        later. */
    ghost predicate Overdue(k: nat, now: nat, timers: Timers)
      reads this, pending, requests
      requires Valid()
    {
      && k < |pending.due| && Matures(pending.due[k], pending.gens, pending.since, requests.View(), now, timers)
      && forall j :: 0 <= j <= k ==> pending.due[j].dueNs <= now
    }

    /** A promotion that is not held back asks for exactly the tiles of overdue records. */
    lemma PromotedExactly(now: nat, timers: Timers, t: nat)
      requires Valid() && !HeldBack(now, timers)
      ensures var asked := PromotedFrom(now, timers);
              Lists(asked, |asked|, t) <==> exists k: nat :: Overdue(k, now, timers) && pending.due[k].tile == t
    {
      var asked := PromotedFrom(now, timers);
      if Lists(asked, |asked|, t) {
        UnthrottledTakesAll(MaturedNow(now, timers), requests.total, |requests.queue|, PendingCount(GensLeft(now)), largeNotBefore, now, timers);
        var i :| 0 <= i < |asked| && asked[i].tile == t;
        var k := MaturedOnly(pending.due, Reached(pending.due, now), pending.gens, pending.since, requests.View(), now, timers, asked[i]);
        ReachedExactly(pending.due, now, k);
        assert Overdue(k, now, timers);
      } else {
        forall k: nat | Overdue(k, now, timers) ensures pending.due[k].tile != t { OverdueIsPromoted(k, now, timers); }
      }
    }

    ghost function OverdueRecords(now: nat, timers: Timers): set<Due>
      reads this, pending, requests
      requires Valid()
    {
      set k: nat | k < |pending.due| && Overdue(k, now, timers) :: pending.due[k]
    }

    lemma AllOverduePromoted(now: nat, timers: Timers)
      requires Valid() && !HeldBack(now, timers)
      ensures forall d :: d in OverdueRecords(now, timers) ==> Promoted(d, PromotedFrom(now, timers), requests.View(), now, timers)
    {
      forall k: nat | Overdue(k, now, timers) ensures Promoted(pending.due[k], PromotedFrom(now, timers), requests.View(), now, timers) {
        OverdueIsPromoted(k, now, timers);
      }
    }

    /** An overdue record is asked for, unless the promotion is held back. */
    lemma OverdueIsPromoted(k: nat, now: nat, timers: Timers)
      requires Valid() && Overdue(k, now, timers) && !HeldBack(now, timers)
      ensures var asked := PromotedFrom(now, timers); Lists(asked, |asked|, pending.due[k].tile)
      ensures var asked := PromotedFrom(now, timers); MaxAsked(asked, |asked|, pending.due[k].tile) >= pending.due[k].generation
    {
      var asked, d := PromotedFrom(now, timers), pending.due[k];
      ReachedExactly(pending.due, now, k);
      UnthrottledTakesAll(MaturedNow(now, timers), requests.total, |requests.queue|, PendingCount(GensLeft(now)), largeNotBefore, now, timers);
      MaturedAll(pending.due, Reached(pending.due, now), pending.gens, pending.since, requests.View(), now, timers, k);
      var i :| 0 <= i < |asked| && asked[i] == Candidate(d.tile, d.generation, pending.since[d.tile]);
      assert asked[i].tile == d.tile;
      MaxAskedIsMax(asked, |asked|, d.tile);
    }

    /** promote_deferred_summary_retransmits_locked: exactly what the promotion asks for is queued; every pending
        generation stays pending with a due record, has been received, or went to the request queue; what was reached and
        not asked for comes back later, so that a second promotion at the same time asks for nothing. */
    method Promote(now: nat, timers: Timers)
      requires Valid()
      modifies this`largeNotBefore, pending, requests`queue, requests`queuedGen
      ensures Valid()
      ensures var asked := old(PromotedFrom(now, timers));
              && QueuedBy(asked, |asked|, old(requests.queuedGen), requests.queuedGen)
              && TakenOff(asked, |asked|, old(GensLeft(now)), pending.gens) && TakenOff(asked, |asked|, old(SinceLeft(now)), pending.since)
      ensures HandedOver(old(pending.gens), pending.gens, requests.received, requests.queuedGen)
      ensures forall t :: 0 <= t < pending.total ==> pending.gens[t] == old(pending.gens[t]) || pending.gens[t] == 0
      ensures pending.due == if old(PendingCount(pending.gens)) == 0 then old(pending.due) else old(DueAfter(now, timers))
      ensures largeNotBefore == old(NextLarge(MaturedNow(now, timers), requests.total, |requests.queue|, PendingCount(GensLeft(now)),
                                              largeNotBefore, now, timers))
      ensures PromotedFrom(now, timers) == []
    {
      pending.Counts();
      if pending.count == 0 || pending.due == [] {
        NothingDue(now, timers);
        NothingChosen(pending.gens, requests.queuedGen);
        NothingChosen(pending.since, requests.queuedGen);
        return;
      }
      NothingDueAfter(now, timers);
      PromoteReached(now, timers);
      NothingPromoted(now, timers);
    }

    method PromoteReached(now: nat, timers: Timers)
      requires Valid()
      modifies this`largeNotBefore, pending, requests`queue, requests`queuedGen
      ensures Valid()
      ensures var asked := old(PromotedFrom(now, timers));
              && QueuedBy(asked, |asked|, old(requests.queuedGen), requests.queuedGen)
              && TakenOff(asked, |asked|, old(GensLeft(now)), pending.gens) && TakenOff(asked, |asked|, old(SinceLeft(now)), pending.since)
      ensures HandedOver(old(pending.gens), pending.gens, requests.received, requests.queuedGen)
      ensures forall t :: 0 <= t < pending.total ==> pending.gens[t] == old(pending.gens[t]) || pending.gens[t] == 0
      ensures pending.due == old(DueAfter(now, timers))
      ensures largeNotBefore == old(NextLarge(MaturedNow(now, timers), requests.total, |requests.queue|, PendingCount(GensLeft(now)),
                                              largeNotBefore, now, timers))
    {
      var candidates, minAge := CollectDue(now, timers);
      ghost var asked := QueuePromoted(candidates, minAge, now, timers);
      PromotionHandsOver(old(pending.due), old(Reached(pending.due, now)), old(pending.gens), old(pending.since), requests.View(), now,
                         timers, asked, pending.gens, old(requests.queuedGen), requests.queuedGen);
    }

    /** The due queue after a promotion that had something to look at. */
    ghost function DueAfter(now: nat, timers: Timers): seq<Due>
      reads this, pending, requests
      requires Valid()
    {
      DueLeft(now, timers) + DueAgain(MaturedNow(now, timers), PendingCount(GensLeft(now)), now, timers)
    }

    /** Nothing in it is reached. */
    lemma NothingDueAfter(now: nat, timers: Timers)
      requires Valid()
      ensures Reached(DueAfter(now, timers), now) == 0
    {
      var due, m, candidates, count := pending.due, Reached(pending.due, now), MaturedNow(now, timers), PendingCount(GensLeft(now));
      var back, again := Deferred(due, m, pending.gens, pending.since, requests.View(), now, timers), DueAgain(candidates, count, now, timers);
      AgainIsLater(candidates, count, now, timers);
      NothingReached(due, back + again, now);
      Assoc(due[m..], back, again);
    }

    lemma AgainIsLater(candidates: seq<Candidate>, pendingCount: nat, now: nat, timers: Timers)
      ensures AllLater(DueAgain(candidates, pendingCount, now, timers), now)
    {
      var pressure := Pressure(requests.total, |requests.queue|, pendingCount);
      RecordsLater(Overflow(candidates, pressure), now + REPAIR_RETRY_MIN_NS, now);
      RecordsLater(Limited(candidates, pressure), Max(now + REPAIR_RETRY_MIN_NS, largeNotBefore), now);
    }

    lemma NothingPromoted(now: nat, timers: Timers)
      requires Valid() && Reached(pending.due, now) == 0
      ensures PromotedFrom(now, timers) == []
    {
      NoneToChoose(requests.total, |requests.queue|, PendingCount(GensLeft(now)), largeNotBefore, now, timers);
    }

    /** Without pending tiles or due records a promotion has nothing to ask for. */
    lemma NothingDue(now: nat, timers: Timers)
      requires Valid() && (PendingCount(pending.gens) == 0 || pending.due == [])
      ensures MaturedNow(now, timers) == [] && PromotedFrom(now, timers) == []
      ensures GensLeft(now) == pending.gens && SinceLeft(now) == pending.since
    {
      var m := Reached(pending.due, now);
      if pending.due != [] {
        assert PendingTiles(pending.gens) == {};
        forall t | 0 <= t < |pending.gens| ensures pending.gens[t] == 0 { assert t !in PendingTiles(pending.gens); }
        NothingMatured(pending.due, m, pending.gens, pending.since, requests.View(), now, timers);
      }
      assert GensLeft(now) == pending.gens && SinceLeft(now) == pending.since;
    }

    /** Limit the candidates of a promotion, check for a large batch, and queue them; what is not queued gets a new
        due record. */
    method QueuePromoted(candidates: seq<Candidate>, minAge: nat, now: nat, timers: Timers) returns (ghost chosen: seq<Candidate>)
      requires pending.Indexed() && requests.Valid() && pending.total == requests.total
      requires DueOrCandidate(pending.gens, pending.due, candidates)
      requires minAge == MinAge(candidates, now) && forall c :: c in candidates ==> c.tile < requests.total
      modifies this`largeNotBefore, pending, requests`queue, requests`queuedGen
      ensures Valid()
      ensures chosen == old(Chosen(candidates, requests.total, |requests.queue|, PendingCount(pending.gens), largeNotBefore, now, timers))
      ensures QueuedBy(chosen, |chosen|, old(requests.queuedGen), requests.queuedGen)
      ensures TakenOff(chosen, |chosen|, old(pending.gens), pending.gens)
      ensures TakenOff(chosen, |chosen|, old(pending.since), pending.since)
      ensures pending.due == old(pending.due) + old(DueAgain(candidates, PendingCount(pending.gens), now, timers))
      ensures largeNotBefore == old(NextLarge(candidates, requests.total, |requests.queue|, PendingCount(pending.gens), largeNotBefore, now, timers))
    {
      if candidates == [] {
        NothingChosen(pending.gens, requests.queuedGen);
        NothingChosen(pending.since, requests.queuedGen);
        NoneToChoose(requests.total, |requests.queue|, PendingCount(pending.gens), largeNotBefore, now, timers);
        NoCandidates(pending.gens, pending.due);
        return [];
      }
      chosen := PromoteSome(candidates, minAge, now, timers);
    }

    method PromoteSome(candidates: seq<Candidate>, minAge: nat, now: nat, timers: Timers) returns (ghost chosen: seq<Candidate>)
      requires pending.Indexed() && requests.Valid() && pending.total == requests.total
      requires DueOrCandidate(pending.gens, pending.due, candidates)
      requires minAge == MinAge(candidates, now) && forall c :: c in candidates ==> c.tile < requests.total
      modifies this`largeNotBefore, pending, requests`queue, requests`queuedGen
      ensures Valid()
      ensures chosen == old(Chosen(candidates, requests.total, |requests.queue|, PendingCount(pending.gens), largeNotBefore, now, timers))
      ensures QueuedBy(chosen, |chosen|, old(requests.queuedGen), requests.queuedGen)
      ensures TakenOff(chosen, |chosen|, old(pending.gens), pending.gens)
      ensures TakenOff(chosen, |chosen|, old(pending.since), pending.since)
      ensures pending.due == old(pending.due) + old(DueAgain(candidates, PendingCount(pending.gens), now, timers))
      ensures largeNotBefore == old(NextLarge(candidates, requests.total, |requests.queue|, PendingCount(pending.gens), largeNotBefore, now, timers))
    {
      pending.Counts();
      ghost var pressure := Pressure(requests.total, |requests.queue|, PendingCount(pending.gens));
      ghost var over := Records(Overflow(candidates, pressure), now + REPAIR_RETRY_MIN_NS);
      ghost var again := KeptAgain(Limited(candidates, pressure), minAge, now, timers);
      var kept := DeferOverflow(candidates, now);
      var blocked := QueueOrDefer(kept, minAge, now, timers);
      Assoc(old(pending.due), over, again);
      chosen := if blocked then [] else kept;
    }

    /** Under pressure the candidates over the limit get new due records. */
    method DeferOverflow(candidates: seq<Candidate>, now: nat) returns (kept: seq<Candidate>)
      requires DueOrCandidate(pending.gens, pending.due, candidates)
      modifies pending`due
      ensures DueOrCandidate(pending.gens, pending.due, kept) && forall k :: 0 <= k < |kept| ==> kept[k] in candidates
      ensures kept == Limited(candidates, Pressure(requests.total, |requests.queue|, pending.count))
      ensures pending.due == old(pending.due)
                           + Records(Overflow(candidates, Pressure(requests.total, |requests.queue|, pending.count)), now + REPAIR_RETRY_MIN_NS)
    {
      var dropped;
      kept, dropped := LimitCandidates(candidates);
      PartOf(candidates, kept, dropped);
      Reschedule(dropped, kept, candidates, now + REPAIR_RETRY_MIN_NS);
    }

    /** A large batch that comes too soon gets new due records; any other is queued. */
    method QueueOrDefer(kept: seq<Candidate>, minAge: nat, now: nat, timers: Timers) returns (blocked: bool)
      requires pending.Indexed() && requests.Valid() && pending.total == requests.total
      requires DueOrCandidate(pending.gens, pending.due, kept) && forall k :: 0 <= k < |kept| ==> kept[k].tile < pending.total
      modifies this`largeNotBefore, pending, requests`queue, requests`queuedGen
      ensures Valid()
      ensures blocked <==> LargeBatch(requests.total, |kept|, now, timers) && TooSoon(minAge, old(largeNotBefore), now, timers)
      ensures pending.due == old(pending.due) + old(KeptAgain(kept, minAge, now, timers))
      ensures largeNotBefore == if LargeBatch(requests.total, |kept|, now, timers) && !blocked
                                then now + Max(LARGE_REPAIR_COOLDOWN_NS, CleanIntervalNs(timers)) else old(largeNotBefore)
      ensures var chosen := if blocked then [] else kept;
              && QueuedBy(chosen, |chosen|, old(requests.queuedGen), requests.queuedGen)
              && TakenOff(chosen, |chosen|, old(pending.gens), pending.gens) && TakenOff(chosen, |chosen|, old(pending.since), pending.since)
    {
      blocked := LargeBatchBlocked(|kept|, minAge, now, timers);
      if blocked {
        NothingChosen(pending.gens, requests.queuedGen);
        NothingChosen(pending.since, requests.queuedGen);
        Reschedule(kept, [], kept, Max(now + REPAIR_RETRY_MIN_NS, largeNotBefore));
        NoCandidates(pending.gens, pending.due);
      } else {
        QueueCandidates(kept);
      }
    }

    /** Give candidates that are not queued now a new due record. */
    method Reschedule(later: seq<Candidate>, ghost others: seq<Candidate>, ghost candidates: seq<Candidate>, dueNs: nat)
      requires DueOrCandidate(pending.gens, pending.due, candidates)
      requires forall c :: c in candidates ==> c in later || c in others
      modifies pending`due
      ensures DueOrCandidate(pending.gens, pending.due, others) && pending.due == old(pending.due) + Records(later, dueNs)
    {
      Shrinks(pending.gens, pending.due, candidates, later + others);
      assert later[0..] == later;
      for n := 0 to |later|
        invariant DueOrCandidate(pending.gens, pending.due, later[n..] + others)
        invariant pending.due == old(pending.due) + Records(later[..n], dueNs)
      {
        RecordsNext(later, n, dueNs);
        ghost var d := Due(later[n].tile, later[n].generation, dueNs);
        FirstRescheduled(pending.gens, pending.due, later[n..] + others, d);
        assert (later[n..] + others)[1..] == later[n + 1..] + others;
        pending.Schedule(later[n].tile, later[n].generation, dueNs);
      }
      assert later[|later|..] + others == others && later[..|later|] == later;
    }
  }

  /** A record is asked for, at its generation or a newer one, which is neither received nor on the way. */
  ghost predicate Promoted(d: Due, asked: seq<Candidate>, v: Seen, now: nat, timers: Timers)
  {
    && v.Sized(|v.received|) && d.tile < |v.received| && MaxAsked(asked, |asked|, d.tile) >= d.generation > v.received[d.tile]
    && RetryNs(v, d.tile, d.generation, timers) <= now
  }

  lemma PromotedIsQueued(d: Due, asked: seq<Candidate>, v: Seen, now: nat, timers: Timers, before: seq<nat>, queued: seq<nat>)
    requires Promoted(d, asked, v, now, timers) && QueuedBy(asked, |asked|, before, queued) && |queued| == |v.received| && now < U64_MAX
    ensures queued[d.tile] >= d.generation && !Busy(v, d.tile, queued[d.tile], now, timers)
  {
    IdleAfterRetry(v, d.tile, d.generation, queued[d.tile], now, timers);
  }

  lemma DuePopped(gens: seq<nat>, due: seq<Due>, candidates: seq<Candidate>)
    requires due != [] && DueOrCandidate(gens, due, candidates)
    ensures forall t :: 0 <= t < |gens| && gens[t] != 0 && !(t == due[0].tile && gens[t] == due[0].generation) ==>
              HasDue(due[1..], t, gens[t]) || HasCandidate(candidates, t, gens[t])
  {
    forall t | 0 <= t < |gens| && gens[t] != 0 && !(t == due[0].tile && gens[t] == due[0].generation) && HasDue(due, t, gens[t])
      ensures HasDue(due[1..], t, gens[t])
    {
      var k :| 0 <= k < |due| && due[k].tile == t && due[k].generation == gens[t];
      assert due[1..][k - 1] == due[k];
    }
  }

  lemma DueRescheduled(gens: seq<nat>, due: seq<Due>, candidates: seq<Candidate>, d: Due)
    requires forall t :: 0 <= t < |gens| && gens[t] != 0 && !(t == d.tile && gens[t] == d.generation) ==>
               HasDue(due, t, gens[t]) || HasCandidate(candidates, t, gens[t])
    ensures DueOrCandidate(gens, due + [d], candidates)
  {
    forall t | 0 <= t < |gens| && gens[t] != 0 && !HasCandidate(candidates, t, gens[t]) ensures HasDue(due + [d], t, gens[t]) {
      if t == d.tile && gens[t] == d.generation {
        assert (due + [d])[|due|] == d;
      } else {
        var k :| 0 <= k < |due| && due[k].tile == t && due[k].generation == gens[t];
        assert (due + [d])[k] == due[k];
      }
    }
  }

  lemma CandidateAdded(gens: seq<nat>, due: seq<Due>, candidates: seq<Candidate>, c: Candidate)
    requires forall t :: 0 <= t < |gens| && gens[t] != 0 && !(t == c.tile && gens[t] == c.generation) ==>
               HasDue(due, t, gens[t]) || HasCandidate(candidates, t, gens[t])
    ensures DueOrCandidate(gens, due, candidates + [c])
  {
    forall t | 0 <= t < |gens| && gens[t] != 0 && !HasDue(due, t, gens[t]) ensures HasCandidate(candidates + [c], t, gens[t]) {
      if t == c.tile && gens[t] == c.generation {
        assert (candidates + [c])[|candidates|] == c;
      } else {
        var k :| 0 <= k < |candidates| && candidates[k].tile == t && candidates[k].generation == gens[t];
        assert (candidates + [c])[k] == candidates[k];
      }
    }
  }

  lemma FirstRescheduled(gens: seq<nat>, due: seq<Due>, candidates: seq<Candidate>, d: Due)
    requires candidates != [] && DueOrCandidate(gens, due, candidates)
    requires d.tile == candidates[0].tile && d.generation == candidates[0].generation
    ensures DueOrCandidate(gens, due + [d], candidates[1..])
  {
    forall t | 0 <= t < |gens| && gens[t] != 0 && !(t == d.tile && gens[t] == d.generation)
      ensures HasDue(due, t, gens[t]) || HasCandidate(candidates[1..], t, gens[t])
    {
      if !HasDue(due, t, gens[t]) {
        var k :| 0 <= k < |candidates| && candidates[k].tile == t && candidates[k].generation == gens[t];
        assert candidates[1..][k - 1] == candidates[k];
      }
    }
    DueRescheduled(gens, due, candidates[1..], d);
  }

  lemma Shrinks(gens: seq<nat>, due: seq<Due>, candidates: seq<Candidate>, cover: seq<Candidate>)
    requires DueOrCandidate(gens, due, candidates) && forall c :: c in candidates ==> c in cover
    ensures DueOrCandidate(gens, due, cover)
  {
    forall t | 0 <= t < |gens| && gens[t] != 0 && !HasDue(due, t, gens[t]) ensures HasCandidate(cover, t, gens[t]) {
      var k :| 0 <= k < |candidates| && candidates[k].tile == t && candidates[k].generation == gens[t];
      assert candidates[k] in cover;
      var m :| 0 <= m < |cover| && cover[m] == candidates[k];
    }
  }

  lemma NoCandidates(gens: seq<nat>, due: seq<Due>)
    requires DueOrCandidate(gens, due, [])
    ensures DueInv(gens, due)
  {}

  lemma StillSourced(entries: seq<Announcement>, chosen: seq<Candidate>, before: seq<nat>, gens: seq<nat>, gens': seq<nat>)
    requires Sourced(entries, |entries|, before, gens) && TakenOff(chosen, |chosen|, gens, gens')
    ensures Sourced(entries, |entries|, before, gens')
  {}

  lemma PartOf(candidates: seq<Candidate>, kept: seq<Candidate>, dropped: seq<Candidate>)
    requires multiset(candidates) == multiset(kept) + multiset(dropped)
    ensures forall c :: c in kept ==> c in candidates
    ensures forall c :: c in dropped ==> c in candidates
    ensures forall c :: c in candidates ==> c in kept || c in dropped
  {
    forall c | c in kept ensures c in candidates { assert c in multiset(kept); assert c in multiset(candidates); }
    forall c | c in dropped ensures c in candidates { assert c in multiset(dropped); assert c in multiset(candidates); }
    forall c | c in candidates ensures c in kept || c in dropped {
      assert c in multiset(candidates);
      assert c in multiset(kept) || c in multiset(dropped);
    }
  }
}
