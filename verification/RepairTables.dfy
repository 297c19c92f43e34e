/** The two tables of the repair scheduler: announced generations that have not arrived, with their dense index
    and due queue, and the received / queued / requested / in-flight state per base tile. */
module RepairTables {
  import opened RepairLog
  import opened RepairPlan
  import opened Wrappers

  /** The latest request of a tile is still tracked unless its generation has been received. */
  ghost predicate Tracked(latest: Option<Issue>, requested: nat, requestedAt: nat, received: nat)
  {
    match latest
    case None => true
    case Some(e) => received >= e.generation || (requested == e.generation && requestedAt == e.at && 0 < e.at)
  }

  ghost predicate TrackedInv(log: seq<Issue>, requested: seq<nat>, requestedAt: seq<nat>, received: seq<nat>)
  {
    && |requested| == |requestedAt| == |received|
    && (forall t :: 0 <= t < |received| ==> Tracked(LastOf(log, t), requested[t], requestedAt[t], received[t]))
  }

  /** The newest generation of a tile that is received, announced and pending, queued, or requested. */
  ghost function Known(t: int, received: seq<nat>, pending: seq<nat>, queued: seq<nat>, log: seq<Issue>): nat
    requires 0 <= t < |received| == |pending| == |queued|
  {
    Max(Max(received[t], pending[t]), Max(queued[t], MaxRequested(log, t)))
  }

  /** Announced generations that have not arrived (retx_summary_pending_* and the due queue). */
  class PendingTable {
    const total: nat
    var gens: seq<nat>
    var since: seq<nat>
    var tiles: seq<nat>
    var positions: seq<nat>
    var count: nat
    var due: seq<Due>

    ghost predicate Indexed()
      reads this
    {
      && IndexInv(total, tiles, positions) && count == |tiles|
      && PendingInv(total, gens, since, positions)
    }

    ghost predicate Valid()
      reads this
    {
      Indexed() && DueInv(gens, due)
    }

    constructor (size: nat)
      requires size <= 0xFFFF
      ensures Valid() && total == size && gens == seq(size, _ => 0) && due == []
    {
      total := size;
      gens, since, positions := seq(size, _ => 0), seq(size, _ => 0), seq(size, _ => NO_POSITION);
      tiles, count, due := [], 0, [];
    }

    lemma Counts()
      requires Indexed()
      ensures count == PendingCount(gens)
    {
      IndexCounts(total, tiles, positions, gens, since);
    }

    method IndexAdd(tile: nat) returns (ok: bool)
      requires IndexInv(total, tiles, positions)
      modifies this`tiles, this`positions
      ensures IndexInv(total, tiles, positions)
      ensures ok == (tile < total)
      ensures forall t :: 0 <= t < total ==> (positions[t] != NO_POSITION <==> old(positions[t]) != NO_POSITION || t == tile)
      ensures tiles == if tile < total && old(positions[tile]) == NO_POSITION then old(tiles) + [tile] else old(tiles)
    {
      if tile >= |positions| { return false; }
      if positions[tile] != NO_POSITION { return true; }
      DistinctBelow(tiles, total);
      if |tiles| >= NO_POSITION { return false; }
      positions := positions[tile := |tiles|];
      tiles := tiles + [tile];
      return true;
    }

    method IndexRemove(tile: nat) returns (ok: bool)
      requires IndexInv(total, tiles, positions)
      modifies this`tiles, this`positions
      ensures IndexInv(total, tiles, positions)
      ensures ok == (tile < total)
      ensures forall t :: 0 <= t < total ==> (positions[t] != NO_POSITION <==> old(positions[t]) != NO_POSITION && t != tile)
      ensures |tiles| == |old(tiles)| - if tile < total && old(positions[tile]) != NO_POSITION then 1 else 0
    {
      if tile >= |positions| { return false; }
      var position := positions[tile];
      if position == NO_POSITION { return true; }
      if position >= |tiles| { return false; }
      DistinctBelow(tiles, total);
      var moved := tiles[|tiles| - 1];
      tiles := tiles[position := moved];
      positions := positions[moved := position];
      tiles := tiles[..|tiles| - 1];
      positions := positions[tile := NO_POSITION];
      return true;
    }

    method Clear(tile: nat)
      requires Indexed() && tile < total
      modifies this`tiles, this`positions, this`gens, this`since, this`count
      ensures Indexed()
      ensures gens == old(gens)[tile := 0] && since == old(since)[tile := 0]
      ensures DueInv(old(gens), due) ==> DueInv(gens, due)
    {
      var _ := IndexRemove(tile);
      gens := gens[tile := 0];
      since := since[tile := 0];
      count := |tiles|;
    }

    method Schedule(tile: nat, generation: nat, dueNs: nat)
      modifies this`due
      ensures due == old(due) + [Due(tile, generation, dueNs)]
    {
      due := due + [Due(tile, generation, dueNs)];
    }

    method Set(tile: nat, generation: nat, now: nat, grace: nat)
      requires Valid() && tile < total && 0 < now
      modifies this
      ensures Valid()
      ensures if old(gens[tile]) < generation
              then && gens == old(gens)[tile := generation] && since == old(since)[tile := now]
                   && due == old(due) + [Due(tile, generation, SaturatingAdd(now, grace))]
              else gens == old(gens) && since == old(since) && due == old(due)
    {
      if generation == 0 || gens[tile] >= generation { return; }
      DueSet(gens, due, tile, generation, SaturatingAdd(now, grace));
      var ok := Enter(tile, generation, now);
      if !ok { return; }
      Schedule(tile, generation, SaturatingAdd(now, grace));
    }

    method Enter(tile: nat, generation: nat, now: nat) returns (ok: bool)
      requires Indexed() && tile < total && 0 < now && 0 < generation
      modifies this`tiles, this`positions, this`gens, this`since, this`count
      ensures Indexed() && ok
      ensures gens == old(gens)[tile := generation] && since == old(since)[tile := now]
    {
      ok := IndexAdd(tile);
      PendingSet(total, gens, since, old(positions), positions, tile, generation, now);
      gens := gens[tile := generation];
      since := since[tile := now];
      count := |tiles|;
    }
  }

  lemma DueAppended(gens: seq<nat>, due: seq<Due>, d: Due)
    requires forall t :: 0 <= t < |gens| && gens[t] != 0 ==> HasDue(due, t, gens[t]) || (d.tile == t && d.generation == gens[t])
    ensures DueInv(gens, due + [d])
  {
    forall t | 0 <= t < |gens| && gens[t] != 0 ensures HasDue(due + [d], t, gens[t]) {
      if HasDue(due, t, gens[t]) {
        var k :| 0 <= k < |due| && due[k].tile == t && due[k].generation == gens[t];
        assert (due + [d])[k] == due[k];
      } else {
        assert (due + [d])[|due|] == d;
      }
    }
  }

  lemma PendingSet(total: nat, gens: seq<nat>, since: seq<nat>, positions: seq<nat>, positions': seq<nat>, tile: nat, generation: nat, now: nat)
    requires PendingInv(total, gens, since, positions) && tile < total && |positions| == |positions'| == total && 0 < generation && 0 < now
    requires forall t :: 0 <= t < total ==> (positions'[t] != NO_POSITION <==> positions[t] != NO_POSITION || t == tile)
    ensures PendingInv(total, gens[tile := generation], since[tile := now], positions')
  {
  }

  lemma DueSet(gens: seq<nat>, due: seq<Due>, tile: nat, generation: nat, at: nat)
    requires DueInv(gens, due) && tile < |gens|
    ensures DueInv(gens[tile := generation], due + [Due(tile, generation, at)])
  {
    DueAppended(gens[tile := generation], due, Due(tile, generation, at));
  }

  /** What a flush has done so far to the generations that were queued before it. */
  ghost predicate Outcomes(before: seq<nat>, queued: seq<nat>, received: seq<nat>, requests: seq<Request>)
  {
    && |before| == |queued| == |received|
    && (forall i, j :: 0 <= i < j < |requests| ==> requests[i].tile != requests[j].tile)
    && (forall r :: r in requests ==>
          r.tile < |before| && before[r.tile] == r.generation > received[r.tile] && queued[r.tile] == 0)
    && (forall t :: 0 <= t < |before| && queued[t] != 0 ==> queued[t] == before[t])
    && (forall t :: 0 <= t < |before| && before[t] != 0 && queued[t] == 0 ==>
          received[t] >= before[t] || Request(t, before[t]) in requests)
  }

  lemma OutcomesDropped(before: seq<nat>, queued: seq<nat>, received: seq<nat>, requests: seq<Request>, t: nat)
    requires Outcomes(before, queued, received, requests) && t < |queued| && queued[t] != 0 && received[t] >= queued[t]
    ensures Outcomes(before, queued[t := 0], received, requests)
  {}

  lemma OutcomesRequested(before: seq<nat>, queued: seq<nat>, received: seq<nat>, requests: seq<Request>, t: nat)
    requires Outcomes(before, queued, received, requests) && t < |queued| && queued[t] != 0 && received[t] < queued[t]
    ensures Outcomes(before, queued[t := 0], received, requests + [Request(t, queued[t])])
  {
    assert forall i :: 0 <= i < |requests| ==> requests[i] in requests;
  }

  lemma RequestsDistinct(before: seq<nat>, queued: seq<nat>, received: seq<nat>, requests: seq<Request>)
    requires Outcomes(before, queued, received, requests)
    ensures |requests| <= |before|
  {
    var ids := seq(|requests|, i requires 0 <= i < |requests| => requests[i].tile);
    forall i | 0 <= i < |ids| ensures ids[i] < |before| { assert requests[i] in requests; }
    DistinctBelow(ids, |before|);
  }

  /** Among the first n listed tiles, those in flight at the generation no longer are; nothing else changed. */
  ghost predicate Landed(tiles: seq<int>, n: nat, generation: nat, inflight: seq<nat>, since: seq<nat>, inflight': seq<nat>, since': seq<nat>)
  {
    && n <= |tiles| && |inflight| == |since| == |inflight'| == |since'|
    && forall t :: 0 <= t < |inflight| ==>
         if t in tiles[..n] && inflight[t] == generation then inflight'[t] == since'[t] == 0
         else inflight'[t] == inflight[t] && since'[t] == since[t]
  }

  lemma LandedStep(tiles: seq<int>, n: nat, generation: nat, inflight: seq<nat>, since: seq<nat>, inflight': seq<nat>, since': seq<nat>)
    requires n < |tiles| && 0 <= tiles[n] < |inflight| && Landed(tiles, n, generation, inflight, since, inflight', since')
    ensures if inflight'[tiles[n]] == generation
            then Landed(tiles, n + 1, generation, inflight, since, inflight'[tiles[n] := 0], since'[tiles[n] := 0])
            else Landed(tiles, n + 1, generation, inflight, since, inflight', since')
  {
    assert tiles[..n + 1] == tiles[..n] + [tiles[n]];
  }

  ghost predicate Named(requests: seq<Request>, t: int)
  {
    exists i :: 0 <= i < |requests| && requests[i].tile == t
  }

  /** The requested generation and time are those of the message for the tiles it names, and unchanged for others. */
  ghost predicate Marked(requests: seq<Request>, at: nat, gens: seq<nat>, ats: seq<nat>, gens': seq<nat>, ats': seq<nat>)
  {
    && |gens| == |ats| == |gens'| == |ats'|
    && (forall i :: 0 <= i < |requests| ==>
          requests[i].tile < |gens| && gens'[requests[i].tile] == requests[i].generation && ats'[requests[i].tile] == at)
    && (forall t :: 0 <= t < |gens| && !Named(requests, t) ==> gens'[t] == gens[t] && ats'[t] == ats[t])
  }

  lemma MarkedStep(requests: seq<Request>, r: Request, at: nat, gens: seq<nat>, ats: seq<nat>, gens': seq<nat>, ats': seq<nat>)
    requires Marked(requests, at, gens, ats, gens', ats') && r.tile < |gens|
    requires forall i :: 0 <= i < |requests| ==> requests[i].tile != r.tile
    ensures Marked(requests + [r], at, gens, ats, gens'[r.tile := r.generation], ats'[r.tile := at])
  {
    var all := requests + [r];
    assert all[|requests|] == r && forall i :: 0 <= i < |requests| ==> all[i] == requests[i];
    forall t | 0 <= t < |gens| && !Named(all, t) ensures !Named(requests, t) && t != r.tile {
      assert forall i :: 0 <= i < |all| ==> all[i].tile != t;
      assert all[|requests|].tile != t;
    }
  }

  /** Received generations and the repair requests derived from them (retx_* vectors and queue). */
  class RequestTable {
    const total: nat
    var received: seq<nat>
    var queue: seq<nat>
    var queuedGen: seq<nat>
    var requestedGen: seq<nat>
    var requestedAt: seq<nat>
    var inflightGen: seq<nat>
    var inflightSince: seq<nat>
    ghost var clock: nat        // time of the latest flush
    ghost var log: seq<Issue>   // requests put on the wire so far

    ghost predicate Sized()
      reads this
    {
      |received| == |queuedGen| == |requestedGen| == |requestedAt| == |inflightGen| == |inflightSince| == total
    }

    ghost predicate Valid()
      reads this
    {
      && Sized() && QueueInv(queuedGen, queue)
      && WellSpaced(log) && LastAt(log) <= clock && TrackedInv(log, requestedGen, requestedAt, received)
    }

    constructor (size: nat)
      requires size <= 0xFFFF
      ensures Valid() && total == size && log == [] && queue == [] && clock == 0
      ensures var zeros := seq(size, _ => 0); queuedGen == zeros && View() == Seen(zeros, zeros, zeros, zeros, zeros)
    {
      total := size;
      received, queuedGen, requestedGen := seq(size, _ => 0), seq(size, _ => 0), seq(size, _ => 0);
      requestedAt, inflightGen, inflightSince := seq(size, _ => 0), seq(size, _ => 0), seq(size, _ => 0);
      queue, clock, log := [], 0, [];
    }

    function View(): (v: Seen)
      reads this
    {
      Seen(received, inflightGen, inflightSince, requestedGen, requestedAt)
    }

    /** Put a generation of a tile on the request queue, at the highest generation asked for. */
    method Queue(tile: nat, generation: nat)
      requires Valid() && tile < total
      modifies this`queue, this`queuedGen
      ensures Valid() && old(queue) <= queue
      ensures queuedGen == old(queuedGen)[tile := Max(old(queuedGen[tile]), generation)]
    {
      if queuedGen[tile] == 0 {
        queue := queue + [tile];
      }
      if queuedGen[tile] < generation {
        queuedGen := queuedGen[tile := generation];
      }
    }

    method ClearInflight(tile: nat, generation: nat)
      requires Valid() && tile < total
      modifies this`inflightGen, this`inflightSince
      ensures Valid()
      ensures if old(inflightGen[tile]) == generation
              then inflightGen == old(inflightGen)[tile := 0] && inflightSince == old(inflightSince)[tile := 0]
              else inflightGen == old(inflightGen) && inflightSince == old(inflightSince)
    {
      if inflightGen[tile] == generation {
        inflightGen := inflightGen[tile := 0];
        inflightSince := inflightSince[tile := 0];
      }
    }

    /** A partial tile was given up: queue one of its base tiles unless that generation has arrived. */
    method RepairPartial(tile: nat, generation: nat) returns (queued: bool)
      requires Valid() && tile < total
      modifies this`queue, this`queuedGen, this`inflightGen, this`inflightSince
      ensures Valid()
      ensures queued == (received[tile] < generation)
      ensures queuedGen == if queued then old(queuedGen)[tile := Max(old(queuedGen[tile]), generation)] else old(queuedGen)
      ensures if old(inflightGen[tile]) == generation
              then inflightGen == old(inflightGen)[tile := 0] && inflightSince == old(inflightSince)[tile := 0]
              else inflightGen == old(inflightGen) && inflightSince == old(inflightSince)
    {
      if received[tile] >= generation {
        ClearInflight(tile, generation);
        return false;
      }
      Queue(tile, generation);
      ClearInflight(tile, generation);
      return true;
    }

    /** queue_entry_repair: every base tile of a partial tile that was given up ends received or queued, and no longer
        counts as in flight at its generation. */
    method RepairPartials(tiles: seq<int>, generation: nat)
      requires Valid() && forall k :: 0 <= k < |tiles| ==> 0 <= tiles[k] < total
      modifies this`queue, this`queuedGen, this`inflightGen, this`inflightSince
      ensures Valid()
      ensures forall t :: 0 <= t < total ==> queuedGen[t] >= old(queuedGen[t])
      ensures forall t :: 0 <= t < total && t !in tiles ==> queuedGen[t] == old(queuedGen[t])
      ensures forall k :: 0 <= k < |tiles| ==> received[tiles[k]] >= generation || queuedGen[tiles[k]] >= generation
      ensures Landed(tiles, |tiles|, generation, old(inflightGen), old(inflightSince), inflightGen, inflightSince)
    {
      for n := 0 to |tiles|
        invariant Valid()
        invariant forall t :: 0 <= t < total ==> queuedGen[t] >= old(queuedGen[t])
        invariant forall t :: 0 <= t < total && t !in tiles ==> queuedGen[t] == old(queuedGen[t])
        invariant forall k :: 0 <= k < n ==> received[tiles[k]] >= generation || queuedGen[tiles[k]] >= generation
        invariant Landed(tiles, n, generation, old(inflightGen), old(inflightSince), inflightGen, inflightSince)
      {
        LandedStep(tiles, n, generation, old(inflightGen), old(inflightSince), inflightGen, inflightSince);
        var _ := RepairPartial(tiles[n], generation);
      }
    }

    /** The first packet of a tile arrived: its base tiles count as in flight from now on. */
    method NoteInflight(tiles: seq<int>, generation: nat, now: nat)
      requires Valid() && forall k :: 0 <= k < |tiles| ==> 0 <= tiles[k] < total
      modifies this`inflightGen, this`inflightSince
      ensures Valid()
      ensures forall t :: 0 <= t < total ==>
                if t in tiles then inflightGen[t] == generation && inflightSince[t] == now
                else inflightGen[t] == old(inflightGen[t]) && inflightSince[t] == old(inflightSince[t])
    {
      for n := 0 to |tiles|
        invariant Sized()
        invariant forall t :: 0 <= t < total ==>
                    if t in tiles[..n] then inflightGen[t] == generation && inflightSince[t] == now
                    else inflightGen[t] == old(inflightGen[t]) && inflightSince[t] == old(inflightSince[t])
      {
        inflightGen := inflightGen[tiles[n] := generation];
        inflightSince := inflightSince[tiles[n] := now];
      }
    }

    method ClearInflights(tiles: seq<int>, generation: nat)
      requires Valid() && forall k :: 0 <= k < |tiles| ==> 0 <= tiles[k] < total
      modifies this`inflightGen, this`inflightSince
      ensures Valid()
      ensures Landed(tiles, |tiles|, generation, old(inflightGen), old(inflightSince), inflightGen, inflightSince)
    {
      for n := 0 to |tiles|
        invariant Valid()
        invariant Landed(tiles, n, generation, old(inflightGen), old(inflightSince), inflightGen, inflightSince)
      {
        LandedStep(tiles, n, generation, old(inflightGen), old(inflightSince), inflightGen, inflightSince);
        ClearInflight(tiles[n], generation);
      }
    }

    /** Base tile `tile` received a completed generation: drop the request state that it satisfies. */
    method Receive(tile: nat, generation: nat)
      requires Valid() && tile < total
      modifies this`received, this`queuedGen, this`inflightGen, this`inflightSince, this`requestedGen, this`requestedAt
      ensures Valid()
      ensures received == old(received)[tile := Max(old(received[tile]), generation)]
      ensures queuedGen == if old(queuedGen[tile]) <= received[tile] then old(queuedGen)[tile := 0] else old(queuedGen)
      ensures if 0 < old(requestedGen[tile]) <= received[tile]
              then requestedGen == old(requestedGen)[tile := 0] && requestedAt == old(requestedAt)[tile := 0]
              else requestedGen == old(requestedGen) && requestedAt == old(requestedAt)
      ensures if 0 < old(inflightGen[tile]) <= received[tile]
              then inflightGen == old(inflightGen)[tile := 0] && inflightSince == old(inflightSince)[tile := 0]
              else inflightGen == old(inflightGen) && inflightSince == old(inflightSince)
    {
      if generation > received[tile] {
        received := received[tile := generation];
      }
      DropRequested(tile);
      DropInflight(tile);
      if queuedGen[tile] != 0 && queuedGen[tile] <= received[tile] {
        queuedGen := queuedGen[tile := 0];
      }
    }

    method DropRequested(tile: nat)
      requires Valid() && tile < total
      modifies this`requestedGen, this`requestedAt
      ensures Valid()
      ensures if 0 < old(requestedGen[tile]) <= received[tile]
              then requestedGen == old(requestedGen)[tile := 0] && requestedAt == old(requestedAt)[tile := 0]
              else requestedGen == old(requestedGen) && requestedAt == old(requestedAt)
    {
      if requestedGen[tile] != 0 && requestedGen[tile] <= received[tile] {
        requestedGen := requestedGen[tile := 0];
        requestedAt := requestedAt[tile := 0];
      }
    }

    method DropInflight(tile: nat)
      requires Valid() && tile < total
      modifies this`inflightGen, this`inflightSince
      ensures Valid()
      ensures if 0 < old(inflightGen[tile]) <= received[tile]
              then inflightGen == old(inflightGen)[tile := 0] && inflightSince == old(inflightSince)[tile := 0]
              else inflightGen == old(inflightGen) && inflightSince == old(inflightSince)
    {
      if inflightGen[tile] != 0 && inflightGen[tile] <= received[tile] {
        inflightGen := inflightGen[tile := 0];
        inflightSince := inflightSince[tile := 0];
      }
    }

    // ----- the flush

    /** A packet of the generation came within the in-flight grace. */
    predicate StillInflight(tile: nat, generation: nat, now: nat, timers: Timers)
      reads this
      requires Sized() && tile < total
    {
      Within(inflightGen[tile], inflightSince[tile], generation, now, InflightGraceNs(timers))
    }

    /** The generation was requested within the request interval. */
    predicate RecentlyRequested(tile: nat, generation: nat, now: nat, timers: Timers)
      reads this
      requires Sized() && tile < total
    {
      Within(requestedGen[tile], requestedAt[tile], generation, now, RequestIntervalNs(timers))
    }

    predicate Deferred(tile: nat, now: nat, timers: Timers)
      reads this
      requires Sized() && tile < total
    {
      && received[tile] < queuedGen[tile]
      && (StillInflight(tile, queuedGen[tile], now, timers) || RecentlyRequested(tile, queuedGen[tile], now, timers))
    }

    /** Take the tile at the head of the queue: request its queued generation, defer it to the tail, or drop the
        id because the generation has arrived or the id is stale. */
    method FlushNext(now: nat, timers: Timers) returns (request: Option<Request>)
      requires Valid() && queue != [] && clock == now && 0 < now <= U64_MAX
      modifies this`queue, this`queuedGen, this`requestedGen, this`requestedAt, this`log
      ensures Valid()
      ensures var tile, rest := old(queue[0]), old(queue)[1..];
              if tile >= total || old(queuedGen[tile]) == 0 then
                request == None && Idle() && queue == rest && queuedGen == old(queuedGen)
              else if old(received[tile] >= queuedGen[tile]) then
                request == None && Idle() && queue == rest && queuedGen == old(queuedGen)[tile := 0]
              else if old(Deferred(tile, now, timers)) then
                request == None && Idle() && queue == rest + [tile] && queuedGen == old(queuedGen)
              else
                && request == Some(Request(tile, old(queuedGen[tile]))) && queue == rest
                && queuedGen == old(queuedGen)[tile := 0]
                && requestedGen == old(requestedGen)[tile := old(queuedGen[tile])]
                && requestedAt == old(requestedAt)[tile := now]
                && log == old(log) + [Issue(tile, old(queuedGen[tile]), now, RequestIntervalNs(timers))]
    {
      var tile := queue[0];
      QueuePopped(queuedGen, queue);
      queue := queue[1..];
      if tile >= total || queuedGen[tile] == 0 {
        return None;
      }
      var target := queuedGen[tile];
      if received[tile] >= target {
        queuedGen := queuedGen[tile := 0];
        return None;
      }
      if StillInflight(tile, target, now, timers) || RecentlyRequested(tile, target, now, timers) {
        queue := queue + [tile];
        return None;
      }
      MayRequest(tile, target, now, timers);
      Appended(log, Issue(tile, target, now, RequestIntervalNs(timers)));
      queuedGen := queuedGen[tile := 0];
      requestedGen := requestedGen[tile := target];
      requestedAt := requestedAt[tile := now];
      log := log + [Issue(tile, target, now, RequestIntervalNs(timers))];
      return Some(Request(tile, target));
    }

    /** One flush: every queued generation is requested, found received, or stays queued; no tile is requested
        twice; what stays queued below the message limit is inside its in-flight grace or request interval. */
    method Flush(now: nat, timers: Timers, limit: nat) returns (requests: seq<Request>)
      requires Valid() && clock <= now && 0 < now <= U64_MAX
      modifies this`queue, this`queuedGen, this`requestedGen, this`requestedAt, this`log, this`clock
      ensures Valid() && clock == now
      ensures |requests| <= limit && |requests| <= total
      ensures forall i, j :: 0 <= i < j < |requests| ==> requests[i].tile != requests[j].tile
      ensures forall r :: r in requests ==>
                r.tile < total && old(queuedGen[r.tile]) == r.generation > received[r.tile] && queuedGen[r.tile] == 0
      ensures forall t :: 0 <= t < total && old(queuedGen[t]) != 0 ==>
                if queuedGen[t] != 0 then queuedGen[t] == old(queuedGen[t])
                else received[t] >= old(queuedGen[t]) || Request(t, old(queuedGen[t])) in requests
      ensures forall t :: 0 <= t < total && old(queuedGen[t]) == 0 ==> queuedGen[t] == 0
      ensures |requests| < limit ==> forall t :: 0 <= t < total && queuedGen[t] != 0 ==> Deferred(t, now, timers)
      ensures log == old(log) + Issues(requests, now, RequestIntervalNs(timers))
      ensures Marked(requests, now, old(requestedGen), old(requestedAt), requestedGen, requestedAt)
    {
      clock := now;
      requests := [];
      var toScan := |queue|;
      while queue != [] && toScan > 0 && |requests| < limit
        invariant Valid() && clock == now && 0 <= toScan <= |queue| && |requests| <= limit
        invariant Outcomes(old(queuedGen), queuedGen, received, requests)
        invariant AllDeferred(toScan, now, timers)
        invariant log == old(log) + Issues(requests, now, RequestIntervalNs(timers))
        invariant Marked(requests, now, old(requestedGen), old(requestedAt), requestedGen, requestedAt)
        decreases toScan
      {
        toScan := toScan - 1;
        ghost var sent := requests;
        requests := FlushStep(now, timers, requests, toScan, old(queuedGen), old(requestedGen), old(requestedAt));
        IssuesJoin(old(log), sent, requests, now, RequestIntervalNs(timers));
      }
      RequestsDistinct(old(queuedGen), queuedGen, received, requests);
    }

    /** Everything from position `from` of the queue on has been looked at in this flush and deferred. */
    ghost predicate AllDeferred(from: nat, now: nat, timers: Timers)
      reads this
      requires Sized()
    {
      forall t :: 0 <= t < total && queuedGen[t] != 0 && t in queue[Min(from, |queue|)..] ==> Deferred(t, now, timers)
    }

    method FlushStep(now: nat, timers: Timers, requests: seq<Request>, ghost toScan: nat, ghost before: seq<nat>,
                     ghost gens: seq<nat>, ghost ats: seq<nat>)
      returns (requests': seq<Request>)
      requires Valid() && clock == now && 0 < now <= U64_MAX && toScan < |queue| && |before| == total
      requires Outcomes(before, queuedGen, received, requests) && AllDeferred(toScan + 1, now, timers)
      requires Marked(requests, now, gens, ats, requestedGen, requestedAt)
      modifies this`queue, this`queuedGen, this`requestedGen, this`requestedAt, this`log
      ensures Valid() && |requests'| <= |requests| + 1 && toScan <= |queue|
      ensures Outcomes(before, queuedGen, received, requests') && AllDeferred(toScan, now, timers)
      ensures Marked(requests', now, gens, ats, requestedGen, requestedAt)
      ensures requests <= requests' && log == old(log) + Issues(requests'[|requests|..], now, RequestIntervalNs(timers))
    {
      ghost var tile, queued := queue[0], queuedGen;
      var request := FlushHead(now, timers, toScan);
      requests' := requests;
      if request.Some? {
        requests' := requests + [request.value];
        OutcomesRequested(before, queued, received, requests, tile);
        MarkedStep(requests, request.value, now, gens, ats, old(requestedGen), old(requestedAt));
      } else if queuedGen != queued {
        OutcomesDropped(before, queued, received, requests, tile);
      }
    }

    /** FlushNext in the course of a flush: what it puts back has been looked at. */
    method FlushHead(now: nat, timers: Timers, ghost toScan: nat) returns (request: Option<Request>)
      requires Valid() && clock == now && 0 < now <= U64_MAX && toScan < |queue| && AllDeferred(toScan + 1, now, timers)
      modifies this`queue, this`queuedGen, this`requestedGen, this`requestedAt, this`log
      ensures Valid() && toScan <= |queue| && AllDeferred(toScan, now, timers)
      ensures var tile := old(queue[0]);
              match request
              case Some(r) =>
                && tile < total && r == Request(tile, old(queuedGen[tile])) && received[tile] < r.generation
                && queuedGen == old(queuedGen)[tile := 0] && log == old(log) + Issues([r], now, RequestIntervalNs(timers))
                && requestedGen == old(requestedGen)[tile := r.generation] && requestedAt == old(requestedAt)[tile := now]
              case None =>
                && Idle()
                && (queuedGen == old(queuedGen)
                    || (tile < total && 0 < old(queuedGen[tile]) <= received[tile] && queuedGen == old(queuedGen)[tile := 0]))
    {
      ghost var tile, oldQueue := queue[0], queue;
      request := FlushNext(now, timers);
      TailAfterPop(oldQueue, queue, toScan, tile);
      forall t | 0 <= t < total && queuedGen[t] != 0 && t in queue[toScan..] ensures Deferred(t, now, timers) {
        assert old(queuedGen[t] != 0 && (t in queue[toScan + 1..] || t == tile));
        assert old(Deferred(t, now, timers));
      }
    }

    twostate predicate Idle()
      reads this
    {
      requestedGen == old(requestedGen) && requestedAt == old(requestedAt) && log == old(log)
    }

    /** What the tracking fields rule out is enough: the log may take the request. */
    lemma MayRequest(tile: nat, target: nat, now: nat, timers: Timers)
      requires Sized() && tile < total && 0 < now <= U64_MAX
      requires WellSpaced(log) && LastAt(log) <= now && TrackedInv(log, requestedGen, requestedAt, received)
      requires received[tile] < target && !RecentlyRequested(tile, target, now, timers)
      ensures MayFollow(log, Issue(tile, target, now, RequestIntervalNs(timers)))
    {
      assert Tracked(LastOf(log, tile), requestedGen[tile], requestedAt[tile], received[tile]);
      if LastOf(log, tile).Some? {
        LastOfBefore(log, tile);
      }
    }
  }

  lemma QueuePopped(queued: seq<nat>, queue: seq<nat>)
    requires QueueInv(queued, queue) && queue != []
    ensures forall t :: 0 <= t < |queued| && queued[t] != 0 && t != queue[0] ==> t in queue[1..]
  {
    assert queue == [queue[0]] + queue[1..];
  }

  lemma TailAfterPop(old_: seq<nat>, new_: seq<nat>, from: nat, tile: nat)
    requires from < |old_| && tile == old_[0] && (new_ == old_[1..] || new_ == old_[1..] + [tile])
    ensures from <= |new_|
    ensures forall t :: t in new_[from..] ==> t in old_[from + 1..] || (t == tile && new_ == old_[1..] + [tile])
  {
    assert old_[1..][from..] == old_[from + 1..];
    if new_ == old_[1..] + [tile] { assert new_[from..] == old_[1..][from..] + [tile]; }
  }

  lemma {:induction false} LastOfBefore(log: seq<Issue>, t: int)
    requires WellSpaced(log) && LastOf(log, t).Some?
    ensures LastOf(log, t).value.at <= LastAt(log)
  {
    if log[|log| - 1].tile != t {
      LastOfBefore(log[..|log| - 1], t);
    }
  }
}
