/** Timers and records of the repair scheduler, and the log of repair requests put on the wire: how far apart
    requests for one tile are over a whole run. */
module RepairLog {
  import opened Wrappers

  const U64_MAX: nat := 0xFFFF_FFFF_FFFF_FFFF
  const NO_POSITION: nat := 0xFFFF_FFFF

  const SUMMARY_GRACE_MIN_NS: nat := 150_000_000
  const SUMMARY_GRACE_MAX_NS: nat := 1_200_000_000
  const REQUEST_INTERVAL_MIN_NS: nat := 250_000_000
  const REQUEST_INTERVAL_MAX_NS: nat := 1_200_000_000
  const INFLIGHT_MIN_NS: nat := 250_000_000
  const INFLIGHT_MAX_NS: nat := 1_200_000_000
  const RTT_MAX_NS: nat := 800_000_000
  const GAP_PRESSURE_MIN_NS: nat := 50_000_000
  const GAP_GRACE_NS: nat := 50_000_000
  const CLEAN_INTERVAL_DEFAULT_NS: nat := 200_000_000
  const CLEAN_INTERVAL_MIN_NS: nat := 200_000_000
  const CLEAN_INTERVAL_MAX_NS: nat := 1_000_000_000
  const LARGE_REPAIR_PERCENT: nat := 25
  const LARGE_REPAIR_COOLDOWN_NS: nat := 1_000_000_000
  const PRESSURE_PERCENT: nat := 25
  const PRESSURE_MAX_TILES: nat := 2048
  const REPAIR_RETRY_MIN_NS: nat := 10_000_000
  const NSEC_PER_MSEC: nat := 1_000_000

  // ----- timers

  /** The link timers as other threads last stored them; arbitrary, every use clamps them. */
  datatype Timers = Timers(requestInterval: nat, inflightGrace: nat, summaryGrace: nat, gapPressure: nat,
                           cleanSummaryMs: nat, lossSignalUntil: nat)

  function Min(a: nat, b: nat): nat { if a < b then a else b }

  function Max(a: nat, b: nat): nat { if a < b then b else a }

  function Clamp(ns: nat, lo: nat, hi: nat): nat { Max(lo, Min(hi, ns)) }

  function GapPressureNs(t: Timers): nat { Clamp(t.gapPressure, 0, RTT_MAX_NS) }

  function SummaryGraceNs(t: Timers): nat
  {
    var grace := Clamp(t.summaryGrace, SUMMARY_GRACE_MIN_NS, SUMMARY_GRACE_MAX_NS);
    if GapPressureNs(t) < GAP_PRESSURE_MIN_NS then grace else
      Max(grace, Clamp(GapPressureNs(t) + GAP_GRACE_NS, SUMMARY_GRACE_MIN_NS, SUMMARY_GRACE_MAX_NS))
  }

  /** However the stored interval and the gap pressure stand, requests are spaced by 250 to 1200 ms. */
  function RequestIntervalNs(t: Timers): (ns: nat)
    ensures REQUEST_INTERVAL_MIN_NS <= ns <= REQUEST_INTERVAL_MAX_NS
  {
    var interval := Clamp(t.requestInterval, REQUEST_INTERVAL_MIN_NS, REQUEST_INTERVAL_MAX_NS);
    if GapPressureNs(t) < GAP_PRESSURE_MIN_NS then interval else
      Max(interval, Clamp(GapPressureNs(t) * 2, REQUEST_INTERVAL_MIN_NS, REQUEST_INTERVAL_MAX_NS))
  }

  function InflightGraceNs(t: Timers): nat
  {
    var grace := Clamp(t.inflightGrace, INFLIGHT_MIN_NS, INFLIGHT_MAX_NS);
    if GapPressureNs(t) < GAP_PRESSURE_MIN_NS then grace else
      Max(grace, Clamp(GapPressureNs(t) * 2, INFLIGHT_MIN_NS, INFLIGHT_MAX_NS))
  }

  function CleanIntervalNs(t: Timers): nat
  {
    Clamp(if t.cleanSummaryMs == 0 then CLEAN_INTERVAL_DEFAULT_NS else t.cleanSummaryMs * NSEC_PER_MSEC,
          CLEAN_INTERVAL_MIN_NS, CLEAN_INTERVAL_MAX_NS)
  }

  function LargeRepairGraceNs(t: Timers): nat { Max(SummaryGraceNs(t), Max(RequestIntervalNs(t), CleanIntervalNs(t))) }

  /** now - since in 64-bit arithmetic. */
  function Elapsed(now: nat, since: nat): int { if now >= since then now - since else now + (U64_MAX + 1) - since }

  function SaturatingAdd(a: nat, b: nat): nat { if a + b > U64_MAX then U64_MAX else a + b }

  // ----- records

  datatype Announcement = Announcement(tile: nat, generation: nat)

  datatype Request = Request(tile: nat, generation: nat)

  datatype Due = Due(tile: nat, generation: nat, dueNs: nat)

  datatype Candidate = Candidate(tile: nat, generation: nat, since: nat)

  /** A repair request put on the wire, with the interval in force when it was. */
  datatype Issue = Issue(tile: nat, generation: nat, at: nat, interval: nat)

  /** The received, in-flight and requested state per base tile, as a summary or a promotion finds it. */
  datatype Seen = Seen(received: seq<nat>, inflightGen: seq<nat>, inflightSince: seq<nat>, requestedGen: seq<nat>, requestedAt: seq<nat>)
  {
    predicate Sized(total: nat)
    {
      |received| == |inflightGen| == |inflightSince| == |requestedGen| == |requestedAt| == total
    }
  }

  /** Generation g or a newer one was seen at a time less than a window ago. */
  predicate Within(seen: nat, at: nat, g: nat, now: nat, window: nat)
  {
    seen >= g && at != 0 && Elapsed(now, at) < window
  }

  /** A packet of the generation came within the in-flight grace, or it was requested within the request interval. */
  predicate Busy(v: Seen, t: nat, g: nat, now: nat, timers: Timers)
    requires v.Sized(|v.received|) && t < |v.received|
  {
    || Within(v.inflightGen[t], v.inflightSince[t], g, now, InflightGraceNs(timers))
    || Within(v.requestedGen[t], v.requestedAt[t], g, now, RequestIntervalNs(timers))
  }

  predicate OlderFirst(a: Candidate, b: Candidate)
  {
    if a.since != b.since then a.since < b.since else a.tile <= b.tile
  }

  // ----- invariants, over field values

  /** The dense list of pending tiles and the position table are inverses of each other. */
  ghost predicate IndexInv(total: nat, tiles: seq<nat>, positions: seq<nat>)
  {
    && |positions| == total <= 0xFFFF
    && (forall i :: 0 <= i < |tiles| ==> tiles[i] < total)
    && (forall i :: 0 <= i < |tiles| ==> positions[tiles[i]] == i)
    && (forall t :: 0 <= t < total && positions[t] != NO_POSITION ==> positions[t] < |tiles| && tiles[positions[t]] == t)
  }

  /** A tile has a pending generation exactly when it is indexed, and then it also has an age. */
  ghost predicate PendingInv(total: nat, gens: seq<nat>, since: seq<nat>, positions: seq<nat>)
  {
    && |gens| == |since| == |positions| == total
    && (forall t :: 0 <= t < total ==> (gens[t] != 0 <==> positions[t] != NO_POSITION))
    && (forall t :: 0 <= t < total ==> (gens[t] != 0 <==> since[t] != 0))
  }

  ghost predicate HasDue(due: seq<Due>, t: nat, g: nat)
  {
    exists k :: 0 <= k < |due| && due[k].tile == t && due[k].generation == g
  }

  ghost predicate DueInv(gens: seq<nat>, due: seq<Due>)
  {
    forall t :: 0 <= t < |gens| && gens[t] != 0 ==> HasDue(due, t, gens[t])
  }

  /** Queued generations are reachable from the queue; stale ids may be queued as well. */
  ghost predicate QueueInv(queued: seq<nat>, queue: seq<nat>)
  {
    forall t :: 0 <= t < |queued| && queued[t] != 0 ==> t in queue
  }

  /** Two requests for one tile, the later not for a newer generation, are at least 250 ms apart. */
  ghost predicate Spaced(log: seq<Issue>)
  {
    forall i, j :: 0 <= i < j < |log| && log[i].tile == log[j].tile && log[j].generation <= log[i].generation
      ==> log[j].at - log[i].at >= REQUEST_INTERVAL_MIN_NS
  }

  /** No request for the tile of i lies strictly between i and j. */
  ghost predicate Adjacent(log: seq<Issue>, i: int, j: int)
    requires 0 <= i < j < |log|
  {
    forall k :: i < k < j ==> log[k].tile != log[i].tile
  }

  /** Consecutive requests for one tile keep the interval that was in force at the later one. */
  ghost predicate ConsecutiveSpaced(log: seq<Issue>)
  {
    forall i, j :: 0 <= i < j < |log| && log[i].tile == log[j].tile && log[j].generation <= log[i].generation
                   && Adjacent(log, i, j)
      ==> log[j].at - log[i].at >= log[j].interval
  }

  // ----- the request log, built one request at a time

  ghost function LastOf(log: seq<Issue>, t: int): Option<Issue>
  {
    if log == [] then None
    else if log[|log| - 1].tile == t then Some(log[|log| - 1])
    else LastOf(log[..|log| - 1], t)
  }

  ghost function LastAt(log: seq<Issue>): nat { if log == [] then 0 else log[|log| - 1].at }

  /** Highest generation requested for a tile. */
  ghost function MaxRequested(log: seq<Issue>, t: int): nat
  {
    if log == [] then 0 else
      var rest := MaxRequested(log[..|log| - 1], t);
      if log[|log| - 1].tile == t then Max(rest, log[|log| - 1].generation) else rest
  }

  /** A request may follow the log if it is not for a newer generation only after the interval in force. */
  ghost predicate MayFollow(log: seq<Issue>, e: Issue)
  {
    && LastAt(log) <= e.at && REQUEST_INTERVAL_MIN_NS <= e.interval
    && match LastOf(log, e.tile)
       case None => true
       case Some(p) => e.generation <= p.generation ==> e.at - p.at >= e.interval
  }

  ghost predicate WellSpaced(log: seq<Issue>)
  {
    log == [] || (WellSpaced(log[..|log| - 1]) && MayFollow(log[..|log| - 1], log[|log| - 1]))
  }

  lemma Appended(log: seq<Issue>, e: Issue)
    ensures WellSpaced(log + [e]) == (WellSpaced(log) && MayFollow(log, e))
    ensures LastAt(log + [e]) == e.at
    ensures forall t :: LastOf(log + [e], t) == if t == e.tile then Some(e) else LastOf(log, t)
    ensures forall t :: MaxRequested(log + [e], t) == if t == e.tile then Max(MaxRequested(log, t), e.generation) else MaxRequested(log, t)
  {
    assert (log + [e])[..|log|] == log;
  }

  /** The requests of one message as log records. */
  ghost function Issues(requests: seq<Request>, at: nat, interval: nat): seq<Issue>
  {
    seq(|requests|, i requires 0 <= i < |requests| => Issue(requests[i].tile, requests[i].generation, at, interval))
  }

  lemma IssuesJoin(log: seq<Issue>, sent: seq<Request>, requests: seq<Request>, at: nat, interval: nat)
    requires sent <= requests
    ensures log + Issues(sent, at, interval) + Issues(requests[|sent|..], at, interval) == log + Issues(requests, at, interval)
  {}

  lemma {:induction false} MaxRequestedJoins(a: seq<Issue>, b: seq<Issue>, t: int)
    ensures MaxRequested(a + b, t) == Max(MaxRequested(a, t), MaxRequested(b, t))
  {
    if b == [] {
      assert a + b == a;
    } else {
      MaxRequestedJoins(a, b[..|b| - 1], t);
      assert (a + b)[..|a + b| - 1] == a + b[..|b| - 1];
    }
  }

  lemma {:induction false} MaxRequestedCovers(log: seq<Issue>, i: int)
    requires 0 <= i < |log|
    ensures MaxRequested(log, log[i].tile) >= log[i].generation
  {
    if i < |log| - 1 { MaxRequestedCovers(log[..|log| - 1], i); }
  }

  /** LastOf finds the latest request of a tile. */
  lemma {:induction false} LastIndex(log: seq<Issue>, i: int) returns (k: int)
    requires 0 <= i < |log|
    ensures i <= k < |log| && log[k].tile == log[i].tile && LastOf(log, log[i].tile) == Some(log[k])
    ensures forall m :: k < m < |log| ==> log[m].tile != log[i].tile
  {
    var n := |log| - 1;
    if log[n].tile == log[i].tile {
      k := n;
    } else {
      k := LastIndex(log[..n], i);
      assert forall m :: 0 <= m < n ==> log[..n][m] == log[m];
    }
  }

  ghost predicate InOrder(log: seq<Issue>)
  {
    forall i, j :: 0 <= i < j < |log| ==> log[i].at <= log[j].at
  }

  lemma {:induction false} RequestsInOrder(log: seq<Issue>)
    requires WellSpaced(log)
    ensures InOrder(log)
  {
    if log != [] {
      var n := |log| - 1;
      RequestsInOrder(log[..n]);
      assert forall i :: 0 <= i < n ==> log[..n][i] == log[i];
      assert n > 0 ==> log[n - 1].at <= log[n].at;
    }
  }

  /** A new request against any earlier one of its tile. */
  lemma NewRequestSpaced(log: seq<Issue>, i: int, e: Issue)
    requires Spaced(log) && InOrder(log) && MayFollow(log, e) && 0 <= i < |log|
    requires log[i].tile == e.tile && e.generation <= log[i].generation
    ensures e.at - log[i].at >= REQUEST_INTERVAL_MIN_NS
    ensures (forall m :: i < m < |log| ==> log[m].tile != e.tile) ==> e.at - log[i].at >= e.interval
  {
    var k := LastIndex(log, i);
    if k > i && log[k].generation <= log[i].generation {
      assert log[k].at - log[i].at >= REQUEST_INTERVAL_MIN_NS;
    }
  }

  /** Over the whole log: any two requests for a tile of which the later is not for a newer generation are
      250 ms apart, and consecutive ones keep the interval in force. */
  lemma {:induction false} RequestsAreSpaced(log: seq<Issue>)
    requires WellSpaced(log)
    ensures Spaced(log) && ConsecutiveSpaced(log)
  {
    if log != [] {
      var n := |log| - 1;
      var front := log[..n];
      RequestsAreSpaced(front);
      RequestsInOrder(front);
      forall i | 0 <= i < n && log[i].tile == log[n].tile && log[n].generation <= log[i].generation
        ensures log[n].at - log[i].at >= REQUEST_INTERVAL_MIN_NS
        ensures Adjacent(log, i, n) ==> log[n].at - log[i].at >= log[n].interval
      {
        NewRequestSpaced(front, i, log[n]);
      }
      SpacedExtends(front, log);
    }
  }

  lemma SpacedExtends(front: seq<Issue>, log: seq<Issue>)
    requires |log| == |front| + 1 && front == log[..|front|]
    requires Spaced(front) && ConsecutiveSpaced(front)
    requires forall i :: 0 <= i < |front| && log[i].tile == log[|front|].tile && log[|front|].generation <= log[i].generation
               ==> && log[|front|].at - log[i].at >= REQUEST_INTERVAL_MIN_NS
                   && (Adjacent(log, i, |front|) ==> log[|front|].at - log[i].at >= log[|front|].interval)
    ensures Spaced(log) && ConsecutiveSpaced(log)
  {
    assert forall i :: 0 <= i < |front| ==> front[i] == log[i];
    assert forall i, j :: 0 <= i < j < |front| && Adjacent(log, i, j) ==> Adjacent(front, i, j);
  }

  // ----- the dense index never outgrows the grid

  lemma {:induction false} DistinctBelow(s: seq<nat>, n: nat)
    requires forall i :: 0 <= i < |s| ==> s[i] < n
    requires forall i, j :: 0 <= i < j < |s| ==> s[i] != s[j]
    ensures |s| <= n
  {
    if s != [] {
      assert s[0] < n;
      if n - 1 in s {
        var k :| 0 <= k < |s| && s[k] == n - 1;
        DistinctBelow(s[..k] + s[k + 1..], n - 1);
      } else {
        DistinctBelow(s, n - 1);
      }
    }
  }
}
