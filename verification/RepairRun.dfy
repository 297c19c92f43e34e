/** Whole runs of the repair scheduler: any sequence of summaries, promotions, flushes, completions and lost
    partial tiles, at non-decreasing times. */
module RepairRun {
  import opened RepairLog
  import opened RepairPlan
  import opened RepairTables
  import opened RepairScheduler

  datatype Event =
    | SummaryArrived(entries: seq<Announcement>)
    | PromoteDue
    | FlushRequests(limit: nat)
    | TileCompleted(tiles: seq<int>, generation: nat)
    | PartialLost(tiles: seq<int>, generation: nat)

  datatype Timed = Timed(event: Event, at: nat, timers: Timers)

  /** The event tells the client that a generation of a tile exists, or loses one that was arriving. */
  ghost predicate Owes(e: Event, t: int, g: int)
  {
    match e
    case SummaryArrived(entries) => exists i :: 0 <= i < |entries| && entries[i].tile == t && entries[i].generation == g
    case PartialLost(tiles, generation) => t in tiles && g == generation
    case _ => false
  }

  ghost predicate OnGrid(e: Event, size: nat)
  {
    match e
    case SummaryArrived(entries) => InGrid(entries, size)
    case TileCompleted(tiles, _) => forall k :: 0 <= k < |tiles| ==> 0 <= tiles[k] < size
    case PartialLost(tiles, _) => forall k :: 0 <= k < |tiles| ==> 0 <= tiles[k] < size
    case _ => true
  }

  ghost predicate AnnouncedAt(run: seq<Timed>, i: int, t: int, g: int)
    requires 0 <= i < |run|
  {
    run[i].event.SummaryArrived? && Owes(run[i].event, t, g)
  }

  /** What the server promises: a summary lists a tile once, and announced generations of a tile never decrease. */
  ghost predicate ServerPromise(run: seq<Timed>)
  {
    && (forall i :: 0 <= i < |run| && run[i].event.SummaryArrived? ==> ListsOnce(run[i].event.entries))
    && (forall i, j, t, g, h :: 0 <= i < j < |run| && AnnouncedAt(run, i, t, g) && AnnouncedAt(run, j, t, h) ==> g <= h)
  }

  ghost predicate WellTimed(run: seq<Timed>, size: nat)
  {
    && (forall i :: 0 <= i < |run| ==> 0 < run[i].at <= U64_MAX && OnGrid(run[i].event, size))
    && (forall i, j :: 0 <= i < j < |run| ==> run[i].at <= run[j].at)
  }

  /** Pending generations come from the first n events. */
  ghost predicate FromRun(run: seq<Timed>, n: nat, gens: seq<nat>)
    requires n <= |run|
  {
    forall t :: 0 <= t < |gens| && gens[t] != 0 ==> exists i :: 0 <= i < n && AnnouncedAt(run, i, t, gens[t])
  }

  lemma PromiseIsForward(run: seq<Timed>, n: nat, gens: seq<nat>)
    requires n < |run| && run[n].event.SummaryArrived? && OnGrid(run[n].event, |gens|)
    requires ServerPromise(run) && FromRun(run, n, gens)
    ensures Forward(run[n].event.entries, gens)
  {
    var entries := run[n].event.entries;
    forall k | 0 <= k < |entries| ensures gens[entries[k].tile] <= entries[k].generation {
      var t := entries[k].tile;
      if gens[t] != 0 {
        var i :| 0 <= i < n && AnnouncedAt(run, i, t, gens[t]);
        assert AnnouncedAt(run, n, t, entries[k].generation);
      }
    }
  }

  lemma FromRunStep(run: seq<Timed>, n: nat, gens: seq<nat>, gens': seq<nat>)
    requires n < |run| && FromRun(run, n, gens) && |gens| == |gens'|
    requires forall t :: 0 <= t < |gens| ==> gens'[t] == 0 || gens'[t] == gens[t] || AnnouncedAt(run, n, t, gens'[t])
    ensures FromRun(run, n + 1, gens')
  {
    forall t | 0 <= t < |gens| && gens'[t] != 0 ensures exists i :: 0 <= i < n + 1 && AnnouncedAt(run, i, t, gens'[t]) {
      if !AnnouncedAt(run, n, t, gens'[t]) {
        var i :| 0 <= i < n && AnnouncedAt(run, i, t, gens[t]);
      }
    }
  }

  /** The requests an event put on the wire: those of one message, or none. */
  ghost predicate SentBy(e: Timed, issues: seq<Issue>)
  {
    if e.event.FlushRequests?
    then && |issues| <= e.event.limit && (forall i, j :: 0 <= i < j < |issues| ==> issues[i].tile != issues[j].tile)
         && (forall i :: 0 <= i < |issues| ==> issues[i].at == e.at && issues[i].interval == RequestIntervalNs(e.timers))
    else issues == []
  }

  /** The marks cut the log into what each of the first n events put on the wire. */
  ghost predicate Cut(run: seq<Timed>, n: nat, marks: seq<nat>, log: seq<Issue>)
  {
    && n <= |run| && |marks| == n + 1 && marks[0] == 0 && marks[n] == |log|
    && forall i :: 0 <= i < n ==> CutAt(run[i], marks, log, i)
  }

  ghost predicate CutAt(e: Timed, marks: seq<nat>, log: seq<Issue>, i: int)
    requires 0 <= i < |marks| - 1
  {
    marks[i] <= marks[i + 1] <= |log| && SentBy(e, log[marks[i]..marks[i + 1]])
  }

  lemma CutStep(run: seq<Timed>, n: nat, marks: seq<nat>, log: seq<Issue>, log': seq<Issue>)
    requires n < |run| && Cut(run, n, marks, log) && log <= log' && SentBy(run[n], log'[|log|..])
    ensures Cut(run, n + 1, marks + [|log'|], log')
  {
    var marks' := marks + [|log'|];
    forall i | 0 <= i < n ensures CutAt(run[i], marks', log', i) {
      assert CutAt(run[i], marks, log, i);
      assert log'[marks[i]..marks[i + 1]] == log[marks[i]..marks[i + 1]];
    }
    assert log'[marks'[n]..marks'[n + 1]] == log'[|log|..];
  }

  /** What every step keeps: the scheduler's invariants, and a log that grows by what the event sent. */
  twostate predicate StepSends(s: Scheduler, e: Timed)
    reads s, s.pending, s.requests
    requires old(s.Valid())
  {
    && s.Valid() && s.requests.clock == (if e.event.FlushRequests? then e.at else old(s.requests.clock))
    && old(s.requests.log) <= s.requests.log && SentBy(e, s.requests.log[|old(s.requests.log)|..])
  }

  datatype Tables = Tables(received: seq<nat>, gens: seq<nat>, queued: seq<nat>, log: seq<Issue>)
  {
    ghost predicate Sized() { |received| == |gens| == |queued| }

    /** The newest generation of a tile that is received, pending, queued, or requested from a position of the log on. */
    ghost function KnownSince(t: int, mark: nat): nat
      requires Sized() && 0 <= t < |received| && mark <= |log|
    {
      Known(t, received, gens, queued, log[mark..])
    }
  }

  ghost function TablesOf(s: Scheduler): (r: Tables)
    reads s, s.pending, s.requests
    requires s.Valid()
    ensures r.Sized()
  {
    Tables(s.requests.received, s.pending.gens, s.requests.queuedGen, s.requests.log)
  }

  /** Moving a generation between the tables never lowers what is known, from wherever in the log one counts. */
  lemma KnownGrows(a: Tables, b: Tables)
    requires a.Sized() && b.Sized() && Grown(a.received, b.received) && a.log <= b.log
    requires HandedOver(a.gens, b.gens, b.received, b.queued)
    requires forall t :: 0 <= t < |a.queued| ==>
               b.queued[t] >= a.queued[t] || b.received[t] >= a.queued[t] || MaxRequested(b.log[|a.log|..], t) >= a.queued[t]
    ensures forall t, mark :: 0 <= t < |a.received| && 0 <= mark <= |a.log| ==> a.KnownSince(t, mark) <= b.KnownSince(t, mark)
  {
    forall t, mark | 0 <= t < |a.received| && 0 <= mark <= |a.log| ensures a.KnownSince(t, mark) <= b.KnownSince(t, mark) {
      assert b.log[mark..] == a.log[mark..] + b.log[|a.log|..];
      MaxRequestedJoins(a.log[mark..], b.log[|a.log|..], t);
      assert !Lost(t, a.gens[t], b.gens, b.received, b.queued);
    }
  }

  /** Everything known stays known, and what the event itself owes is known without any request made before it. */
  ghost predicate StepKeeps(e: Event, a: Tables, b: Tables)
    requires a.Sized() && b.Sized() && |a.received| == |b.received| && a.log <= b.log
  {
    && (forall t, mark :: 0 <= t < |a.received| && 0 <= mark <= |a.log| ==> a.KnownSince(t, mark) <= b.KnownSince(t, mark))
    && (forall t, g :: 0 <= t < |a.received| && Owes(e, t, g) ==> g <= b.KnownSince(t, |a.log|))
  }

  ghost predicate Ready(s: Scheduler, e: Timed)
    reads s, s.pending, s.requests
  {
    s.Valid() && s.requests.clock <= e.at && 0 < e.at <= U64_MAX && OnGrid(e.event, s.requests.total)
  }

  method StepSummary(s: Scheduler, e: Timed)
    requires Ready(s, e) && e.event.SummaryArrived?
    modifies s, s.pending, s.requests
    ensures StepSends(s, e)
    ensures Forward(e.event.entries, old(s.pending.gens)) ==> StepKeeps(e.event, old(TablesOf(s)), TablesOf(s))
    ensures forall t :: 0 <= t < s.requests.total ==>
              s.pending.gens[t] == 0 || s.pending.gens[t] == old(s.pending.gens[t]) || Owes(e.event, t, s.pending.gens[t])
  {
    ghost var before := TablesOf(s);
    var _ := s.HandleSummary(e.event.entries, e.at, e.timers);
    if Forward(e.event.entries, before.gens) {
      KnownGrows(before, TablesOf(s));
      SummaryOwes(e.event, before.received, s.pending.gens, s.requests.queuedGen, []);
    }
    assert forall t :: 0 <= t < s.requests.total && Announces(e.event.entries, |e.event.entries|, t, s.pending.gens[t])
             ==> Owes(e.event, t, s.pending.gens[t]);
  }

  lemma SummaryOwes(e: Event, received: seq<nat>, gens: seq<nat>, queued: seq<nat>, log: seq<Issue>)
    requires e.SummaryArrived? && Kept(e.entries, gens, received, queued) && OnGrid(e, |gens|)
    ensures forall t, g :: 0 <= t < |gens| && Owes(e, t, g) ==> g <= Known(t, received, gens, queued, log)
  {
    forall t, g | 0 <= t < |gens| && Owes(e, t, g) ensures g <= Known(t, received, gens, queued, log) {
      var i :| 0 <= i < |e.entries| && e.entries[i].tile == t && e.entries[i].generation == g;
      assert !Lost(e.entries[i].tile, e.entries[i].generation, gens, received, queued);
    }
  }

  method StepPromote(s: Scheduler, e: Timed)
    requires Ready(s, e) && e.event.PromoteDue?
    modifies s, s.pending, s.requests
    ensures StepSends(s, e) && StepKeeps(e.event, old(TablesOf(s)), TablesOf(s))
    ensures forall t :: 0 <= t < s.requests.total ==> s.pending.gens[t] == 0 || s.pending.gens[t] == old(s.pending.gens[t])
  {
    ghost var before := TablesOf(s);
    s.Promote(e.at, e.timers);
    KnownGrows(before, TablesOf(s));
  }

  method StepFlush(s: Scheduler, e: Timed)
    requires Ready(s, e) && e.event.FlushRequests?
    modifies s.requests
    ensures StepSends(s, e) && StepKeeps(e.event, old(TablesOf(s)), TablesOf(s)) && s.pending.gens == old(s.pending.gens)
  {
    ghost var before := TablesOf(s);
    var requests := s.requests.Flush(e.at, e.timers, e.event.limit);
    FlushSends(e, before, TablesOf(s), requests);
    KnownGrows(before, TablesOf(s));
  }

  lemma FlushSends(e: Timed, a: Tables, b: Tables, requests: seq<Request>)
    requires a.Sized() && b.Sized() && a.received == b.received && e.event.FlushRequests?
    requires b.log == a.log + Issues(requests, e.at, RequestIntervalNs(e.timers)) && |requests| <= e.event.limit
    requires forall i, j :: 0 <= i < j < |requests| ==> requests[i].tile != requests[j].tile
    requires forall t :: 0 <= t < |a.queued| && a.queued[t] != 0 ==>
               b.queued[t] == a.queued[t] || b.received[t] >= a.queued[t] || Request(t, a.queued[t]) in requests
    ensures a.log <= b.log && SentBy(e, b.log[|a.log|..])
    ensures forall t :: 0 <= t < |a.queued| ==>
              b.queued[t] >= a.queued[t] || b.received[t] >= a.queued[t] || MaxRequested(b.log[|a.log|..], t) >= a.queued[t]
  {
    var sent := Issues(requests, e.at, RequestIntervalNs(e.timers));
    assert b.log[|a.log|..] == sent;
    forall t | 0 <= t < |a.queued| && Request(t, a.queued[t]) in requests ensures MaxRequested(sent, t) >= a.queued[t] {
      var i :| 0 <= i < |requests| && requests[i] == Request(t, a.queued[t]);
      MaxRequestedCovers(sent, i);
    }
  }

  method StepComplete(s: Scheduler, e: Timed)
    requires Ready(s, e) && e.event.TileCompleted?
    modifies s.pending, s.requests
    ensures StepSends(s, e) && StepKeeps(e.event, old(TablesOf(s)), TablesOf(s))
    ensures forall t :: 0 <= t < s.requests.total ==> s.pending.gens[t] == 0 || s.pending.gens[t] == old(s.pending.gens[t])
  {
    ghost var before := TablesOf(s);
    s.Complete(e.event.tiles, e.event.generation);
    KnownGrows(before, TablesOf(s));
  }

  method StepLost(s: Scheduler, e: Timed)
    requires Ready(s, e) && e.event.PartialLost?
    modifies s.requests
    ensures StepSends(s, e) && StepKeeps(e.event, old(TablesOf(s)), TablesOf(s)) && s.pending.gens == old(s.pending.gens)
  {
    ghost var before := TablesOf(s);
    s.requests.RepairPartials(e.event.tiles, e.event.generation);
    KnownGrows(before, TablesOf(s));
  }

  /** The debts of the first n events, each counted from the log as it stood at its event. */
  ghost predicate Settled(run: seq<Timed>, n: nat, marks: seq<nat>, b: Tables)
    requires b.Sized() && n <= |run| && n <= |marks|
  {
    forall i, t, g :: 0 <= i < n && 0 <= t < |b.received| && Owes(run[i].event, t, g) ==> marks[i] <= |b.log| && g <= b.KnownSince(t, marks[i])
  }

  /** Over every run in which the server keeps its promise: each generation that was announced, or whose partial tile was
      lost, ends received, pending, queued, or requested after that event, at that generation or newer; and over every
      run at all, requests for one tile are spaced. The marks say how many requests had been made before each event. */
  method Execute(run: seq<Timed>, size: nat) returns (s: Scheduler, ghost marks: seq<nat>)
    requires size <= 0xFFFF && WellTimed(run, size)
    ensures fresh(s) && s.Valid() && s.requests.total == size
    ensures Cut(run, |run|, marks, s.requests.log) && (ServerPromise(run) ==> Settled(run, |run|, marks, TablesOf(s)))
    ensures Spaced(s.requests.log) && ConsecutiveSpaced(s.requests.log)
  {
    s := new Scheduler(size);
    marks := [0];
    for n := 0 to |run|
      invariant fresh(s) && fresh(s.pending) && fresh(s.requests) && s.Valid() && s.requests.total == size
      invariant FromRun(run, n, s.pending.gens) && Cut(run, n, marks, s.requests.log)
      invariant n < |run| ==> s.requests.clock <= run[n].at
      invariant ServerPromise(run) ==> Settled(run, n, marks, TablesOf(s))
    {
      Step(s, run, n, marks);
      marks := marks + [|s.requests.log|];
    }
    RequestsAreSpaced(s.requests.log);
  }

  method Step(s: Scheduler, run: seq<Timed>, n: nat, ghost marks: seq<nat>)
    requires n < |run| && Ready(s, run[n]) && FromRun(run, n, s.pending.gens) && Cut(run, n, marks, s.requests.log)
    requires ServerPromise(run) ==> Settled(run, n, marks, TablesOf(s))
    modifies s, s.pending, s.requests
    ensures s.Valid() && FromRun(run, n + 1, s.pending.gens) && Cut(run, n + 1, marks + [|s.requests.log|], s.requests.log)
    ensures s.requests.clock == old(s.requests.clock) || s.requests.clock == run[n].at
    ensures ServerPromise(run) ==> Settled(run, n + 1, marks + [|s.requests.log|], TablesOf(s))
  {
    ghost var gens, log := s.pending.gens, s.requests.log;
    match run[n].event {
      case SummaryArrived(entries) =>
        if ServerPromise(run) {
          PromiseIsForward(run, n, gens);
        }
        StepSummary(s, run[n]);
      case PromoteDue => StepPromote(s, run[n]);
      case FlushRequests(limit) => StepFlush(s, run[n]);
      case TileCompleted(tiles, generation) => StepComplete(s, run[n]);
      case PartialLost(tiles, generation) => StepLost(s, run[n]);
    }
    FromRunStep(run, n, gens, s.pending.gens);
    CutStep(run, n, marks, log, s.requests.log);
    if ServerPromise(run) {
      SettledStep(run, n, marks, old(TablesOf(s)), TablesOf(s));
    }
  }

  lemma SettledStep(run: seq<Timed>, n: nat, marks: seq<nat>, a: Tables, b: Tables)
    requires a.Sized() && b.Sized() && |a.received| == |b.received| && a.log <= b.log
    requires n < |run| && Cut(run, n, marks, a.log) && Settled(run, n, marks, a) && StepKeeps(run[n].event, a, b)
    ensures Settled(run, n + 1, marks + [|b.log|], b)
  {
    var marks' := marks + [|b.log|];
    forall i, t, g | 0 <= i < n + 1 && 0 <= t < |b.received| && Owes(run[i].event, t, g)
      ensures marks'[i] <= |b.log| && g <= b.KnownSince(t, marks'[i])
    {
      if i < n { assert marks[i] <= |a.log| && g <= a.KnownSince(t, marks[i]); }
    }
  }

  // ----- overdue announcements are asked for

  ghost predicate Asked(requests: seq<Request>, t: nat, g: nat)
  {
    exists i :: 0 <= i < |requests| && requests[i].tile == t && requests[i].generation >= g
  }

  /** A flush with room in its message requests every queued generation that is neither received nor on the way. */
  method AskQueued(r: RequestTable, now: nat, timers: Timers, limit: nat) returns (requests: seq<Request>)
    requires r.Valid() && r.clock <= now && 0 < now <= U64_MAX
    modifies r
    ensures r.Valid()
    ensures |requests| < limit ==>
              forall t :: 0 <= t < r.total && old(r.received[t] < r.queuedGen[t] && !Busy(r.View(), t, r.queuedGen[t], now, timers)) ==>
                Asked(requests, t, old(r.queuedGen[t]))
  {
    requests := r.Flush(now, timers, limit);
    if |requests| < limit {
      forall t | 0 <= t < r.total && old(r.received[t] < r.queuedGen[t] && !Busy(r.View(), t, r.queuedGen[t], now, timers))
        ensures Asked(requests, t, old(r.queuedGen[t]))
      {
        assert Named(requests, t);
      }
    }
  }

  /** Promotion followed by a flush, as the receive loop does: every overdue generation is requested in the same pass, at
      that generation or a newer queued one, unless the promotion is held back or the message is full. */
  method AskOverdue(s: Scheduler, now: nat, timers: Timers, limit: nat) returns (requests: seq<Request>)
    requires s.Valid() && s.requests.clock <= now && 0 < now < U64_MAX
    modifies s, s.pending, s.requests
    ensures s.Valid()
    ensures !old(s.HeldBack(now, timers)) && |requests| < limit ==>
              forall d :: d in old(s.OverdueRecords(now, timers)) ==> Asked(requests, d.tile, d.generation)
  {
    ghost var overdue := s.OverdueRecords(now, timers);
    PromoteOverdue(s, now, timers);
    ghost var queued := s.requests.queuedGen;
    requests := AskQueued(s.requests, now, timers, limit);
    forall d | !old(s.HeldBack(now, timers)) && |requests| < limit && d in overdue ensures Asked(requests, d.tile, d.generation) {
      assert Asked(requests, d.tile, queued[d.tile]);
    }
  }

  /** A promotion that is not held back queues every overdue generation, and nothing of it is on the way. */
  method PromoteOverdue(s: Scheduler, now: nat, timers: Timers)
    requires s.Valid() && now < U64_MAX
    modifies s, s.pending, s.requests
    ensures s.Valid() && s.requests.clock == old(s.requests.clock)
    ensures !old(s.HeldBack(now, timers)) ==>
              forall d :: d in old(s.OverdueRecords(now, timers)) ==>
                && d.tile < s.requests.total && s.requests.queuedGen[d.tile] >= d.generation > s.requests.received[d.tile]
                && !Busy(s.requests.View(), d.tile, s.requests.queuedGen[d.tile], now, timers)
  {
    ghost var v, asked, overdue, held := s.requests.View(), s.PromotedFrom(now, timers), s.OverdueRecords(now, timers), s.HeldBack(now, timers);
    if !held { s.AllOverduePromoted(now, timers); }
    PromoteAsked(s, now, timers);
    if !held {
      forall d | d in overdue
        ensures s.requests.queuedGen[d.tile] >= d.generation && !Busy(v, d.tile, s.requests.queuedGen[d.tile], now, timers)
      {
        PromotedIsQueued(d, asked, v, now, timers, old(s.requests.queuedGen), s.requests.queuedGen);
      }
    }
  }

  method PromoteAsked(s: Scheduler, now: nat, timers: Timers)
    requires s.Valid()
    modifies s, s.pending, s.requests
    ensures s.Valid() && s.requests.clock == old(s.requests.clock) && s.requests.View() == old(s.requests.View())
    ensures var asked := old(s.PromotedFrom(now, timers)); QueuedBy(asked, |asked|, old(s.requests.queuedGen), s.requests.queuedGen)
  {
    s.Promote(now, timers);
  }

  /** The due queue is looked at from its head only: a record that is due, of a generation that is neither received nor on
      the way, waits behind one that is due later, although the promotion is not held back. */
  method LateHeadDelays() returns (s: Scheduler, now: nat, timers: Timers)
    ensures fresh(s) && s.Valid() && !s.HeldBack(now, timers) && s.PromotedFrom(now, timers) == []
    ensures |s.pending.due| == 2 && s.pending.due[1].dueNs <= now
    ensures Matures(s.pending.due[1], s.pending.gens, s.pending.since, s.requests.View(), now, timers)
  {
    s := new Scheduler(2);
    var slow := Timers(0, 0, 1_200_000_000, 0, 0, 0);
    now, timers := 1_000_000_000, Timers(0, 0, 0, 0, 0, 0);
    AnnounceOne(s, Announcement(0, 1), 1, slow);
    AnnounceOne(s, Announcement(1, 1), 2, timers);
    assert s.pending.due == [Due(0, 1, 1_200_000_001), Due(1, 1, 150_000_002)];
  }

  // ----- why a summary must be forward

  /** A summary that goes back behind a pending generation, to one that is received, forgets the pending one: 7 was
      announced and is nowhere afterwards. */
  method BackwardSummaryForgets() returns (received: nat, pending: nat, queued: nat)
    ensures received == 4 && pending == 0 && queued == 0
  {
    var s := new Scheduler(1);
    var timers := Timers(0, 0, 0, 0, 0, 0);
    AnnounceOne(s, Announcement(0, 7), 1, timers);
    s.Complete([0], 4);
    assert [0][..1] == [0];
    AnnounceOne(s, Announcement(0, 3), 2, timers);
    return s.requests.received[0], s.pending.gens[0], s.requests.queuedGen[0];
  }

  /** A summary of one announcement that asks for nothing. */
  method AnnounceOne(s: Scheduler, e: Announcement, now: nat, timers: Timers)
    requires s.Valid() && 0 < now && e.tile < s.requests.total
    requires e.generation <= s.requests.received[e.tile] || s.pending.gens[e.tile] < e.generation
    modifies s, s.pending, s.requests
    ensures s.Valid() && s.requests.received == old(s.requests.received) && s.requests.queuedGen == old(s.requests.queuedGen)
    ensures s.requests.View() == old(s.requests.View())
    ensures if e.generation <= s.requests.received[e.tile]
            then s.pending.gens == old(s.pending.gens)[e.tile := 0]
            else s.pending.gens == old(s.pending.gens)[e.tile := e.generation] && s.pending.since == old(s.pending.since)[e.tile := now]
    ensures s.pending.due == old(s.pending.due) + DueOf(old(s.pending.gens), e, s.requests.received, now, timers)
  {
    ghost var scan := s.ScanOf([e], now, timers);
    ScannedOne(e, s.pending.gens, s.pending.since, s.requests.View(), now, timers);
    ghost var asked := s.AskedFor([e], now, timers);
    assert asked == [];
    var _ := s.HandleSummary([e], now, timers);
  }

  lemma ScannedOne(e: Announcement, gens: seq<nat>, since: seq<nat>, v: Seen, now: nat, timers: Timers)
    requires BoardOk(Board(gens, since, []), v) && e.tile < |v.received|
    ensures InGrid([e], |v.received|)
    ensures Scanned([e], |[e]|, gens, since, v, now, timers) == Announced(Board(gens, since, []), e, v, now, timers)
    ensures ScanDue([e], |[e]|, gens, since, v, now, timers) == DueOf(gens, e, v.received, now, timers)
  {
    assert Scanned([e], 0, gens, since, v, now, timers) == Board(gens, since, []);
    ScannedNext([e], 0, gens, since, v, now, timers, Announced(Board(gens, since, []), e, v, now, timers));
  }

  lemma ScannedTwo(e: Announcement, f: Announcement, gens: seq<nat>, since: seq<nat>, v: Seen, now: nat, timers: Timers)
    requires BoardOk(Board(gens, since, []), v) && e.tile < |v.received| && f.tile < |v.received|
    ensures InGrid([e, f], |v.received|)
    ensures Scanned([e, f], |[e, f]|, gens, since, v, now, timers)
            == Announced(Announced(Board(gens, since, []), e, v, now, timers), f, v, now, timers)
  {
    var s := Announced(Board(gens, since, []), e, v, now, timers);
    assert Scanned([e, f], 0, gens, since, v, now, timers) == Board(gens, since, []);
    ScannedNext([e, f], 0, gens, since, v, now, timers, s);
    ScannedNext([e, f], 1, gens, since, v, now, timers, Announced(s, f, v, now, timers));
  }

  lemma DoubledAsks(s: Scheduler, e: Announcement, f: Announcement, timers: Timers)
    requires s.Valid() && s.requests.total == 1 && s.pending.gens == [5] && s.pending.since == [1]
    requires s.requests.View() == Seen([0], [0], [0], [0], [0])
    requires e == Announcement(0, 5) && f == Announcement(0, 6) && timers == Timers(0, 0, 0, 0, 0, 20_000_000_000)
    ensures s.AskedFor([e, f], 10_000_000_000, timers) == [Candidate(0, 5, 1)]
  {
    ScannedTwo(e, f, s.pending.gens, s.pending.since, s.requests.View(), 10_000_000_000, timers);
    assert s.ScanOf([e, f], 10_000_000_000, timers).candidates == [Candidate(0, 5, 1)];
  }

  /** A summary that lists a ripe tile twice queues it at the first generation and forgets the second announcement: 6 was
      announced and is nowhere afterwards. */
  method DoubledSummaryForgets() returns (received: nat, pending: nat, queued: nat)
    ensures received == 0 && pending == 0 && queued == 5
  {
    var s := new Scheduler(1);
    var timers := Timers(0, 0, 0, 0, 0, 20_000_000_000);
    AnnounceOne(s, Announcement(0, 5), 1, timers);
    var e, f := Announcement(0, 5), Announcement(0, 6);
    DoubledAsks(s, e, f, timers);
    ghost var asked := s.AskedFor([e, f], 10_000_000_000, timers);
    MaxAskedIsMax(asked, |asked|, 0);
    assert Lists(asked, |asked|, 0) by { assert asked[0].tile == 0; }
    var _ := s.HandleSummary([e, f], 10_000_000_000, timers);
    return s.requests.received[0], s.pending.gens[0], s.requests.queuedGen[0];
  }
}
