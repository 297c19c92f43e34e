/** Whole runs of the receive path: datagrams in any order, lost, duplicated and interleaved over tiles, with expiry,
    resets and renderer drains in between. */
module ReceiveRun {
  import opened Wrappers
  import opened TileGeometry
  import opened TilePacket
  import opened ReassemblyTable
  import opened TileAssembly
  import opened TileReassembly
  import opened TilePresent
  import opened ClientReceive
  import opened ArrivalLog

  datatype Event =
    | Datagram(packet: seq<Byte>, timeout: nat, current: bool, ownershipEpoch: nat, blitted: bool)
    | ExpireStale(timeoutAt: nat -> nat)
    | ResetReassembly
    | DrainToRenderer

  ghost predicate TrueRun(run: seq<Event>, c: Config, truth: Key -> Source)
  {
    forall i :: 0 <= i < |run| && run[i].Datagram? ==> TrueDatagram(run[i].packet, c, truth)
  }

  ghost predicate Standing(r: Receiver, c: Config, truth: Key -> Source)
    reads r, r.reassembler, r.scheduler, r.scheduler.pending, r.scheduler.requests, r.queue
  {
    ValidConfig(c) && r.Valid() && r.c == c && Faithful(r.reassembler.active, truth, PayloadTarget(c))
  }

  // ----- what becomes of partial tiles

  /** The event accounts for a partial tile: reassembly is reset, or a datagram replaces the tile or brings it out. */
  ghost predicate Ends(e: Event, outcome: Option<Outcome>, key: Key)
  {
    match e
    case ResetReassembly => true
    case Datagram(packet, _, _, _, _) =>
      Decode(packet).Some? && outcome.Some?
      && (TileReassembly.Superseded(Decode(packet).value, key) || (outcome.value != Absorbed && key == HeaderKey(Decode(packet).value)))
    case _ => false
  }

  /** No partial tile vanishes in a step: it is still there, repaired, or accounted for by the event. */
  ghost predicate StepConserves(e: Event, outcome: Option<Outcome>, before: seq<Entry>, active: seq<Entry>, c: Config,
                                received: seq<nat>, queued: seq<nat>)
    requires ValidConfig(c)
  {
    forall i :: 0 <= i < |before| ==>
      HasKey(active, KeyOf(before[i])) || Repaired(KeyOf(before[i]), c, received, queued) || Ends(e, outcome, KeyOf(before[i]))
  }

  /** What became of a tile that was partial before event i. */
  ghost predicate Fate(run: seq<Event>, outcomes: seq<Option<Outcome>>, i: int, key: Key, active: seq<Entry>, c: Config,
                       received: seq<nat>, queued: seq<nat>)
    requires ValidConfig(c) && |outcomes| <= |run|
  {
    || HasKey(active, key) || Repaired(key, c, received, queued)
    || exists j :: i <= j < |outcomes| && 0 <= j && Ends(run[j], outcomes[j], key)
  }

  /** Every tile that was ever partial has one of these fates; seen[i] is taken before event i. */
  ghost predicate Fates(run: seq<Event>, outcomes: seq<Option<Outcome>>, seen: seq<Snapshot>, c: Config, received: seq<nat>, queued: seq<nat>)
    requires ValidConfig(c)
  {
    && |seen| == |outcomes| + 1 <= |run| + 1
    && forall i, k :: 0 <= i < |seen| && 0 <= k < |seen[i].active| ==>
         Fate(run, outcomes, i, KeyOf(seen[i].active[k]), seen[|outcomes|].active, c, received, queued)
  }

  lemma FatesStep(run: seq<Event>, outcomes: seq<Option<Outcome>>, seen: seq<Snapshot>, c: Config, received: seq<nat>, queued: seq<nat>,
                  outcome: Option<Outcome>, now: Snapshot, queued': seq<nat>)
    requires ValidConfig(c) && |outcomes| < |run| && Fates(run, outcomes, seen, c, received, queued)
    requires StepConserves(run[|outcomes|], outcome, seen[|outcomes|].active, now.active, c, now.received, queued')
    requires Persists(received, queued, now.received, queued')
    ensures Fates(run, outcomes + [outcome], seen + [now], c, now.received, queued')
  {
    var all, table := outcomes + [outcome], seen + [now];
    forall i, k | 0 <= i < |table| && 0 <= k < |table[i].active|
      ensures Fate(run, all, i, KeyOf(table[i].active[k]), now.active, c, now.received, queued')
    {
      if i < |seen| {
        FateStep(run, outcomes, i, KeyOf(seen[i].active[k]), seen[|outcomes|].active, c, received, queued, outcome, now.active, now.received, queued');
      } else {
        HasKeyIn(now.active, now.active[k]);
      }
    }
  }

  lemma FateStep(run: seq<Event>, outcomes: seq<Option<Outcome>>, i: nat, key: Key, before: seq<Entry>, c: Config, received: seq<nat>,
                 queued: seq<nat>, outcome: Option<Outcome>, active: seq<Entry>, received': seq<nat>, queued': seq<nat>)
    requires ValidConfig(c) && i <= |outcomes| < |run| && Fate(run, outcomes, i, key, before, c, received, queued)
    requires StepConserves(run[|outcomes|], outcome, before, active, c, received', queued')
    requires Persists(received, queued, received', queued')
    ensures Fate(run, outcomes + [outcome], i, key, active, c, received', queued')
  {
    var all := outcomes + [outcome];
    if Repaired(key, c, received, queued) {
      RepairedPersists(key, c, received, queued, received', queued');
    } else if HasKey(before, key) {
      var k :| 0 <= k < |before| && KeyOf(before[k]) == key;
      assert Ends(run[|outcomes|], outcome, key) ==> Ends(run[|outcomes|], all[|outcomes|], key);
    } else {
      var j :| i <= j < |outcomes| && 0 <= j && Ends(run[j], outcomes[j], key);
      assert Ends(run[j], all[j], key);
    }
  }

  lemma SameConserves(e: Event, outcome: Option<Outcome>, active: seq<Entry>, c: Config, received: seq<nat>, queued: seq<nat>)
    requires ValidConfig(c)
    ensures StepConserves(e, outcome, active, active, c, received, queued)
  {
    forall i | 0 <= i < |active| ensures HasKey(active, KeyOf(active[i])) { HasKeyIn(active, active[i]); }
  }

  // ----- which datagrams bring tiles out

  /** What a datagram brings to reassembly: its fragment, if it is admitted. */
  ghost function ArrivalOf(r: Receiver, e: Event, now: nat, before: Snapshot): Option<Arrival>
    requires ValidConfig(r.c)
  {
    if e.Datagram? && r.reassembler.Admitted(e.packet, r.c, before.received) then
      var h := Decode(e.packet).value;
      Some(Arrival(HeaderKey(h), h.pktId, !Assembling(before.active, h, now, ClampTimeout(e.timeout))))
    else None
  }

  lemma RecordsFollow(before: seq<Entry>, active: seq<Entry>, h: Header, now: nat, timeout: nat)
    requires Records(before, active, h, now, timeout)
    ensures Follows(Some(Arrival(HeaderKey(h), h.pktId, !Assembling(before, h, now, timeout))), before, active)
  {
    var a := Arrival(HeaderKey(h), h.pktId, !Assembling(before, h, now, timeout));
    forall k | 0 <= k < |active| && KeyOf(active[k]) == HeaderKey(h) ensures Joined(a, before, active[k]) {
      var e := active[k];
      assert Recorded(before, active[k], h, now, timeout);
      var found :| Found(before, h, now, timeout, found) && |found| == |e.receipts| && e.receipts == found[h.pktId := true];
      if !a.opens {
        var p :| 0 <= p < |before| && KeyOf(before[p]) == HeaderKey(h) && found == before[p].receipts;
        assert Extends(a, before[p], e);
      }
    }
  }

  /** The datagram is admitted and not refused, its payload decodes, and with it all fragments of its tile have arrived
      since the tile was opened. */
  ghost predicate Arrives(r: Receiver, e: Event, now: nat, before: Snapshot, log: seq<Option<Arrival>>, n: nat, truth: Key -> Source)
    requires ValidConfig(r.c) && e.Datagram?
  {
    && r.reassembler.Admitted(e.packet, r.c, before.received)
    && var h := Decode(e.packet).value;
       && !Refused(before.active, h, now, ClampTimeout(e.timeout), r.reassembler.maxBytes)
       && r.Decodes(h, truth) && AllIn(log, n, HeaderKey(h), h.pktCount)
  }

  /** The same, told from the receipts. */
  ghost predicate Completed(r: Receiver, e: Event, now: nat, before: Snapshot, truth: Key -> Source)
    requires ValidConfig(r.c) && e.Datagram?
  {
    && r.reassembler.Admitted(e.packet, r.c, before.received)
    && r.Comes(before.active, Decode(e.packet).value, now, e.timeout, truth)
  }

  ghost predicate Good(a: Snapshot, truth: Key -> Source, target: nat)
  {
    AllOk(a.active) && OneEach(a.active) && Faithful(a.active, truth, target)
  }

  /** The events, arrivals and snapshots of a run agree. */
  ghost predicate Logged(r: Receiver, run: seq<Event>, times: nat -> nat, seen: seq<Snapshot>, log: seq<Option<Arrival>>, truth: Key -> Source)
    requires ValidConfig(r.c)
  {
    && |log| <= |run| && Chain(log, seen)
    && (forall i :: 0 <= i < |seen| ==> Good(seen[i], truth, PayloadTarget(r.c)))
    && (forall i: nat :: i < |log| ==> log[i] == ArrivalOf(r, run[i], times(i), seen[i]))
  }

  lemma LoggedStep(r: Receiver, run: seq<Event>, times: nat -> nat, seen: seq<Snapshot>, log: seq<Option<Arrival>>, truth: Key -> Source, next: Snapshot)
    requires ValidConfig(r.c) && Logged(r, run, times, seen, log, truth) && |log| < |run| && Good(next, truth, PayloadTarget(r.c))
    requires Follows(ArrivalOf(r, run[|log|], times(|log|), seen[|log|]), seen[|log|].active, next.active)
    ensures Logged(r, run, times, seen + [next], log + [ArrivalOf(r, run[|log|], times(|log|), seen[|log|])], truth)
  {
    ChainStep(log, seen, ArrivalOf(r, run[|log|], times(|log|), seen[|log|]), next);
  }

  /** The two agree in every run. */
  lemma ArrivesIsCompleted(r: Receiver, run: seq<Event>, times: nat -> nat, seen: seq<Snapshot>, log: seq<Option<Arrival>>, truth: Key -> Source, i: nat)
    requires ValidConfig(r.c) && Logged(r, run, times, seen, log, truth)
    requires i < |log| && run[i].Datagram? && TrueDatagram(run[i].packet, r.c, truth)
    ensures Arrives(r, run[i], times(i), seen[i], log, i + 1, truth) <==> Completed(r, run[i], times(i), seen[i], truth)
  {
    if r.reassembler.Admitted(run[i].packet, r.c, seen[i].received) {
      var h, timeout, before := Decode(run[i].packet).value, ClampTimeout(run[i].timeout), seen[i].active;
      r.reassembler.AdmittedLayout(run[i].packet, r.c, seen[i].received);
      assert log[i] == ArrivalOf(r, run[i], times(i), seen[i]) && Of(log, i, HeaderKey(h));
      assert Good(seen[i], truth, PayloadTarget(r.c));
      if Assembling(before, h, times(i), timeout) {
        var k: nat :| k < |before| && KeyOf(before[k]) == HeaderKey(h) && !Expired(before[k], times(i), timeout);
        assert EntryOk(before[k]);
        ReceiptsAreArrivals(log, seen, i, k);
        JoinsWhole(log, i, before[k]);
        CompletesEntry(before, k, h, times(i), timeout, r.reassembler.maxBytes);
      } else {
        OpensWhole(log, i, HeaderKey(h), h.pktCount);
      }
    }
  }

  /** A packet that joins an entry is not refused, and completes the tile exactly if the entry lacks only its fragment. */
  lemma CompletesEntry(active: seq<Entry>, k: nat, h: Header, now: nat, timeout: nat, maxBytes: nat)
    requires OneEach(active) && AllOk(active) && k < |active| && KeyOf(active[k]) == HeaderKey(h) && !Expired(active[k], now, timeout)
    requires active[k].packetCount == h.pktCount && h.pktId < h.pktCount
    ensures !Refused(active, h, now, timeout, maxBytes)
    ensures Completes(active, h, now, timeout, maxBytes) <==> AllBut(active[k], h.pktId)
  {
    assert EntryOk(active[k]);
    LacksOne(active[k], h.pktId);
    assert forall i :: 0 <= i < |active| && active[i].tileSize == h.tileSize && active[i].tileId == h.tileId ==> i == k;
  }

  /** Each datagram brings a tile out exactly if it completes one; other events have no outcome. */
  ghost predicate ExactOutcome(r: Receiver, e: Event, now: nat, outcome: Option<Outcome>, before: Snapshot, truth: Key -> Source)
    requires ValidConfig(r.c)
  {
    if e.Datagram? then outcome.Some? && (outcome.value != Absorbed <==> Completed(r, e, now, before, truth)) else outcome == None
  }

  /** The same for each event of a run, told from what arrived. */
  ghost predicate ExactOutcomes(r: Receiver, run: seq<Event>, times: nat -> nat, outcomes: seq<Option<Outcome>>, seen: seq<Snapshot>,
                                log: seq<Option<Arrival>>, truth: Key -> Source)
    requires ValidConfig(r.c) && |outcomes| <= |run| && |outcomes| <= |seen|
  {
    forall i: nat :: i < |outcomes| ==>
      if run[i].Datagram?
      then outcomes[i].Some? && (outcomes[i].value != Absorbed <==> Arrives(r, run[i], times(i), seen[i], log, i + 1, truth))
      else outcomes[i] == None
  }

  // ----- what is pushed and shown

  /** The upload of a datagram that queues its tile: the tile of its key with the pixels of its true payload. */
  ghost function PushedBy(r: Receiver, e: Event, outcome: Option<Outcome>, truth: Key -> Source): seq<Upload>
  {
    if e.Datagram? && outcome == Some(Presented(Queued)) && Decode(e.packet).Some? && r.Full(Decode(e.packet).value, truth)
    then [r.TrueUpload(Decode(e.packet).value, e.ownershipEpoch, truth)]
    else []
  }

  ghost function Pushed(r: Receiver, run: seq<Event>, outcomes: seq<Option<Outcome>>, n: nat, truth: Key -> Source): seq<Upload>
    requires n <= |run| && n <= |outcomes|
  {
    if n == 0 then [] else Pushed(r, run, outcomes, n - 1, truth) + PushedBy(r, run[n - 1], outcomes[n - 1], truth)
  }

  /** Number of events up to the last drain. */
  ghost function LastDrain(run: seq<Event>, n: nat): (d: nat)
    requires n <= |run|
    ensures d <= n
  {
    if n == 0 || run[n - 1].DrainToRenderer? then n else LastDrain(run, n - 1)
  }

  /** What was rendered shows what the drained uploads show, and is made of them; those queued since are in the queue. */
  ghost predicate Delivered(pushed: seq<Upload>, drained: seq<Upload>, rendered: seq<Upload>, history: seq<Upload>)
  {
    pushed == drained + history && SameShown(rendered, drained) && forall u :: u in rendered ==> u in drained
  }

  ghost predicate Delivers(r: Receiver, run: seq<Event>, outcomes: seq<Option<Outcome>>, rendered: seq<Upload>, history: seq<Upload>, truth: Key -> Source)
    requires |outcomes| <= |run|
  {
    Delivered(Pushed(r, run, outcomes, |outcomes|, truth), Pushed(r, run, outcomes, LastDrain(run, |outcomes|), truth), rendered, history)
  }

  lemma {:induction false} PushedExtends(r: Receiver, run: seq<Event>, outcomes: seq<Option<Outcome>>, o: Option<Outcome>, n: nat, truth: Key -> Source)
    requires n <= |outcomes| && n <= |run|
    ensures Pushed(r, run, outcomes + [o], n, truth) == Pushed(r, run, outcomes, n, truth)
  {
    if n > 0 {
      PushedExtends(r, run, outcomes, o, n - 1, truth);
      assert (outcomes + [o])[n - 1] == outcomes[n - 1];
    }
  }

  lemma PushedNext(r: Receiver, run: seq<Event>, outcomes: seq<Option<Outcome>>, o: Option<Outcome>, truth: Key -> Source)
    requires |outcomes| < |run|
    ensures Pushed(r, run, outcomes + [o], |outcomes| + 1, truth)
         == Pushed(r, run, outcomes, |outcomes|, truth) + PushedBy(r, run[|outcomes|], o, truth)
  {
    PushedExtends(r, run, outcomes, o, |outcomes|, truth);
  }

  /** A drain hands over what is queued, and queues nothing; any other event appends what it pushes. */
  ghost predicate Shows(drain: bool, next: seq<Upload>, history: seq<Upload>, history': seq<Upload>, out: seq<Upload>)
  {
    if drain then next == [] && history' == [] && SameShown(out, history) && forall u :: u in out ==> u in history
    else out == [] && history' == history + next
  }

  ghost predicate StepShows(r: Receiver, e: Event, outcome: Option<Outcome>, history: seq<Upload>, history': seq<Upload>, out: seq<Upload>, truth: Key -> Source)
  {
    Shows(e.DrainToRenderer?, PushedBy(r, e, outcome, truth), history, history', out)
  }

  lemma DeliveredStep(drain: bool, next: seq<Upload>, pushed: seq<Upload>, drained: seq<Upload>, rendered: seq<Upload>,
                      history: seq<Upload>, out: seq<Upload>, history': seq<Upload>)
    requires Delivered(pushed, drained, rendered, history) && Shows(drain, next, history, history', out)
    ensures Delivered(pushed + next, if drain then pushed + next else drained, rendered + out, history')
  {
    if drain {
      assert pushed + next == pushed;
      ConcatShows(rendered, drained, out, history);
    } else {
      assert rendered + out == rendered && drained + history + next == drained + (history + next);
    }
  }

  lemma DrainedNext(r: Receiver, run: seq<Event>, outcomes: seq<Option<Outcome>>, o: Option<Outcome>, truth: Key -> Source)
    requires |outcomes| < |run|
    ensures Pushed(r, run, outcomes + [o], LastDrain(run, |outcomes| + 1), truth)
         == if run[|outcomes|].DrainToRenderer? then Pushed(r, run, outcomes + [o], |outcomes| + 1, truth)
            else Pushed(r, run, outcomes, LastDrain(run, |outcomes|), truth)
  {
    if !run[|outcomes|].DrainToRenderer? {
      PushedExtends(r, run, outcomes, o, LastDrain(run, |outcomes|), truth);
    }
  }

  lemma DeliversStep(r: Receiver, run: seq<Event>, outcomes: seq<Option<Outcome>>, rendered: seq<Upload>, history: seq<Upload>, truth: Key -> Source,
                     o: Option<Outcome>, out: seq<Upload>, history': seq<Upload>)
    requires |outcomes| < |run| && Delivers(r, run, outcomes, rendered, history, truth)
    requires StepShows(r, run[|outcomes|], o, history, history', out, truth)
    ensures Delivers(r, run, outcomes + [o], rendered + out, history', truth)
  {
    var n, d := |outcomes|, LastDrain(run, |outcomes|);
    PushedNext(r, run, outcomes, o, truth);
    DrainedNext(r, run, outcomes, o, truth);
    DeliveredStep(run[n].DrainToRenderer?, PushedBy(r, run[n], o, truth), Pushed(r, run, outcomes, n, truth),
                  Pushed(r, run, outcomes, d, truth), rendered, history, out, history');
  }

  // ----- runs

  ghost predicate NeverSupersededIn(outcomes: seq<Option<Outcome>>)
  {
    forall o :: o in outcomes ==> o != Some(Presented(PushResult.Superseded))
  }

  /** In every run of true datagrams, whatever the order, loss and interleaving: the present queue never answers
      Superseded; completions of each base tile are in generation order; what is rendered, with what is still queued, shows
      what the datagrams that queued their tiles were sent to show; and every tile that was ever partial is partial still,
      received or queued for repair at its generation or newer, brought out or replaced by a later datagram, or dropped by a
      reset. If the tiles of the frame can be numbered at all, the receipts of a partial tile are the fragments that arrived
      since it was opened, and a datagram brings its tile out exactly if it is admitted, is not refused, and with it all
      fragments of a payload that decodes have arrived. */
  method Execute(run: seq<Event>, times: nat -> nat, c: Config, bound: nat -> nat, inflate: (seq<Byte>, nat) -> Option<seq<Byte>>,
                 ghost truth: Key -> Source)
    returns (r: Receiver, outcomes: seq<Option<Outcome>>, rendered: seq<Upload>, ghost seen: seq<Snapshot>, ghost log: seq<Option<Arrival>>)
    requires ValidConfig(c) && TrueRun(run, c, truth)
    ensures fresh(r) && r.Valid() && r.c == c && r.reassembler.inflate == inflate
    ensures |outcomes| == |run| && NeverSupersededIn(outcomes)
    ensures Fenced(r.log) && Tracks(r.log, r.scheduler.requests.received)
    ensures Delivers(r, run, outcomes, rendered, r.queue.history, truth)
    ensures SameShown(rendered + r.queue.uploads, Pushed(r, run, outcomes, |run|, truth))
    ensures Fates(run, outcomes, seen, c, r.scheduler.requests.received, r.scheduler.requests.queuedGen)
    ensures seen[|run|] == Snapshot(r.reassembler.active, r.scheduler.requests.received)
    ensures AllSizesFit(c) ==> |log| == |run| && Logged(r, run, times, seen, log, truth)
    ensures AllSizesFit(c) ==> ExactOutcomes(r, run, times, outcomes, seen, log, truth)
    ensures AllSizesFit(c) ==> AllAccounted(log, seen)
  {
    r, outcomes, rendered, seen, log := Loop(run, times, c, bound, inflate, truth);
    RunShows(r, run, outcomes, rendered, truth);
    if AllSizesFit(c) { RunIsExact(r, run, times, outcomes, seen, log, truth); }
  }

  lemma RunShows(r: Receiver, run: seq<Event>, outcomes: seq<Option<Outcome>>, rendered: seq<Upload>, truth: Key -> Source)
    requires r.queue.Valid() && |outcomes| == |run| && Delivers(r, run, outcomes, rendered, r.queue.history, truth)
    ensures SameShown(rendered + r.queue.uploads, Pushed(r, run, outcomes, |run|, truth))
  {
    ConcatShows(rendered, Pushed(r, run, outcomes, LastDrain(run, |run|), truth), r.queue.uploads, r.queue.history);
  }

  lemma RunIsExact(r: Receiver, run: seq<Event>, times: nat -> nat, outcomes: seq<Option<Outcome>>, seen: seq<Snapshot>,
                   log: seq<Option<Arrival>>, truth: Key -> Source)
    requires ValidConfig(r.c) && TrueRun(run, r.c, truth) && |log| == |run| == |outcomes| && Logged(r, run, times, seen, log, truth)
    requires AllCompleted(r, run, times, outcomes, seen, truth)
    ensures ExactOutcomes(r, run, times, outcomes, seen, log, truth) && AllAccounted(log, seen)
  {
    forall i: nat | i < |run| && run[i].Datagram?
      ensures outcomes[i].Some? && (outcomes[i].value != Absorbed <==> Arrives(r, run[i], times(i), seen[i], log, i + 1, truth))
    {
      assert ExactOutcome(r, run[i], times(i), outcomes[i], seen[i], truth);
      ArrivesIsCompleted(r, run, times, seen, log, truth, i);
    }
    forall i: nat, k: nat | i < |seen| && k < |seen[i].active| ensures Accounted(log, i, seen[i].active[k]) {
      ReceiptsAreArrivals(log, seen, i, k);
    }
  }

  method Loop(run: seq<Event>, times: nat -> nat, c: Config, bound: nat -> nat, inflate: (seq<Byte>, nat) -> Option<seq<Byte>>,
              ghost truth: Key -> Source)
    returns (r: Receiver, outcomes: seq<Option<Outcome>>, rendered: seq<Upload>, ghost seen: seq<Snapshot>, ghost log: seq<Option<Arrival>>)
    requires ValidConfig(c) && TrueRun(run, c, truth)
    ensures fresh(r) && r.Valid() && r.c == c && r.reassembler.inflate == inflate
    ensures |outcomes| == |run| && Told(r, run, times, outcomes, rendered, seen, log, Now(r), truth)
  {
    r := new Receiver(c, bound, inflate);
    outcomes, rendered, seen, log := [], [], [Snapshot([], r.scheduler.requests.received)], [];
    for n := 0 to |run|
      invariant fresh(r) && fresh(r.reassembler) && fresh(r.scheduler) && fresh(r.scheduler.pending) && fresh(r.scheduler.requests) && fresh(r.queue)
      invariant Standing(r, c, truth) && r.reassembler.inflate == inflate
      invariant |outcomes| == n && Told(r, run, times, outcomes, rendered, seen, log, Now(r), truth)
    {
      ghost var before := Now(r);
      var outcome, out := Step(r, run[n], times(n), c, truth);
      TilesDistinct(r.reassembler.active, r.reassembler.slots);
      ToldStep(r, run, times, outcomes, rendered, seen, log, before, truth, outcome, out, Now(r));
      log := log + [ArrivalOf(r, run[n], times(n), seen[n])];
      outcomes, rendered, seen := outcomes + [outcome], rendered + out, seen + [Now(r).at];
    }
  }

  /** Everything that is said of a run, so far. */
  ghost predicate Told(r: Receiver, run: seq<Event>, times: nat -> nat, outcomes: seq<Option<Outcome>>, rendered: seq<Upload>,
                       seen: seq<Snapshot>, log: seq<Option<Arrival>>, view: View, truth: Key -> Source)
    requires ValidConfig(r.c)
  {
    && |outcomes| <= |run| && |log| == |outcomes| && NeverSupersededIn(outcomes)
    && Delivers(r, run, outcomes, rendered, view.history, truth)
    && Fates(run, outcomes, seen, r.c, view.at.received, view.queued) && seen[|outcomes|] == view.at
    && (AllSizesFit(r.c) ==> Logged(r, run, times, seen, log, truth) && AllCompleted(r, run, times, outcomes, seen, truth))
  }

  ghost predicate AllCompleted(r: Receiver, run: seq<Event>, times: nat -> nat, outcomes: seq<Option<Outcome>>, seen: seq<Snapshot>, truth: Key -> Source)
    requires ValidConfig(r.c)
  {
    && |outcomes| <= |run| && |outcomes| <= |seen|
    && forall i: nat :: i < |outcomes| ==> ExactOutcome(r, run[i], times(i), outcomes[i], seen[i], truth)
  }

  lemma CompletedStep(r: Receiver, run: seq<Event>, times: nat -> nat, outcomes: seq<Option<Outcome>>, seen: seq<Snapshot>, truth: Key -> Source,
                      outcome: Option<Outcome>, next: Snapshot)
    requires ValidConfig(r.c) && AllCompleted(r, run, times, outcomes, seen, truth) && |outcomes| < |run| && |outcomes| < |seen|
    requires ExactOutcome(r, run[|outcomes|], times(|outcomes|), outcome, seen[|outcomes|], truth)
    ensures AllCompleted(r, run, times, outcomes + [outcome], seen + [next], truth)
  {
  }

  lemma NeverStep(outcomes: seq<Option<Outcome>>, outcome: Option<Outcome>)
    requires NeverSupersededIn(outcomes) && outcome != Some(Presented(PushResult.Superseded))
    ensures NeverSupersededIn(outcomes + [outcome])
  {
  }

  lemma ToldStep(r: Receiver, run: seq<Event>, times: nat -> nat, outcomes: seq<Option<Outcome>>, rendered: seq<Upload>, seen: seq<Snapshot>,
                 log: seq<Option<Arrival>>, v: View, truth: Key -> Source, outcome: Option<Outcome>, out: seq<Upload>, v': View)
    requires ValidConfig(r.c) && Told(r, run, times, outcomes, rendered, seen, log, v, truth) && |outcomes| < |run|
    requires StepKeeps(r, run[|outcomes|], times(|outcomes|), outcome, out, v, v', truth) && Good(v'.at, truth, PayloadTarget(r.c))
    ensures Told(r, run, times, outcomes + [outcome], rendered + out, seen + [v'.at],
                 log + [ArrivalOf(r, run[|outcomes|], times(|outcomes|), seen[|outcomes|])], v', truth)
  {
    var n := |outcomes|;
    FatesStep(run, outcomes, seen, r.c, v.at.received, v.queued, outcome, v'.at, v'.queued);
    DeliversStep(r, run, outcomes, rendered, v.history, truth, outcome, out, v'.history);
    if AllSizesFit(r.c) {
      LoggedStep(r, run, times, seen, log, truth, v'.at);
      CompletedStep(r, run, times, outcomes, seen, truth, outcome, v'.at);
    }
    NeverStep(outcomes, outcome);
  }

  method Step(r: Receiver, e: Event, now: nat, c: Config, ghost truth: Key -> Source) returns (outcome: Option<Outcome>, out: seq<Upload>)
    requires Standing(r, c, truth) && (e.Datagram? ==> TrueDatagram(e.packet, c, truth))
    modifies r, r.reassembler, r.scheduler.pending, r.scheduler.requests, r.queue
    ensures Standing(r, c, truth)
    ensures StepKeeps(r, e, now, outcome, out, old(Now(r)), Now(r), truth)
  {
    outcome, out := None, [];
    match e {
      case Datagram(_, _, _, _, _) =>
        var o := StepDatagram(r, e, now, c, truth);
        outcome := Some(o);
      case ExpireStale(timeoutAt) => StepExpire(r, e, now, c, truth);
      case ResetReassembly => StepReset(r, e, now, c, truth);
      case DrainToRenderer => out := StepDrain(r, e, now, c, truth);
    }
  }

  /** What a run changes. */
  datatype View = View(at: Snapshot, queued: seq<nat>, history: seq<Upload>)

  ghost function Now(r: Receiver): View
    reads r.reassembler, r.scheduler.requests, r.queue
  {
    View(Snapshot(r.reassembler.active, r.scheduler.requests.received), r.scheduler.requests.queuedGen, r.queue.history)
  }

  /** The queue does not answer Superseded, no partial tile vanishes, what was repaired stays repaired, uploads are
      true, the entries follow from what arrived, and the outcome is exact. */
  ghost predicate StepKeeps(r: Receiver, e: Event, now: nat, outcome: Option<Outcome>, out: seq<Upload>, v: View, v': View, truth: Key -> Source)
    requires ValidConfig(r.c)
  {
    && outcome != Some(Presented(PushResult.Superseded))
    && StepConserves(e, outcome, v.at.active, v'.at.active, r.c, v'.at.received, v'.queued)
    && Persists(v.at.received, v.queued, v'.at.received, v'.queued)
    && StepShows(r, e, outcome, v.history, v'.history, out, truth)
    && (AllSizesFit(r.c) ==>
          && Follows(ArrivalOf(r, e, now, v.at), v.at.active, v'.at.active)
          && ExactOutcome(r, e, now, outcome, v.at, truth))
  }

  method StepDatagram(r: Receiver, e: Event, now: nat, c: Config, ghost truth: Key -> Source) returns (outcome: Outcome)
    requires Standing(r, c, truth) && e.Datagram? && TrueDatagram(e.packet, c, truth)
    modifies r, r.reassembler, r.scheduler.pending, r.scheduler.requests, r.queue
    ensures Standing(r, c, truth)
    ensures StepKeeps(r, e, now, Some(outcome), [], old(Now(r)), Now(r), truth)
  {
    ghost var through := r.LetThrough(e.packet);
    outcome := r.OnDatagram(e.packet, now, e.timeout, e.current, e.ownershipEpoch, e.blitted, truth);
    DatagramKeeps(r, e, now, outcome, old(Now(r)), Now(r), truth, through);
  }

  lemma DatagramKeeps(r: Receiver, e: Event, now: nat, outcome: Outcome, v: View, v': View, truth: Key -> Source, through: bool)
    requires ValidConfig(r.c) && e.Datagram?
    requires through ==> r.reassembler.Admitted(e.packet, r.c, v.at.received)
    requires AllSizesFit(r.c) && r.reassembler.Admitted(e.packet, r.c, v.at.received) ==> through
    requires outcome != Presented(PushResult.Superseded) && (outcome != Presented(Queued) ==> v'.history == v.history)
    requires Persists(v.at.received, v.queued, v'.at.received, v'.queued)
    requires !through ==> outcome == Absorbed && v'.at.active == v.at.active
    requires through ==>
               var h := Decode(e.packet).value;
               && Conserved(v.at.active, v'.at.active, h, outcome != Absorbed, r.c, v'.at.received, v'.queued)
               && r.TrueOutcome(v.at.active, v'.at.active, h, now, e.timeout, e.current, e.ownershipEpoch, outcome, v.history, v'.history, truth)
    ensures StepKeeps(r, e, now, Some(outcome), [], v, v', truth)
  {
    if through {
      RecordsFollow(v.at.active, v'.at.active, Decode(e.packet).value, now, ClampTimeout(e.timeout));
    } else {
      SameConserves(e, Some(outcome), v.at.active, r.c, v'.at.received, v'.queued);
    }
  }

  method StepExpire(r: Receiver, e: Event, now: nat, c: Config, ghost truth: Key -> Source)
    requires Standing(r, c, truth) && e.ExpireStale?
    modifies r.reassembler, r.scheduler.requests
    ensures Standing(r, c, truth) && StepKeeps(r, e, now, None, [], old(Now(r)), Now(r), truth)
  {
    ghost var before := r.reassembler.active;
    r.reassembler.ExpireStale(now, e.timeoutAt, c, r.scheduler.requests);
    FewerFaithful(before, r.reassembler.active, truth, PayloadTarget(c));
    ExpiryConserves(e, before, r.reassembler.active, c, r.scheduler.requests.received, r.scheduler.requests.queuedGen);
  }

  lemma ExpiryConserves(e: Event, before: seq<Entry>, active: seq<Entry>, c: Config, received: seq<nat>, queued: seq<nat>)
    requires ValidConfig(c) && KeptOrRepaired(before, active, c, received, queued)
    ensures StepConserves(e, None, before, active, c, received, queued)
  {
    forall i | 0 <= i < |before| && before[i] in active ensures HasKey(active, KeyOf(before[i])) {
      HasKeyIn(active, before[i]);
    }
  }

  lemma FewerFaithful(before: seq<Entry>, active: seq<Entry>, truth: Key -> Source, target: nat)
    requires Faithful(before, truth, target) && forall e :: e in active ==> e in before
    ensures Faithful(active, truth, target)
  {
    forall i | 0 <= i < |active| ensures HoldsFragmentsOf(active[i], truth(KeyOf(active[i])), target) {
      assert active[i] in before;
      var k :| 0 <= k < |before| && before[k] == active[i];
    }
  }

  method StepReset(r: Receiver, e: Event, now: nat, c: Config, ghost truth: Key -> Source)
    requires Standing(r, c, truth) && e.ResetReassembly?
    modifies r.reassembler
    ensures Standing(r, c, truth) && StepKeeps(r, e, now, None, [], old(Now(r)), Now(r), truth)
  {
    r.reassembler.Reset();
  }

  method StepDrain(r: Receiver, e: Event, now: nat, c: Config, ghost truth: Key -> Source) returns (out: seq<Upload>)
    requires Standing(r, c, truth) && e.DrainToRenderer?
    modifies r.queue
    ensures Standing(r, c, truth) && StepKeeps(r, e, now, None, out, old(Now(r)), Now(r), truth)
  {
    out := r.queue.Drain();
    SameConserves(e, None, r.reassembler.active, c, r.scheduler.requests.received, r.scheduler.requests.queuedGen);
  }
}
