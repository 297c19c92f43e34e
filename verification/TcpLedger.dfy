/** What the asynchronous TCP sender owes its callers: the bytes on the wire, the frames finished and the frames accepted
    (include/waydisplay/wd_async_tcp_policy.h, src/client/client_async_tcp.cpp). */
module TcpLedger {
  import opened Wrappers
  import opened TcpFrames
  import opened PointerTraffic

  const EINTR: int := 4
  const EBADF: int := 9
  const EAGAIN: int := 11
  const EBUSY: int := 16
  const EOPNOTSUPP: int := 95
  const U64_MAX: nat := 0xFFFF_FFFF_FFFF_FFFF

  datatype Progress = Failed | Partial | Complete

  /** wd_async_tcp_advance: the outcome and the new count of bytes sent. */
  function Advance(total: nat, sent: nat, result: int): (Progress, nat)
  {
    if sent > total then (Failed, sent)
    else if sent == total then (Complete, sent)
    else if result == -EINTR || result == -EAGAIN then (Partial, sent)
    else if result <= 0 || result > total - sent then (Failed, sent)
    else (if sent + result == total then Complete else Partial, sent + result)
  }

  /** An advance never runs past the buffer, moves exactly by what was reported, and completes exactly at the end. */
  lemma AdvanceIsExact(total: nat, sent: nat, result: int)
    requires sent < total
    ensures var (progress, after) := Advance(total, sent, result);
            && sent <= after <= total
            && (after != sent <==> 0 < result <= total - sent)
            && (after != sent ==> after == sent + result)
            && (progress == Complete <==> after == total)
            && (progress == Failed <==> result !in {-EINTR, -EAGAIN} && !(0 < result <= total - sent))
  {
  }

  datatype SubmitProgress = SubmitFailed | SubmitRetry | SubmitAccepted

  /** wd_async_tcp_submit_result. */
  function SubmitResult(result: int): SubmitProgress
  {
    if result > 0 then SubmitAccepted
    else if result == 0 || result == -EINTR || result == -EAGAIN || result == -EBUSY then SubmitRetry
    else SubmitFailed
  }

  /** wd_async_tcp_cqe_should_try_syscall. */
  predicate TrySyscall(result: int)
  {
    result == -EOPNOTSUPP || result == -EBADF
  }

  /** wd_async_tcp_can_enqueue_after_replacing over 64-bit counters. */
  predicate CanEnqueue(pending: nat, replaced: nat, next: nat, limit: nat)
  {
    && replaced <= pending
    && next <= U64_MAX - (pending - replaced)
    && (limit == 0 || (next <= limit && pending - replaced <= limit - next))
  }

  // ----- the sender as a transition system

  /** One socket's record: bytes handed to the kernel, frames completed, frames accepted from callers, frames queued and how much
      of the first queued frame is out; then the counters, which outlive the socket. */
  datatype Book = Book(wire: seq<Byte>, done: seq<Frame>, accepted: seq<Frame>, queue: seq<Frame>, part: nat,
                       admitted: nat, completed: nat, coalesced: nat)

  /** `n` bytes of the first queued frame reach the kernel; a frame joins after `keep` of the queued ones; a socket is bound. */
  datatype Event = Moved(n: nat) | Joined(keep: nat, f: Frame) | Bound

  ghost predicate Motions(fs: seq<Frame>, from: nat)
  {
    forall i :: from <= i < |fs| ==> IsMotion(fs[i])
  }

  ghost predicate Enabled(b: Book, e: Event, rule: SizeRule)
  {
    match e
    case Moved(n) => b.queue != [] && b.part + n <= b.queue[0].Size()
    case Joined(keep, f) =>
      && FrameOk(f, rule) && keep <= |b.queue| && (b.part > 0 ==> keep > 0)
      && (keep < |b.queue| ==> IsMotion(f) && Motions(b.queue, keep))
    case Bound => b.queue == []
  }

  ghost function Step(b: Book, e: Event, rule: SizeRule): Book
    requires Enabled(b, e, rule)
  {
    match e
    case Moved(n) =>
      var f := b.queue[0];
      var moved := b.(wire := b.wire + Wire(f)[b.part..b.part + n]);
      if b.part + n < f.Size() then moved.(part := b.part + n)
      else moved.(done := b.done + [f], queue := b.queue[1..], part := 0, completed := b.completed + 1)
    case Joined(keep, f) =>
      b.(queue := b.queue[..keep] + [f], accepted := b.accepted + [f],
         admitted := b.admitted + 1, coalesced := b.coalesced + |b.queue| - keep)
    case Bound => b.(wire := [], done := [], accepted := [], part := 0)
  }

  /** The book after a history, and the histories that can happen. */
  ghost function Run(h: seq<Event>, rule: SizeRule): Book
    requires Legal(h, rule)
    decreases |h|, 1
  {
    if h == [] then Book([], [], [], [], 0, 0, 0, 0)
    else Step(Run(h[..|h| - 1], rule), h[|h| - 1], rule)
  }

  ghost predicate Legal(h: seq<Event>, rule: SizeRule)
    decreases |h|, 0
  {
    h == [] || (Legal(h[..|h| - 1], rule) && Enabled(Run(h[..|h| - 1], rule), h[|h| - 1], rule))
  }

  lemma Extend(h: seq<Event>, e: Event, rule: SizeRule)
    requires Legal(h, rule) && Enabled(Run(h, rule), e, rule)
    ensures Legal(h + [e], rule) && Run(h + [e], rule) == Step(Run(h, rule), e, rule)
  {
    assert (h + [e])[..|h|] == h;
  }

  /** `g` continues `h` by transmission alone. */
  ghost predicate Progressed(h: seq<Event>, g: seq<Event>)
  {
    g == h || (g != [] && g[|g| - 1].Moved? && Progressed(h, g[..|g| - 1]))
  }

  lemma ProgressedStep(h: seq<Event>, g: seq<Event>, n: nat)
    requires Progressed(h, g)
    ensures Progressed(h, g + [Moved(n)])
  {
    assert (g + [Moved(n)])[..|g|] == g;
  }

  lemma {:induction false} ProgressedTrans(a: seq<Event>, b: seq<Event>, c: seq<Event>)
    requires Progressed(a, b) && Progressed(b, c)
    ensures Progressed(a, c)
    decreases |c|
  {
    if c != b {
      ProgressedTrans(a, b, c[..|c| - 1]);
    }
  }

  /** Transmission accepts nothing and admits nothing. */
  lemma {:induction false} ProgressedAccepts(h: seq<Event>, g: seq<Event>, rule: SizeRule)
    requires Progressed(h, g) && Legal(g, rule)
    ensures Legal(h, rule)
    ensures Run(g, rule).accepted == Run(h, rule).accepted && Run(g, rule).admitted == Run(h, rule).admitted
    ensures Run(h, rule).done <= Run(g, rule).done && Run(h, rule).wire <= Run(g, rule).wire
    decreases |g|
  {
    if g != h {
      ProgressedAccepts(h, g[..|g| - 1], rule);
    }
  }

  // ----- what every history keeps

  ghost function Head(queue: seq<Frame>, part: nat): seq<Byte>
    requires if queue == [] then part == 0 else part < queue[0].Size()
  {
    if queue == [] then [] else Wire(queue[0])[..part]
  }

  /** The wire holds the finished frames whole and in order, then `part` bytes of the next; finished plus queued frames are
      what was accepted, up to superseded pointer motion; and every admitted frame is finished, superseded or queued. */
  ghost predicate Faithful(b: Book, rule: SizeRule)
  {
    && (if b.queue == [] then b.part == 0 else b.part < b.queue[0].Size())
    && b.wire == Sent(b.done) + Head(b.queue, b.part)
    && Same(b.accepted, b.done + b.queue)
    && AllOk(b.done, rule)
    && AllOk(b.queue, rule)
    && b.admitted == b.completed + b.coalesced + |b.queue|
  }

  lemma Cut<T>(s: seq<T>, w: seq<T>, i: nat, j: nat)
    requires i <= j <= |w|
    ensures (s + w[..i]) + w[i..j] == s + w[..j]
    ensures j == |w| ==> s + w[..j] == s + w
  {
    assert w[..j] == w[..i] + w[i..j];
    if j == |w| {
      assert w[..j] == w;
    }
  }

  lemma MovedWire(done: seq<Frame>, queue: seq<Frame>, part: nat, n: nat)
    requires queue != [] && part + n < queue[0].Size()
    ensures (Sent(done) + Head(queue, part)) + Wire(queue[0])[part..part + n] == Sent(done) + Head(queue, part + n)
  {
    Cut(Sent(done), Wire(queue[0]), part, part + n);
  }

  lemma Regroup<T>(s: seq<T>, t: seq<T>)
    requires t != []
    ensures (s + [t[0]]) + t[1..] == s + t
  {
  }

  lemma AllOkMoves(done: seq<Frame>, queue: seq<Frame>, rule: SizeRule)
    requires AllOk(done, rule) && AllOk(queue, rule) && queue != []
    ensures AllOk(done + [queue[0]], rule) && AllOk(queue[1..], rule)
  {
    AllOkAt(queue, 0, rule);
    AllOkSnoc(done, queue[0], rule);
    AllOkSlice(queue, 1, |queue|, rule);
  }

  lemma FinishedWire(done: seq<Frame>, f: Frame, part: nat, rest: seq<Frame>)
    requires part <= f.Size()
    ensures (Sent(done) + Wire(f)[..part]) + Wire(f)[part..f.Size()] == Sent(done + [f]) + Head(rest, 0)
  {
    Cut(Sent(done), Wire(f), part, f.Size());
    SentSnoc(done, f);
    assert Head(rest, 0) == [];
  }

  lemma JoinedSame(accepted: seq<Frame>, done: seq<Frame>, queue: seq<Frame>, keep: nat, f: Frame)
    requires Same(accepted, done + queue) && keep <= |queue|
    requires keep < |queue| ==> IsMotion(f) && forall i :: keep <= i < |queue| ==> IsMotion(queue[i])
    ensures Same(accepted + [f], done + (queue[..keep] + [f]))
  {
    var all := done + queue;
    SnocSame(accepted, all, f);
    if keep < |queue| {
      DropTail(all, |done| + keep, f);
      assert all[..|done| + keep] + [f] == done + (queue[..keep] + [f]);
    } else {
      assert all + [f] == done + (queue[..keep] + [f]);
    }
  }

  lemma JoinedHead(queue: seq<Frame>, part: nat, keep: nat, f: Frame)
    requires if queue == [] then part == 0 else part < queue[0].Size()
    requires keep <= |queue| && (part > 0 ==> keep > 0)
    ensures part < (queue[..keep] + [f])[0].Size() && Head(queue[..keep] + [f], part) == Head(queue, part)
  {
  }

  lemma AllOkJoins(queue: seq<Frame>, keep: nat, f: Frame, rule: SizeRule)
    requires AllOk(queue, rule) && FrameOk(f, rule) && keep <= |queue|
    ensures AllOk(queue[..keep] + [f], rule)
  {
    AllOkSlice(queue, 0, keep, rule);
    AllOkSnoc(queue[..keep], f, rule);
  }

  lemma MovedKeeps(b: Book, n: nat, rule: SizeRule)
    requires Faithful(b, rule) && Enabled(b, Moved(n), rule)
    ensures Faithful(Step(b, Moved(n), rule), rule)
  {
    if b.part + n < b.queue[0].Size() {
      MovedWire(b.done, b.queue, b.part, n);
    } else {
      FinishedKeeps(b, n, rule);
    }
  }

  lemma FinishedKeeps(b: Book, n: nat, rule: SizeRule)
    requires Faithful(b, rule) && Enabled(b, Moved(n), rule) && b.part + n == b.queue[0].Size()
    ensures Faithful(Step(b, Moved(n), rule), rule)
  {
    FinishedWire(b.done, b.queue[0], b.part, b.queue[1..]);
    Regroup(b.done, b.queue);
    AllOkMoves(b.done, b.queue, rule);
  }

  lemma JoinedKeeps(b: Book, keep: nat, f: Frame, rule: SizeRule)
    requires Faithful(b, rule) && Enabled(b, Joined(keep, f), rule)
    ensures Faithful(Step(b, Joined(keep, f), rule), rule)
  {
    JoinedSame(b.accepted, b.done, b.queue, keep, f);
    JoinedHead(b.queue, b.part, keep, f);
    AllOkJoins(b.queue, keep, f, rule);
  }

  lemma BoundKeeps(b: Book, rule: SizeRule)
    requires Faithful(b, rule) && b.queue == []
    ensures Faithful(Step(b, Bound, rule), rule)
  {
    assert Sent([]) + Head(b.queue, 0) == [];
    assert [] + b.queue == [];
  }

  lemma StepKeeps(b: Book, e: Event, rule: SizeRule)
    requires Faithful(b, rule) && Enabled(b, e, rule)
    ensures Faithful(Step(b, e, rule), rule)
  {
    match e
    case Moved(n) => MovedKeeps(b, n, rule);
    case Joined(keep, f) => JoinedKeeps(b, keep, f, rule);
    case Bound => BoundKeeps(b, rule);
  }

  lemma {:induction false} HistoryIsFaithful(h: seq<Event>, rule: SizeRule)
    requires Legal(h, rule)
    ensures Faithful(Run(h, rule), rule)
  {
    if h == [] {
      var b := Run(h, rule);
      assert b.done + b.queue == [] && Sent(b.done) + Head(b.queue, b.part) == [];
    } else {
      HistoryIsFaithful(h[..|h| - 1], rule);
      StepKeeps(Run(h[..|h| - 1], rule), h[|h| - 1], rule);
    }
  }
}
