/** The asynchronous TCP sender of src/client/client_async_tcp.cpp: io_uring submission, completion handling,
    nonblocking syscall fallback and pointer-motion coalescing over one pinned socket. What the kernel answers is left open. */
module AsyncTcp {
  import opened Wrappers
  import opened TcpFrames
  import opened PointerTraffic
  import opened PendingList
  import opened TcpLedger

  const DEFAULT_PENDING_BYTES: nat := 4 * 1024 * 1024
  const FALLBACK_BATCH: nat := 16

  ghost function Frames(nodes: seq<Message>): (fs: seq<Frame>)
    ensures |fs| == |nodes|
    ensures forall i {:trigger fs[i]} :: 0 <= i < |fs| ==> fs[i] == nodes[i].frame
  {
    if nodes == [] then [] else Frames(nodes[..|nodes| - 1]) + [nodes[|nodes| - 1].frame]
  }

  ghost function Part(nodes: seq<Message>): nat
    reads nodes`bytesSent
  {
    if nodes == [] then 0 else nodes[0].bytesSent
  }

  /** None of these is with the kernel or partly sent. */
  ghost predicate Idle(nodes: seq<Message>)
    reads nodes`bytesSent, nodes`submitted
  {
    nodes == [] || (nodes[0].bytesSent == 0 && !nodes[0].submitted && Idle(nodes[1..]))
  }

  /** The bytes of a message that are not out yet. */
  function Left(m: Message): seq<Byte>
    reads m`bytesSent
  {
    if m.bytesSent <= m.frame.Size() then Wire(m.frame)[m.bytesSent..] else []
  }

  /** What the kernel takes of the bytes offered to it when it reports `result`. */
  function Took(bytes: seq<Byte>, result: int): seq<Byte>
  {
    if 0 < result <= |bytes| then bytes[..result] else []
  }

  /** The count of bytes sent moves by just what the kernel took. */
  lemma AdvanceTakes(bytes: seq<Byte>, total: nat, sent: nat, result: int)
    requires sent < total && |bytes| == total - sent
    ensures var (progress, after) := Advance(total, sent, result);
            progress != Failed ==> sent <= after <= total && Took(bytes, result) == bytes[..after - sent] && |Took(bytes, result)| == after - sent
  {
  }

  /** Only the head can be with the kernel or partly sent, and it has bytes left; what is with the kernel is just those. */
  ghost predicate Shape(nodes: seq<Message>, inflight: nat, offered: seq<Byte>)
    reads nodes`bytesSent, nodes`submitted
  {
    if nodes == [] then inflight == 0
    else
      && nodes[0].bytesSent < nodes[0].frame.Size()
      && inflight == (if nodes[0].submitted then 1 else 0)
      && (inflight == 1 ==> offered == Left(nodes[0]))
      && Idle(nodes[1..])
  }

  /** The history leads to these bytes, frames and counters. */
  ghost predicate Stands(h: seq<Event>, wire: seq<Byte>, frames: seq<Frame>, part: nat, completed: nat, coalesced: nat, rule: SizeRule)
  {
    && Legal(h, rule) && Run(h, rule).wire == wire && Run(h, rule).queue == frames && Run(h, rule).part == part
    && Run(h, rule).completed == completed && Run(h, rule).coalesced == coalesced
  }

  /** The bytes on the wire, the list and the counters are where the history leads. */
  ghost predicate Tracks(h: seq<Event>, wire: seq<Byte>, nodes: seq<Message>, completed: nat, coalesced: nat, rule: SizeRule)
    reads nodes`bytesSent
  {
    Stands(h, wire, Frames(nodes), Part(nodes), completed, coalesced, rule)
  }

  lemma TrackMove(h: seq<Event>, wire: seq<Byte>, nodes: seq<Message>, completed: nat, coalesced: nat, rule: SizeRule, n: nat,
                  grown: seq<Byte>)
    requires Tracks(h, wire, nodes, completed, coalesced, rule)
    requires nodes != [] && Part(nodes) + n <= nodes[0].frame.Size() && grown == wire + Left(nodes[0])[..n]
    ensures Legal(h + [Moved(n)], rule) && Run(h + [Moved(n)], rule).accepted == Run(h, rule).accepted
    ensures var b := Run(h + [Moved(n)], rule);
            && b.coalesced == coalesced && b.admitted == Run(h, rule).admitted && b.wire == grown
            && if Part(nodes) + n < nodes[0].frame.Size()
               then b.queue == Frames(nodes) && b.part == Part(nodes) + n && b.completed == completed
               else b.queue == Frames(nodes[1..]) && b.part == 0 && b.completed == completed + 1
  {
    Extend(h, Moved(n), rule);
    assert Frames(nodes)[1..] == Frames(nodes[1..]);
    assert Wire(nodes[0].frame)[Part(nodes)..Part(nodes) + n] == Left(nodes[0])[..n];
  }

  /** wd_async_tcp_message_is_replaceable on a motion of the same descriptor. */
  predicate Replaceable(m: Message, fd: int)
    reads m`bytesSent, m`submitted
  {
    m.fd == fd && IsMotion(m.frame) && !m.submitted && m.bytesSent == 0
  }

  /** How many listed frames stay when the replaceable motions at the tail go. */
  ghost function Keep(nodes: seq<Message>, fd: int): (k: nat)
    reads nodes`bytesSent, nodes`submitted
    ensures k <= |nodes|
  {
    if nodes == [] then 0
    else if Replaceable(nodes[|nodes| - 1], fd) then Keep(nodes[..|nodes| - 1], fd)
    else |nodes|
  }

  lemma {:induction false} KeepFacts(nodes: seq<Message>, fd: int)
    ensures forall i {:trigger nodes[i]} :: Keep(nodes, fd) <= i < |nodes| ==> Replaceable(nodes[i], fd)
  {
    if nodes != [] && Replaceable(nodes[|nodes| - 1], fd) {
      KeepFacts(nodes[..|nodes| - 1], fd);
      assert forall i {:trigger nodes[i]} :: 0 <= i < |nodes| - 1 ==> nodes[i] == nodes[..|nodes| - 1][i];
    }
  }

  lemma {:induction false} IdlePrefix(nodes: seq<Message>, k: nat)
    requires Idle(nodes) && k <= |nodes|
    ensures Idle(nodes[..k])
  {
    if k > 0 {
      IdlePrefix(nodes[1..], k - 1);
      assert nodes[..k][1..] == nodes[1..][..k - 1];
    }
  }

  /** drop_replaceable_tail_pointer_motion_locked. */
  method DropReplaceable(list: List, fd: int) returns (dropped: nat)
    requires list.Valid()
    modifies list, list.nodes`next, list.nodes`prev
    ensures list.Valid() && list.nodes == old(list.nodes)[..old(Keep(list.nodes, fd))]
    ensures dropped == |old(list.nodes)| - |list.nodes|
  {
    ghost var nodes := list.nodes;
    dropped := 0;
    assert nodes[..|nodes|] == nodes;
    while list.tail != null && Replaceable(list.tail, fd)
      invariant list.Valid() && dropped <= |nodes| && list.nodes == nodes[..|nodes| - dropped]
      invariant old(Keep(list.nodes, fd)) == Keep(list.nodes, fd)
      decreases |list.nodes|
    {
      DropLast(list, fd);
      dropped := dropped + 1;
    }
  }

  method DropLast(list: List, ghost fd: int)
    requires list.Valid() && list.tail != null && Replaceable(list.tail, fd)
    modifies list, list.nodes`next, list.nodes`prev
    ensures list.Valid() && |old(list.nodes)| > 0 && list.nodes == old(list.nodes)[..|old(list.nodes)| - 1]
    ensures Keep(list.nodes, fd) == old(Keep(list.nodes, fd))
  {
    list.PopTail();
  }

  /** How many listed frames stay when `m` joins. */
  ghost function KeepFor(nodes: seq<Message>, fd: int, frame: Frame): (k: nat)
    reads nodes`bytesSent, nodes`submitted
    ensures k <= |nodes|
  {
    if IsMotion(frame) then Keep(nodes, fd) else |nodes|
  }

  method Join(list: List, m: Message, ghost keep: nat, ghost joined: seq<Message>) returns (dropped: nat)
    requires list.Valid() && m !in list.nodes && keep == KeepFor(list.nodes, m.fd, m.frame) && joined == list.nodes[..keep] + [m]
    modifies list, list.nodes`next, list.nodes`prev, m`next, m`prev
    ensures list.Valid() && list.nodes == joined && dropped == |old(list.nodes)| - keep
  {
    ghost var nodes := list.nodes;
    assert nodes[..|nodes|] == nodes;
    dropped := 0;
    if IsMotion(m.frame) {
      dropped := DropReplaceable(list, m.fd);
    }
    list.Add(m);
  }

  lemma JoinEnabled(b: Book, nodes: seq<Message>, keep: nat, fd: int, frame: Frame, rule: SizeRule)
    requires b.queue == Frames(nodes) && b.part == Part(nodes) && FrameOk(frame, rule) && keep == KeepFor(nodes, fd, frame)
    ensures Enabled(b, Joined(keep, frame), rule)
  {
    KeepFacts(nodes, fd);
    forall i | keep <= i < |nodes| ensures IsMotion(Frames(nodes)[i]) && Replaceable(nodes[i], fd) {
      assert Frames(nodes)[i] == nodes[i].frame;
    }
  }

  lemma JoinedFrames(nodes: seq<Message>, keep: nat, m: Message)
    requires keep <= |nodes|
    ensures Frames(nodes[..keep] + [m]) == Frames(nodes)[..keep] + [m.frame]
  {
    FramesPrefix(nodes, keep);
    FramesSnoc(nodes[..keep], m);
  }

  lemma FramesSnoc(nodes: seq<Message>, m: Message)
    ensures Frames(nodes + [m]) == Frames(nodes) + [m.frame]
  {
    assert (nodes + [m])[..|nodes|] == nodes;
  }

  lemma {:induction false} FramesPrefix(nodes: seq<Message>, keep: nat)
    requires keep <= |nodes|
    ensures Frames(nodes[..keep]) == Frames(nodes)[..keep]
    decreases |nodes|
  {
    if keep == |nodes| {
      assert nodes[..keep] == nodes;
    } else {
      var front, last := nodes[..|nodes| - 1], nodes[|nodes| - 1];
      FramesPrefix(front, keep);
      assert front[..keep] == nodes[..keep];
      FramesSnoc(front, last);
      assert front + [last] == nodes;
    }
  }

  lemma TrackJoin(h: seq<Event>, wire: seq<Byte>, nodes: seq<Message>, completed: nat, coalesced: nat, rule: SizeRule, m: Message, fatal: bool,
                  joined: seq<Message>)
    requires (fatal || Tracks(h, wire, nodes, completed, coalesced, rule)) && FrameOk(m.frame, rule)
    requires joined == nodes[..KeepFor(nodes, m.fd, m.frame)] + [m] && Part(joined) == Part(nodes)
    ensures var keep := KeepFor(nodes, m.fd, m.frame);
            fatal || Tracks(h + [Joined(keep, m.frame)], wire, joined, completed, coalesced + |nodes| - keep, rule)
  {
    if !fatal {
      var keep := KeepFor(nodes, m.fd, m.frame);
      JoinEnabled(Run(h, rule), nodes, keep, m.fd, m.frame, rule);
      Extend(h, Joined(keep, m.frame), rule);
      JoinedFrames(nodes, keep, m);
    }
  }

  lemma {:induction false} IdleSnoc(nodes: seq<Message>, m: Message)
    requires Idle(nodes) && m.bytesSent == 0 && !m.submitted
    ensures Idle(nodes + [m])
  {
    if nodes == [] {
      assert Idle([m][1..]);
    } else {
      IdleSnoc(nodes[1..], m);
      assert (nodes + [m])[1..] == nodes[1..] + [m];
    }
  }

  lemma ShapeJoin(nodes: seq<Message>, m: Message, inflight: nat, offered: seq<Byte>, joined: seq<Message>)
    requires Shape(nodes, inflight, offered) && m.bytesSent == 0 && !m.submitted
    requires joined == nodes[..KeepFor(nodes, m.fd, m.frame)] + [m]
    ensures Shape(joined, inflight, offered) && Part(joined) == Part(nodes)
  {
    ShapePrefix(nodes, m.fd, inflight, offered);
    KeepFacts(nodes, m.fd);
    assert nodes[..|nodes|] == nodes;
    var rest := nodes[..KeepFor(nodes, m.fd, m.frame)];
    if rest == [] {
      assert joined[1..] == [];
    } else {
      IdleSnoc(rest[1..], m);
      assert joined[1..] == rest[1..] + [m];
    }
  }

  lemma ShapePrefix(nodes: seq<Message>, fd: int, inflight: nat, offered: seq<Byte>)
    requires Shape(nodes, inflight, offered)
    ensures Shape(nodes[..Keep(nodes, fd)], inflight, offered)
  {
    var k := Keep(nodes, fd);
    KeepFacts(nodes, fd);
    if 0 < k {
      IdlePrefix(nodes[1..], k - 1);
      assert nodes[..k][1..] == nodes[1..][..k - 1];
    } else if nodes != [] {
      assert Replaceable(nodes[0], fd);
    }
  }

  class Sender {
    const maxPendingBytes: nat
    const rule: SizeRule
    const pending: List
    var pin: Option<nat>
    var inflight: nat
    var queued: nat
    var completed: nat
    var failed: nat
    var overflows: nat
    var partialResubmits: nat
    var coalesced: nat
    var ringReady: bool
    var submitRetryPending: bool
    var syscallFallback: bool
    var fatal: bool
    ghost var history: seq<Event>
    ghost var wire: seq<Byte>      // what the socket's kernel buffer has taken
    ghost var offered: seq<Byte>   // what the ring was last given
    ghost var sends: seq<seq<Byte>>   // what was given to nonblocking sends

    ghost predicate Sound()
      reads `inflight, `offered, `ringReady, `submitRetryPending, `pin, pending, pending.nodes
    {
      && pending.Valid()
      && Shape(pending.nodes, inflight, offered)
      && pending.bytes <= maxPendingBytes && maxPendingBytes > 0
      && (submitRetryPending ==> ringReady && inflight == 1)
      && (pending.nodes != [] ==> pin.Some?)
    }

    ghost predicate Valid()
      reads `inflight, `offered, `ringReady, `submitRetryPending, `pin, `fatal, `history, `wire, `completed, `coalesced, pending, pending.nodes
    {
      Sound() && Recorded(wire)
    }

    /** Until the connection breaks, the history accounts for these bytes, the list and the counters. */
    ghost predicate Recorded(bytes: seq<Byte>)
      reads `fatal, `history, `completed, `coalesced, pending, pending.nodes
    {
      fatal || Tracks(history, bytes, pending.nodes, completed, coalesced, rule)
    }

    /** Nothing stalls: a listed frame is with the kernel, or the fallback sends it at the next call. */
    ghost predicate Driven()
      reads `fatal, `inflight, `syscallFallback, pending
    {
      fatal || pending.nodes == [] || inflight == 1 || syscallFallback
    }

    ghost function State(): Book
      reads this, pending, pending.nodes
      requires Valid() && !fatal
    {
      Run(history, rule)
    }

    constructor (maxPendingBytes: nat, rule: SizeRule)
      ensures Valid() && fresh(pending) && pending.nodes == [] && !fatal && queued == State().admitted
      ensures history == [] && wire == [] && this.rule == rule
    {
      this.maxPendingBytes := if maxPendingBytes != 0 then maxPendingBytes else DEFAULT_PENDING_BYTES;
      this.rule := rule;
      pending := new List();
      pin, inflight, queued, completed, failed, overflows := None, 0, 0, 0, 0, 0;
      partialResubmits, coalesced, submitRetryPending, syscallFallback, fatal := 0, 0, false, false, false;
      ringReady := true;
      history, wire, offered, sends := [], [], [], [];
    }

    method PopHead()
      requires Sound() && pending.nodes != [] && inflight == 0
      modifies pending, pending.nodes`next, pending.nodes`prev
      ensures Sound() && pending.nodes == old(pending.nodes)[1..] && Part(pending.nodes) == 0
    {
      pending.Remove(pending.head, 0);
    }

    method SetHead(sent: nat, submitted: bool)
      requires Sound() && pending.nodes != [] && sent < pending.nodes[0].frame.Size() && !submitRetryPending
      modifies this`inflight, this`offered, pending.nodes[..1]`bytesSent, pending.nodes[..1]`submitted
      ensures Sound() && inflight == (if submitted then 1 else 0) && Part(pending.nodes) == sent
      ensures !submitted ==> offered == old(offered)
    {
      HeadOnce(pending.nodes);
      pending.head.bytesSent, pending.head.submitted := sent, submitted;
      inflight := if submitted then 1 else 0;
      if submitted {
        offered := Left(pending.head);
      }
    }

    /** The connection breaks: the head frame is dropped and the socket shut down. */
    method FailHead()
      requires Sound() && pending.nodes != [] && inflight == 0
      modifies this`failed, this`fatal, pending, pending.nodes`next, pending.nodes`prev
      ensures Valid() && fatal && pending.nodes == old(pending.nodes)[1..]
    {
      failed := failed + 1;
      fatal := true;
      PopHead();
    }

    /** The record of what the kernel took, ahead of the bookkeeping of the message. */
    ghost method NoteMove(n: nat, before: seq<Byte>, took: seq<Byte>)
      requires Sound() && Recorded(before) && pending.nodes != [] && wire == before + took
      requires Part(pending.nodes) + n <= pending.nodes[0].frame.Size() && took == Left(pending.nodes[0])[..n]
      modifies this`history
      ensures Sound() && (!fatal ==> history == old(history) + [Moved(n)])
      ensures !fatal ==>
                if Part(pending.nodes) + n < pending.nodes[0].frame.Size()
                then Stands(history, wire, Frames(pending.nodes), Part(pending.nodes) + n, completed, coalesced, rule)
                else Stands(history, wire, Frames(pending.nodes[1..]), 0, completed + 1, coalesced, rule)
    {
      if !fatal {
        TrackMove(history, before, pending.nodes, completed, coalesced, rule, n, wire);
        history := history + [Moved(n)];
      }
    }

    method FinishHead(ghost n: nat, ghost before: seq<Byte>, ghost took: seq<Byte>)
      requires Sound() && Recorded(before) && pending.nodes != [] && inflight == 0
      requires Part(pending.nodes) + n == pending.nodes[0].frame.Size() && wire == before + took && took == Left(pending.nodes[0])[..n]
      modifies this`completed, this`history, pending, pending.nodes`next, pending.nodes`prev
      ensures Valid() && pending.nodes == old(pending.nodes)[1..]
      ensures !fatal ==> history == old(history) + [Moved(n)]
    {
      NoteMove(n, before, took);
      completed := completed + 1;
      PopHead();
    }

    method AdvanceHead(n: nat, ghost before: seq<Byte>, ghost took: seq<Byte>)
      requires Sound() && Recorded(before) && pending.nodes != [] && inflight == 0
      requires Part(pending.nodes) + n < pending.nodes[0].frame.Size() && wire == before + took && took == Left(pending.nodes[0])[..n]
      modifies this`history, this`inflight, this`offered, pending.nodes`bytesSent, pending.nodes`submitted
      ensures Valid() && inflight == 0
      ensures !fatal ==> history == old(history) + [Moved(n)]
    {
      NoteMove(n, before, took);
      SetHead(pending.head.bytesSent + n, false);
    }

    /** The kernel reports `result` for the head frame, which then advances, finishes or breaks the connection. The wire, on
        which `before` was accounted for, has grown by what the kernel took; now all of it is. */
    method Settle(result: int, ghost before: seq<Byte>, ghost took: seq<Byte>) returns (progress: Progress)
      requires Sound() && Recorded(before) && pending.nodes != [] && inflight == 0
      requires wire == before + took && took == Took(Left(pending.nodes[0]), result)
      modifies this`failed, this`completed, this`fatal, this`history, this`inflight, this`offered, pending, pending.nodes
      ensures Valid() && inflight == 0
      ensures progress == Partial ==> pending.nodes == old(pending.nodes) && fatal == old(fatal)
      ensures progress == Complete ==> pending.nodes == old(pending.nodes)[1..] && fatal == old(fatal)
      ensures progress == Failed ==> pending.nodes == old(pending.nodes)[1..] && fatal
      ensures progress == old(Advance(pending.nodes[0].frame.Size(), pending.nodes[0].bytesSent, result).0)
      ensures !fatal ==> history == old(history) + [Moved(|took|)]
    {
      var msg := pending.head;
      var step := Advance(msg.frame.Size(), msg.bytesSent, result);
      progress := step.0;
      AdvanceTakes(Left(msg), msg.frame.Size(), msg.bytesSent, result);
      MoveHead(progress, if progress == Failed then 0 else step.1 - msg.bytesSent, before, took);
    }

    /** The head frame advances by `n` bytes, finishes, or breaks the connection. */
    method MoveHead(progress: Progress, n: nat, ghost before: seq<Byte>, ghost took: seq<Byte>)
      requires Sound() && Recorded(before) && pending.nodes != [] && inflight == 0 && wire == before + took
      requires progress != Failed ==>
                 && Part(pending.nodes) + n <= pending.nodes[0].frame.Size() && took == Left(pending.nodes[0])[..n]
                 && (progress == Complete <==> Part(pending.nodes) + n == pending.nodes[0].frame.Size())
      modifies this`failed, this`completed, this`fatal, this`history, this`inflight, this`offered, pending, pending.nodes
      ensures Valid() && inflight == 0
      ensures pending.nodes == if progress == Partial then old(pending.nodes) else old(pending.nodes)[1..]
      ensures fatal == (old(fatal) || progress == Failed)
      ensures !fatal ==> history == old(history) + [Moved(n)]
    {
      match progress
      case Failed => FailHead();
      case Complete => FinishHead(n, before, took);
      case Partial => AdvanceHead(n, before, took);
    }

    /** A nonblocking send: an error, or some of the bytes it was given, which are then on the wire. */
    method KernelSend(bytes: seq<Byte>) returns (result: int)
      modifies this`wire, this`sends
      ensures result <= |bytes| && wire == old(wire) + Took(bytes, result) && sends == old(sends) + [bytes]
    {
      result := *;
      if result > |bytes| {
        result := |bytes|;
      }
      sends := sends + [bytes];
      wire := wire + Took(bytes, result);
    }

    /** The ring has carried out the send it was given last, with any result. */
    ghost method RingSent(result: int)
      modifies this`wire
      ensures wire == old(wire) + Took(offered, result)
    {
      wire := wire + Took(offered, result);
    }

    method FallbackStep() returns (more: bool, ok: bool)
      requires Valid() && pending.nodes != [] && inflight == 0
      modifies this, pending, pending.nodes
      ensures Valid() && inflight == 0 && Within(pending.nodes, old(pending.nodes)) && pin == old(pin) && queued == old(queued)
      ensures !ok ==> fatal && !more
      ensures syscallFallback == old(syscallFallback) && sends == old(sends) + [old(Left(pending.nodes[0]))]
      ensures !fatal ==> !old(fatal) && Progressed(old(history), history)
    {
      var stalled, progress := SendHead();
      if stalled {
        return false, true;
      }
      if progress == Partial {
        partialResubmits := partialResubmits + 1;
      }
      return progress == Complete, progress != Failed;
    }

    /** One nonblocking send of what is left of the head frame. */
    method SendHead() returns (stalled: bool, progress: Progress)
      requires Valid() && pending.nodes != [] && inflight == 0
      modifies this`failed, this`completed, this`fatal, this`history, this`wire, this`sends, this`inflight, this`offered, pending, pending.nodes
      ensures Valid() && inflight == 0 && Within(pending.nodes, old(pending.nodes)) && sends == old(sends) + [old(Left(pending.nodes[0]))]
      ensures !stalled && progress == Failed ==> fatal
      ensures !fatal ==> !old(fatal) && Progressed(old(history), history)
    {
      ghost var before := wire;
      var bytes := Left(pending.head);
      var result := KernelSend(bytes);
      if result == -EINTR || result == -EAGAIN {
        assert wire == before;
        return true, Partial;
      }
      ProgressedStep(history, history, |Took(bytes, result)|);
      progress := Settle(result, before, Took(bytes, result));
      return false, progress;
    }

    /** A call offers what is left of the head frame to a nonblocking send, before anything else. */
    twostate predicate OffersHead()
      reads `sends
    {
      old(pending.nodes) != [] ==> Offers(old(sends), sends, old(Left(pending.nodes[0])))
    }

    /** progress_syscall_fallback_locked. If the fallback is on, what is left of the head frame is sent. */
    method ProgressFallback() returns (ok: bool)
      requires Valid()
      modifies this, pending, pending.nodes
      ensures old(syscallFallback && inflight == 0) ==> OffersHead()
      ensures Valid() && Within(pending.nodes, old(pending.nodes)) && pin == old(pin) && queued == old(queued)
      ensures (!ok ==> fatal) && syscallFallback == old(syscallFallback)
      ensures !fatal ==> !old(fatal) && Progressed(old(history), history)
    {
      if !syscallFallback || inflight != 0 {
        return true;
      }
      var i, more := 0, true;
      ok := true;
      while more && pending.head != null && i < FALLBACK_BATCH
        invariant Valid() && inflight == 0 && Within(pending.nodes, old(pending.nodes)) && pin == old(pin) && queued == old(queued)
        invariant (!ok ==> fatal && !more) && syscallFallback == old(syscallFallback)
        invariant !fatal ==> !old(fatal) && Progressed(old(history), history)
        invariant if i == 0 then more && sends == old(sends) && unchanged(pending, pending.nodes) else OffersHead()
        decreases FALLBACK_BATCH - i
      {
        ghost var h, given := history, sends;
        ghost var bytes := Left(pending.nodes[0]);
        more, ok := FallbackStep();
        OfferKept(old(sends), given, sends, bytes);
        if !fatal {
          ProgressedTrans(old(history), h, history);
        }
        i := i + 1;
      }
    }

    /** The ring is retired and the head frame taken back for the fallback. */
    method Withdraw()
      requires Valid() && inflight == 1 && !submitRetryPending
      modifies this`inflight, this`offered, this`ringReady, this`syscallFallback, pending.nodes`bytesSent, pending.nodes`submitted
      ensures Valid() && inflight == 0 && syscallFallback && Part(pending.nodes) == old(Part(pending.nodes))
    {
      ringReady := false;
      TakeBack();
      syscallFallback := true;
    }

    /** What is left of the head frame is offered to the ring. */
    method HandOver()
      requires Valid() && pending.nodes != [] && inflight == 0
      modifies this`inflight, this`offered, pending.nodes`bytesSent, pending.nodes`submitted
      ensures Valid() && inflight == 1 && offered == Left(pending.nodes[0]) && Part(pending.nodes) == old(Part(pending.nodes))
    {
      SetHead(pending.head.bytesSent, true);
    }

    /** The head frame is no longer with the ring. */
    method TakeBack()
      requires Valid() && inflight == 1 && !submitRetryPending
      modifies this`inflight, this`offered, pending.nodes`bytesSent, pending.nodes`submitted
      ensures Valid() && inflight == 0 && Part(pending.nodes) == old(Part(pending.nodes))
    {
      SetHead(pending.head.bytesSent, false);
    }

    /** submit_message_locked on the head: the ring is offered just the bytes that are left of it, or is retired in favour of
        the fallback; a retired ring is not asked. */
    method SubmitHead() returns (ok: bool)
      requires Valid() && pending.nodes != [] && inflight == 0
      modifies this`inflight, this`offered, this`ringReady, this`submitRetryPending, this`syscallFallback
      modifies pending.nodes`bytesSent, pending.nodes`submitted
      ensures Valid() && Part(pending.nodes) == old(Part(pending.nodes))
      ensures ok <==> old(ringReady)
      ensures if ok then inflight == 1 || syscallFallback else inflight == 0
      ensures inflight == 1 ==> offered == Left(pending.nodes[0])
    {
      if !ringReady {
        return false;
      }
      var queueEntry: bool := *;
      if !queueEntry {
        ringReady := false;
        syscallFallback := true;
        return true;
      }
      HandOver();
      var rc: int := *;
      var submit := SubmitResult(rc);
      if submit == SubmitFailed {
        Withdraw();
      } else {
        submitRetryPending := submit == SubmitRetry;
      }
      return true;
    }

    /** try_start_head_locked. */
    method TryStartHead() returns (ok: bool)
      requires Valid()
      modifies this, pending, pending.nodes
      ensures Valid() && Within(pending.nodes, old(pending.nodes)) && pin == old(pin) && queued == old(queued)
      ensures (!ok ==> fatal) && Driven()
      ensures !fatal ==> !old(fatal) && Progressed(old(history), history)
    {
      if inflight != 0 || pending.head == null {
        return true;
      }
      if syscallFallback {
        ok := ProgressFallback();
        return;
      }
      ok := SubmitHead();
      if !ok {
        FailHead();
      }
    }

    method Resubmit(result: int)
      requires Valid() && pending.nodes != [] && inflight == 0
      modifies this, pending, pending.nodes
      ensures Valid() && Within(pending.nodes, old(pending.nodes)) && pin == old(pin) && queued == old(queued)
      ensures Driven() && (!fatal ==> !old(fatal) && Progressed(old(history), history))
    {
      if result > 0 {
        partialResubmits := partialResubmits + 1;
      }
      var ok := SubmitHead();
      if !ok {
        DropAndStart();
      }
    }

    method DropAndStart()
      requires Valid() && pending.nodes != [] && inflight == 0
      modifies this, pending, pending.nodes
      ensures Valid() && Within(pending.nodes, old(pending.nodes)) && pin == old(pin) && queued == old(queued)
      ensures Driven() && fatal
    {
      FailHead();
      var _ := TryStartHead();
    }

    /** The ring cannot send at all: the head frame is taken back for the fallback, and nothing of it is out. */
    method Reclaim(result: int)
      requires Valid() && inflight == 1 && !submitRetryPending && TrySyscall(result)
      modifies this`wire, this`inflight, this`offered, this`syscallFallback, pending.nodes`bytesSent, pending.nodes`submitted
      ensures Valid() && inflight == 0 && syscallFallback && wire == old(wire) && Part(pending.nodes) == old(Part(pending.nodes))
    {
      RingSent(result);
      assert wire == old(wire);
      TakeBack();
      syscallFallback := true;
    }

    /** The ring has sent some of the head frame, or failed to. */
    method SettleRing(result: int) returns (progress: Progress)
      requires Valid() && inflight == 1 && !submitRetryPending
      modifies this`failed, this`completed, this`fatal, this`history, this`wire, this`inflight, this`offered, pending, pending.nodes
      ensures Valid() && inflight == 0 && Within(pending.nodes, old(pending.nodes)) && (progress == Partial ==> pending.nodes != [])
      ensures !fatal ==> !old(fatal) && Progressed(old(history), history)
      ensures (old(fatal) ==> fatal) && (progress == Failed ==> fatal) && wire == old(wire) + Took(old(offered), result)
      ensures progress == old(Advance(pending.nodes[0].frame.Size(), pending.nodes[0].bytesSent, result).0)
    {
      ghost var before := wire;
      ghost var took := Took(offered, result);
      RingSent(result);
      ProgressedStep(history, history, |took|);
      SetHead(pending.head.bytesSent, false);
      progress := Settle(result, before, took);
    }

    /** The connection is broken, or this is on the wire. */
    ghost predicate Out(bytes: seq<Byte>)
      reads `fatal, `wire
    {
      fatal || bytes <= wire
    }

    /** A send of the head frame that the ring completed with this result breaks the connection. */
    ghost predicate Breaks(result: int)
      reads pending, pending.nodes
      requires pending.nodes != []
    {
      !TrySyscall(result) && Advance(pending.nodes[0].frame.Size(), pending.nodes[0].bytesSent, result).0 == Failed
    }

    /** One completion of reap_locked, for the head frame and with any result: what the ring took is on the wire, an error
        breaks the connection, and a ring that cannot send gives way to the fallback. */
    method HandleCompletion(result: int)
      requires Valid() && inflight == 1 && !submitRetryPending
      modifies this, pending, pending.nodes
      ensures Valid() && Within(pending.nodes, old(pending.nodes)) && pin == old(pin) && queued == old(queued)
      ensures Driven() && (!fatal ==> !old(fatal) && Progressed(old(history), history))
      ensures Out(old(wire) + Took(old(offered), result)) && (old(Breaks(result)) ==> fatal)
      ensures TrySyscall(result) ==> syscallFallback && OffersHead()
    {
      if TrySyscall(result) {
        FallBack(result);
      } else {
        SettleAndContinue(result);
      }
    }

    /** The ring cannot send: the fallback takes over. */
    method FallBack(result: int)
      requires Valid() && inflight == 1 && !submitRetryPending && TrySyscall(result)
      modifies this, pending, pending.nodes
      ensures Valid() && Within(pending.nodes, old(pending.nodes)) && pin == old(pin) && queued == old(queued)
      ensures Driven() && (!fatal ==> !old(fatal) && Progressed(old(history), history))
      ensures Out(old(wire)) && syscallFallback && OffersHead()
    {
      ghost var bytes := Left(pending.nodes[0]);
      Reclaim(result);
      assert Left(pending.nodes[0]) == bytes;
      var _ := ProgressFallback();
      if !fatal {
        ProgressedAccepts(old(history), history, rule);
      }
    }

    method SettleAndContinue(result: int)
      requires Valid() && inflight == 1 && !submitRetryPending && !TrySyscall(result)
      modifies this, pending, pending.nodes
      ensures Valid() && Within(pending.nodes, old(pending.nodes)) && pin == old(pin) && queued == old(queued)
      ensures Driven() && (!fatal ==> !old(fatal) && Progressed(old(history), history))
      ensures Out(old(wire) + Took(old(offered), result)) && (old(Breaks(result)) ==> fatal)
    {
      var progress := SettleRing(result);
      ghost var h := history;
      Continue(progress, result);
      if !fatal {
        ProgressedAccepts(h, history, rule);
        ProgressedTrans(old(history), h, history);
      }
    }

    /** What is left of the head frame is submitted again, or the next frame is started. */
    method Continue(progress: Progress, result: int)
      requires Valid() && inflight == 0 && (progress == Partial ==> pending.nodes != [])
      modifies this, pending, pending.nodes
      ensures Valid() && Within(pending.nodes, old(pending.nodes)) && pin == old(pin) && queued == old(queued)
      ensures Driven() && (!fatal ==> !old(fatal) && Progressed(old(history), history))
    {
      if progress == Partial {
        Resubmit(result);
      } else {
        var _ := TryStartHead();
      }
    }

    /** The retried submission failed: give up the ring and send the retained frame directly. */
    method RetireForFallback()
      requires Valid() && inflight == 1 && !submitRetryPending
      modifies this, pending, pending.nodes
      ensures Valid() && Within(pending.nodes, old(pending.nodes)) && pin == old(pin) && queued == old(queued)
      ensures Driven() && (!fatal ==> !old(fatal) && Progressed(old(history), history)) && OffersHead()
    {
      Withdraw();
      var _ := ProgressFallback();
    }

    /** reap_locked. Completions arrive only for a frame the ring has accepted; `retry` is what a submission that was put
        off now gives. With the fallback on, or the ring given up, what is left of the head frame is sent; otherwise all
        completions are settled as long as the ring has a frame. */
    method Reap(retry: int, completions: seq<int>) returns (settled: nat)
      requires Valid() && Driven()
      modifies this, pending, pending.nodes
      ensures Valid() && Within(pending.nodes, old(pending.nodes)) && pin == old(pin) && queued == old(queued)
      ensures Driven() && (!fatal ==> !old(fatal) && Progressed(old(history), history))
      ensures old(syscallFallback && inflight == 0) || old(ringReady && submitRetryPending && SubmitResult(retry) == SubmitFailed) ==> OffersHead()
      ensures old(RingAnswers(retry)) ==> SettledAll(completions, settled)
    {
      settled := 0;
      if syscallFallback && inflight == 0 {
        var _ := ProgressFallback();
        return;
      }
      if !ringReady {
        return;
      }
      if submitRetryPending {
        var submit := SubmitResult(retry);
        submitRetryPending := submit == SubmitRetry;
        if submit == SubmitRetry {
          return;
        }
        if submit == SubmitFailed {
          RetireForFallback();
          return;
        }
      }
      settled := ReapRing(completions);
    }

    /** The ring is asked for completions. */
    ghost predicate RingAnswers(retry: int)
      reads `syscallFallback, `inflight, `ringReady, `submitRetryPending
    {
      !(syscallFallback && inflight == 0) && ringReady && (submitRetryPending ==> SubmitResult(retry) == SubmitAccepted)
    }

    /** The ring has a frame. */
    ghost predicate OnRing()
      reads `inflight, `ringReady, `submitRetryPending
    {
      ringReady && inflight == 1 && !submitRetryPending
    }

    /** All completions are settled, or the ring has no frame left; the first is, if it had one. */
    twostate predicate SettledAll(new completions: seq<int>, new settled: nat)
      reads this
    {
      && settled <= |completions| && (settled < |completions| ==> !OnRing())
      && (completions != [] && old(inflight) == 1 ==> settled > 0 && Out(old(wire) + Took(old(offered), completions[0])))
    }

    /** Any number of completions, while the ring has a frame. */
    method ReapRing(completions: seq<int>) returns (settled: nat)
      requires Valid() && Driven() && ringReady && !submitRetryPending
      modifies this, pending, pending.nodes
      ensures Valid() && Within(pending.nodes, old(pending.nodes)) && pin == old(pin) && queued == old(queued)
      ensures Driven() && (!fatal ==> !old(fatal) && Progressed(old(history), history))
      ensures SettledAll(completions, settled)
    {
      settled := 0;
      while settled < |completions| && ringReady && inflight == 1 && !submitRetryPending
        invariant Valid() && Within(pending.nodes, old(pending.nodes)) && pin == old(pin) && queued == old(queued)
        invariant Driven() && (!fatal ==> !old(fatal) && Progressed(old(history), history))
        invariant settled <= |completions| && (settled == 0 ==> unchanged(this))
        invariant settled > 0 ==> Out(old(wire) + Took(old(offered), completions[0]))
      {
        ghost var h, bytes := history, wire;
        HandleCompletion(completions[settled]);
        if !fatal {
          ProgressedTrans(old(history), h, history);
        }
        settled := settled + 1;
      }
    }

    /** bind_socket_locked: `cookie` identifies the socket behind the descriptor, if the kernel tells. */
    method Bind(cookie: Option<nat>, duplicated: bool) returns (ok: bool)
      requires Valid()
      modifies this`pin, this`history, this`wire
      ensures Valid()
      ensures ok <==> cookie.Some? && (pin == old(pin) == cookie || (pending.nodes == [] && duplicated && pin == cookie))
      ensures pin == old(pin) ==> history == old(history) && wire == old(wire)
      ensures pin != old(pin) ==> ok && pending.nodes == [] && history == old(history) + [Bound] && wire == []
    {
      if pin.Some? && cookie == pin {
        return true;
      }
      if pending.head != null || inflight != 0 {
        return false;
      }
      if cookie.None? || !duplicated {
        return false;
      }
      if !fatal {
        Extend(history, Bound, rule);
      }
      pin, history, wire := cookie, history + [Bound], [];
      return true;
    }

    /** replaceable_tail_pointer_motion_bytes_locked. */
    method ReplaceableBytes(fd: int) returns (bytes: nat)
      requires Valid()
      ensures bytes == SumBytes(pending.nodes) - SumBytes(pending.nodes[..Keep(pending.nodes, fd)])
    {
      var msg := pending.tail;
      bytes := 0;
      ghost var nodes := pending.nodes;
      ghost var k := |nodes|;
      assert nodes[..k] == nodes;
      while msg != null && Replaceable(msg, fd)
        invariant 0 <= k <= |nodes| && msg == At(nodes, k - 1)
        invariant Keep(nodes, fd) == Keep(nodes[..k], fd) && bytes == SumBytes(nodes) - SumBytes(nodes[..k])
        decreases k
      {
        bytes := bytes + msg.frame.Size();
        msg := msg.prev;
        k := k - 1;
        assert nodes[..k + 1][..k] == nodes[..k];
      }
    }

    method Link(msg: Message, ghost keep: nat, ghost joined: seq<Message>) returns (dropped: nat)
      requires Sound() && msg !in pending.nodes && msg.bytesSent == 0 && !msg.submitted && pin.Some?
      requires keep == KeepFor(pending.nodes, msg.fd, msg.frame)
      requires joined == pending.nodes[..keep] + [msg] && SumBytes(joined) <= maxPendingBytes
      modifies pending, pending.nodes`next, pending.nodes`prev, msg`next, msg`prev
      ensures Sound() && pending.nodes == joined && dropped == |old(pending.nodes)| - keep
    {
      ShapeJoin(pending.nodes, msg, inflight, offered, joined);
      dropped := Join(pending, msg, keep, joined);
    }

    /** Superseded motion goes and the new frame joins the tail. */
    method Enqueue(msg: Message, ghost keep: nat, ghost joined: seq<Message>)
      requires Valid() && msg !in pending.nodes && msg.bytesSent == 0 && !msg.submitted && FrameOk(msg.frame, rule)
      requires pin.Some? && keep == KeepFor(pending.nodes, msg.fd, msg.frame)
      requires joined == pending.nodes[..keep] + [msg] && SumBytes(joined) <= maxPendingBytes
      modifies this`coalesced, this`history, pending, pending.nodes`next, pending.nodes`prev, msg`next, msg`prev
      ensures Valid() && pending.nodes == joined && history == old(history) + [Joined(keep, msg.frame)]
    {
      NoteJoin(msg, keep, joined);
      LinkAndCount(msg, keep, joined);
    }

    method LinkAndCount(msg: Message, ghost keep: nat, ghost joined: seq<Message>)
      requires Sound() && msg !in pending.nodes && msg.bytesSent == 0 && !msg.submitted && pin.Some?
      requires keep == KeepFor(pending.nodes, msg.fd, msg.frame)
      requires joined == pending.nodes[..keep] + [msg] && SumBytes(joined) <= maxPendingBytes
      requires fatal || Tracks(history, wire, joined, completed, coalesced + |pending.nodes| - keep, rule)
      modifies this`coalesced, pending, pending.nodes`next, pending.nodes`prev, msg`next, msg`prev
      ensures Valid() && pending.nodes == joined
    {
      var dropped := Link(msg, keep, joined);
      coalesced := coalesced + dropped;
    }

    /** The record of a join, ahead of the join itself. */
    ghost method NoteJoin(msg: Message, keep: nat, joined: seq<Message>)
      requires Valid() && msg.bytesSent == 0 && !msg.submitted && FrameOk(msg.frame, rule)
      requires keep == KeepFor(pending.nodes, msg.fd, msg.frame) && joined == pending.nodes[..keep] + [msg]
      modifies this`history
      ensures Sound() && history == old(history) + [Joined(keep, msg.frame)]
      ensures fatal || Tracks(history, wire, joined, completed, coalesced + |pending.nodes| - keep, rule)
    {
      ShapeJoin(pending.nodes, msg, inflight, offered, joined);
      TrackJoin(history, wire, pending.nodes, completed, coalesced, rule, msg, fatal, joined);
      history := history + [Joined(keep, msg.frame)];
    }

    /** The frames taken from callers on this socket, and the count of all frames taken. */
    ghost predicate Taken(frames: seq<Frame>, count: nat)
      reads `fatal, `history
    {
      fatal || (Legal(history, rule) && Run(history, rule).accepted == frames && Run(history, rule).admitted == count)
    }

    method Start(ghost frames: seq<Frame>, ghost count: nat) returns (ok: bool)
      requires Valid() && Taken(frames, count)
      modifies this, pending, pending.nodes
      ensures Valid() && Within(pending.nodes, old(pending.nodes)) && pin == old(pin) && queued == old(queued)
      ensures Taken(frames, count) && Driven() && (!ok ==> fatal) && (old(fatal) ==> fatal)
    {
      ok := TryStartHead();
      if !fatal {
        ProgressedAccepts(old(history), history, rule);
      }
    }

    method Collect(retry: int, completions: seq<int>, ghost frames: seq<Frame>, ghost count: nat)
      requires Valid() && Driven() && Taken(frames, count)
      modifies this, pending, pending.nodes
      ensures Valid() && Within(pending.nodes, old(pending.nodes)) && pin == old(pin) && queued == old(queued)
      ensures Taken(frames, count) && Driven() && (old(fatal) ==> fatal)
    {
      var _ := Reap(retry, completions);
      if !fatal {
        ProgressedAccepts(old(history), history, rule);
      }
    }

    /** client_async_tcp_sender_reap. */
    method ReapAndStart(retry: int, completions: seq<int>, ghost frames: seq<Frame>)
      requires Valid() && Driven() && Taken(frames, queued)
      modifies this, pending, pending.nodes
      ensures Valid() && Within(pending.nodes, old(pending.nodes)) && pin == old(pin)
      ensures Taken(frames, queued) && Driven() && (old(fatal) ==> fatal)
    {
      Collect(retry, completions, frames, queued);
      var _ := Start(frames, queued);
    }

    /** The capacity test of client_async_tcp_send_message, after what the frame would replace. */
    method HasRoom(fd: int, frame: Frame) returns (room: bool)
      requires Valid()
      ensures room <==> SumBytes(pending.nodes[..KeepFor(pending.nodes, fd, frame)]) + frame.Size() <= Least(maxPendingBytes, U64_MAX)
    {
      assert pending.nodes[..|pending.nodes|] == pending.nodes;
      var superseded := 0;
      if IsMotion(frame) {
        superseded := ReplaceableBytes(fd);
      }
      room := CanEnqueue(pending.bytes, superseded, frame.Size(), maxPendingBytes);
    }

    method Refuse(overflow: bool)
      requires Valid()
      modifies this`failed, this`overflows
      ensures Valid()
    {
      overflows := overflows + if overflow then 1 else 0;
      failed := failed + 1;
    }

    method Append(fd: int, frame: Frame, ghost frames: seq<Frame>)
      requires Valid() && !fatal && pin.Some? && Taken(frames, queued) && FrameOk(frame, rule)
      requires SumBytes(pending.nodes[..KeepFor(pending.nodes, fd, frame)]) + frame.Size() <= maxPendingBytes
      modifies this`coalesced, this`history, pending, pending.nodes`next, pending.nodes`prev
      ensures Valid() && Taken(frames + [frame], queued + 1) && NoForeign(pending.nodes, old(pending.nodes))
    {
      ghost var keep := KeepFor(pending.nodes, fd, frame);
      TakenJoin(history, wire, rule, pending.nodes, completed, coalesced, keep, fd, frame);
      EnqueueNew(fd, frame, keep);
    }

    method EnqueueNew(fd: int, frame: Frame, ghost keep: nat)
      requires Valid() && pin.Some? && FrameOk(frame, rule) && keep == KeepFor(pending.nodes, fd, frame)
      requires SumBytes(pending.nodes[..keep]) + frame.Size() <= maxPendingBytes
      modifies this`coalesced, this`history, pending, pending.nodes`next, pending.nodes`prev
      ensures Valid() && history == old(history) + [Joined(keep, frame)] && NoForeign(pending.nodes, old(pending.nodes))
    {
      var msg := new Message(fd, frame);
      ghost var joined := pending.nodes[..keep] + [msg];
      SumSnoc(pending.nodes[..keep], msg);
      Enqueue(msg, keep, joined);
      assert forall i {:trigger joined[i]} :: 0 <= i < keep ==> joined[i] == old(pending.nodes)[i];
    }

    method AppendAndStart(fd: int, frame: Frame, ghost frames: seq<Frame>) returns (ok: bool)
      requires Valid() && !fatal && pin.Some? && Taken(frames, queued) && FrameOk(frame, rule)
      requires SumBytes(pending.nodes[..KeepFor(pending.nodes, fd, frame)]) + frame.Size() <= maxPendingBytes
      modifies this, pending, pending.nodes
      ensures Valid() && pin == old(pin) && NoForeign(pending.nodes, old(pending.nodes))
      ensures Taken(frames + [frame], queued) && Driven() && (ok <==> !fatal)
    {
      Append(fd, frame, frames);
      ghost var listed := pending.nodes;
      ok := Start(frames + [frame], queued + 1);
      StillNoForeign(pending.nodes, listed, old(pending.nodes));
      if !ok || fatal {
        return false;
      }
      CountQueued();
    }

    method CountQueued()
      requires Valid()
      modifies this`queued
      ensures Valid() && queued == old(queued) + 1
    {
      queued := queued + 1;
    }

    /** client_async_tcp_send_message once the socket is bound. */
    method Accept(fd: int, frame: Frame, created: bool, ghost frames: seq<Frame>) returns (ok: bool)
      requires Valid() && !fatal && Driven() && pin.Some? && Taken(frames, queued)
      requires frame.kind < 0x1_0000 && |frame.payload| < 0x1_0000_0000
      modifies this, pending, pending.nodes
      ensures Valid() && pin == old(pin) && NoForeign(pending.nodes, old(pending.nodes))
      ensures Taken(if ok then frames + [frame] else frames, queued) && Driven()
      ensures var fits := old(SumBytes(pending.nodes[..KeepFor(pending.nodes, fd, frame)])) + frame.Size() <= Least(maxPendingBytes, U64_MAX);
              ok <==> rule(frame.kind, |frame.payload|) && fits && created && !fatal
    {
      if !rule(frame.kind, |frame.payload|) {
        Refuse(false);
        return false;
      }
      var room := HasRoom(fd, frame);
      if !room || !created {
        Refuse(!room);
        return false;
      }
      ok := AppendAndStart(fd, frame, frames);
    }

    /** bind_socket_locked and what it means for the frames taken: a new socket starts with none. */
    method BindFor(cookie: Option<nat>, duplicated: bool, ghost frames: seq<Frame>) returns (ok: bool)
      requires Valid() && !fatal && Taken(frames, queued)
      modifies this`pin, this`history, this`wire, this`failed, this`overflows
      ensures Valid() && Taken(if pin == old(pin) then frames else [], queued)
      ensures ok ==> pin.Some? && pin == cookie
      ensures !ok ==> pin == old(pin)
    {
      ok := Bind(cookie, duplicated);
      if pin != old(pin) {
        Extend(old(history), Bound, rule);
      }
      if !ok {
        Refuse(false);
      }
    }

    /** The part of a send before its frame is looked at. */
    method CollectAndBind(retry: int, completions: seq<int>, cookie: Option<nat>, duplicated: bool, ghost frames: seq<Frame>) returns (bound: bool)
      requires Valid() && Driven() && Taken(frames, queued)
      modifies this, pending, pending.nodes
      ensures Valid() && Driven() && Within(pending.nodes, old(pending.nodes)) && (old(fatal) ==> fatal)
      ensures Taken(if pin == old(pin) then frames else [], queued)
      ensures bound ==> !fatal && pin.Some? && pin == cookie
    {
      Collect(retry, completions, frames, queued);
      if fatal {
        return false;
      }
      bound := BindFor(cookie, duplicated, frames);
    }

    /** client_async_tcp_send_message. */
    method SendMessage(fd: int, frame: Frame, retry: int, completions: seq<int>, cookie: Option<nat>, duplicated: bool, created: bool,
                       ghost frames: seq<Frame>)
      returns (ok: bool)
      requires Valid() && Driven() && Taken(frames, queued)
      requires frame.kind < 0x1_0000 && |frame.payload| < 0x1_0000_0000
      modifies this, pending, pending.nodes
      ensures Valid() && Driven() && NoForeign(pending.nodes, old(pending.nodes)) && (old(fatal) ==> fatal)
      ensures Taken((if pin == old(pin) then frames else []) + (if ok then [frame] else []), queued)
      ensures ok ==> !fatal && fd >= 0 && pin.Some? && pin == cookie && rule(frame.kind, |frame.payload|) && created
    {
      if fd < 0 {
        return false;
      }
      var bound := CollectAndBind(retry, completions, cookie, duplicated, frames);
      ghost var kept := if pin == old(pin) then frames else [];
      assert kept + [] == kept;
      if !bound {
        return false;
      }
      ok := Accept(fd, frame, created, kept);
    }
  }

  ghost predicate Offers(before: seq<seq<Byte>>, after: seq<seq<Byte>>, bytes: seq<Byte>)
  {
    |before| < |after| && after[|before|] == bytes
  }

  lemma OfferKept(before: seq<seq<Byte>>, given: seq<seq<Byte>>, sends: seq<seq<Byte>>, bytes: seq<Byte>)
    requires sends == given + [bytes]
    ensures given == before ==> Offers(before, sends, bytes)
    ensures forall head :: Offers(before, given, head) ==> Offers(before, sends, head)
  {
  }

  function Least(a: nat, b: nat): nat { if a < b then a else b }

  /** Only listed messages and new ones. */
  twostate predicate NoForeign(new a: seq<Message>, b: seq<Message>)
  {
    forall i {:trigger a[i]} :: 0 <= i < |a| ==> a[i] in b || fresh(a[i])
  }

  /** Admitting a frame adds it to the frames accepted. */
  lemma TakenJoin(h: seq<Event>, wire: seq<Byte>, rule: SizeRule, nodes: seq<Message>, completed: nat, coalesced: nat, keep: nat, fd: int,
                  frame: Frame)
    requires Tracks(h, wire, nodes, completed, coalesced, rule) && FrameOk(frame, rule) && keep == KeepFor(nodes, fd, frame)
    ensures var e := Joined(keep, frame);
            && Legal(h + [e], rule) && Run(h + [e], rule).accepted == Run(h, rule).accepted + [frame]
            && Run(h + [e], rule).admitted == Run(h, rule).admitted + 1
  {
    JoinEnabled(Run(h, rule), nodes, keep, fd, frame, rule);
    Extend(h, Joined(keep, frame), rule);
  }

  twostate lemma StillNoForeign(new c: seq<Message>, new b: seq<Message>, a: seq<Message>)
    requires Within(c, b) && NoForeign(b, a)
    ensures NoForeign(c, a)
  {
  }

  ghost predicate Within(a: seq<Message>, b: seq<Message>)
  {
    forall i {:trigger a[i]} :: 0 <= i < |a| ==> a[i] in b
  }
}
