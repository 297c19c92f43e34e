/** End to end: what the peer's reader recovers from the sender's byte stream, over whole runs of both. */
module TcpDelivery {
  import opened Wrappers
  import opened LittleEndian
  import opened TcpFrames
  import opened PointerTraffic
  import opened TcpLedger
  import opened TcpReader
  import opened AsyncTcp

  /** The frame limit of the reader admits every size the shared table admits. */
  ghost predicate Admits(maxPayload: nat, rule: SizeRule)
  {
    forall kind: nat, size: nat :: rule(kind, size) ==> size <= maxPayload
  }

  lemma Starts(header: seq<Byte>, more: seq<Byte>, fs: seq<Frame>, tail: seq<Byte>)
    requires fs != [] && |header| == HEADER && header + more == Sent(fs) + tail
    ensures header == HeaderBytes(fs[0].kind, |fs[0].payload|)
    ensures |more| >= |fs[0].payload|
  {
    Uncons(fs, tail);
    assert header == (header + more)[..HEADER];
  }

  /** On a stream of sound frames the reader always finds the header of the frame that is due. */
  lemma HeaderIsDue(delivered: seq<Frame>, header: seq<Byte>, more: seq<Byte>, fs: seq<Frame>, rule: SizeRule)
    requires AllOk(delivered, rule) && AllOk(fs, rule) && |header| == HEADER
    requires Sent(delivered) + (header + more) == Sent(fs)
    ensures |delivered| < |fs| && header == HeaderBytes(fs[|delivered|].kind, |fs[|delivered|].payload|)
  {
    assert Sent(fs) + [] == Sent(fs);
    if |fs| <= |delivered| {
      FramingIsUnique(fs, [], delivered, header + more, rule);
    } else {
      FramingIsUnique(delivered, header + more, fs, [], rule);
      Starts(header, more, fs[|delivered|..], []);
    }
  }

  /** A reader that has taken in all of the finished frames and part of the next has delivered exactly the finished ones. */
  lemma Exhausted(done: seq<Frame>, next: Frame, part: nat, delivered: seq<Frame>, header: seq<Byte>, payload: seq<Byte>,
                  maxPayload: nat, rule: SizeRule)
    requires AllOk(delivered, rule) && Streamed(Sent(delivered) + (header + payload), done, next, part, rule)
    requires |header| <= HEADER && (|header| < HEADER ==> payload == [])
    requires |header| == HEADER ==>
      ParseHeader(header, maxPayload, rule).Some? && |payload| < ParseHeader(header, maxPayload, rule).value.1
    ensures delivered == done
  {
    var k := |delivered|;
    if k < |done| {
      FramingIsUnique(delivered, header + payload, done, Wire(next)[..part], rule);
      AllOkAt(done, k, rule);
      TooShort(header, payload, done[k..], Wire(next)[..part], maxPayload, rule);
    } else {
      FramingIsUnique(done, Wire(next)[..part], delivered, header + payload, rule);
      if |done| < k {
        AllOkAt(delivered, |done|, rule);
        PartIsShort(next, part, delivered[|done|..], header + payload, rule);
      } else {
        assert delivered[..k] == delivered;
      }
    }
  }

  lemma SizeField(f: Frame, rule: SizeRule)
    requires FrameOk(f, rule)
    ensures FromLE(HeaderBytes(f.kind, |f.payload|)[8..12]) == |f.payload|
  {
    HeaderFields(f.kind, |f.payload|);
    LERoundTrip(4, |f.payload|);
  }

  lemma TooShort(header: seq<Byte>, payload: seq<Byte>, fs: seq<Frame>, tail: seq<Byte>, maxPayload: nat, rule: SizeRule)
    requires fs != [] && FrameOk(fs[0], rule) && |header| <= HEADER && (|header| < HEADER ==> payload == [])
    requires |header| == HEADER ==>
      ParseHeader(header, maxPayload, rule).Some? && |payload| < ParseHeader(header, maxPayload, rule).value.1
    ensures header + payload != Sent(fs) + tail
  {
    Uncons(fs, tail);
    if header + payload == Sent(fs) + tail {
      assert |header + payload| >= HEADER;
      Starts(header, payload, fs, tail);
      SizeField(fs[0], rule);
    }
  }

  lemma PartIsShort(next: Frame, part: nat, fs: seq<Frame>, tail: seq<Byte>, rule: SizeRule)
    requires (part > 0 ==> FrameOk(next, rule)) && part < next.Size() && fs != [] && FrameOk(fs[0], rule)
    ensures Wire(next)[..part] != Sent(fs) + tail
  {
    Uncons(fs, tail);
    if Wire(next)[..part] == Sent(fs) + tail {
      var w := Wire(next)[..part];
      assert w[..HEADER] == HeaderBytes(next.kind, |next.payload|);
      Starts(w[..HEADER], w[HEADER..], fs, tail);
      SizeField(fs[0], rule);
      SizeField(next, rule);
    }
  }

  /** No header check fails on the bytes of a sound sender. */
  lemma HeaderPasses(done: seq<Frame>, next: Frame, part: nat, delivered: seq<Frame>, header: seq<Byte>, more: seq<Byte>,
                     maxPayload: nat, rule: SizeRule)
    requires AllOk(delivered, rule) && |header| == HEADER && Streamed(Sent(delivered) + (header + more), done, next, part, rule)
    requires Admits(maxPayload, rule)
    ensures ParseHeader(header, maxPayload, rule).Some?
  {
    var fs, unsent := done, [];
    if part > 0 {
      fs, unsent := done + [next], Wire(next)[part..];
      AllOkSnoc(done, next, rule);
      SentSnoc(done, next);
      Cut(Sent(done), Wire(next), part, next.Size());
      assert Wire(next)[part..next.Size()] == unsent;
    }
    assert Sent(fs) == (Sent(done) + Wire(next)[..part]) + unsent;
    Associative(Sent(delivered), header + more, unsent);
    Associative(header, more, unsent);
    HeaderIsDue(delivered, header, more + unsent, fs, rule);
    AllOkAt(fs, |delivered|, rule);
    ParseWritten(fs[|delivered|], maxPayload, rule);
  }

  /** The stream of a sender: finished frames and part of the next. */
  ghost predicate Streamed(stream: seq<Byte>, done: seq<Frame>, next: Frame, part: nat, rule: SizeRule)
  {
    && AllOk(done, rule) && part < next.Size() && (part > 0 ==> FrameOk(next, rule))
    && stream == Sent(done) + Wire(next)[..part]
  }

  method ReadOne(reader: Reader, inbox: seq<Byte>, ghost done: seq<Frame>, ghost next: Frame, ghost part: nat)
    returns (status: Status, rest: seq<Byte>)
    requires reader.Valid() && Admits(reader.maxPayload, reader.rule)
    requires Streamed(reader.seen + inbox, done, next, part, reader.rule)
    modifies reader
    ensures reader.Valid() && reader.Waiting() && reader.seen + rest == old(reader.seen) + inbox
    ensures !status.Invalid?
    ensures reader.delivered == old(reader.delivered) + if status.Whole? then [status.frame] else []
  {
    status, rest := reader.Receive(inbox);
    if status.Invalid? {
      Associative(Sent(reader.delivered), reader.header + reader.payload, rest);
      Associative(reader.header, reader.payload, rest);
      HeaderPasses(done, next, part, reader.delivered, reader.header, reader.payload + rest, reader.maxPayload, reader.rule);
      assert false;
    }
  }

  lemma NothingRead(stream: seq<Byte>)
    ensures [] + stream == stream
  {
  }

  lemma NothingLeft(seen: seq<Byte>)
    ensures seen + [] == seen
  {
  }

  /** Reading a sender's stream, however the kernel cuts it up: no header is refused, and once every byte is read the frames
      delivered are exactly the ones the sender finished. */
  method ReadStream(stream: seq<Byte>, attempts: nat, maxPayload: nat, rule: SizeRule, ghost done: seq<Frame>, ghost next: Frame,
                    ghost part: nat)
    returns (received: seq<Frame>, left: seq<Byte>, refused: bool)
    requires Streamed(stream, done, next, part, rule) && Admits(maxPayload, rule)
    ensures !refused && (left == [] ==> received == done)
  {
    var reader := new Reader(maxPayload, rule);
    received, left, refused := [], stream, false;
    NothingRead(stream);
    for i := 0 to attempts
      invariant reader.Valid() && reader.Waiting() && received == reader.delivered && fresh(reader) && !refused
      invariant reader.seen + left == stream && reader.maxPayload == maxPayload && reader.rule == rule
    {
      var status;
      status, left := ReadOne(reader, left, done, next, part);
      refused := refused || status.Invalid?;
      if status.Whole? {
        received := received + [status.frame];
      }
    }
    if left == [] {
      NothingLeft(reader.seen);
      Exhausted(done, next, part, reader.delivered, reader.header, reader.payload, maxPayload, rule);
    }
  }

  // ----- runs of the sender

  /** A call of the sender with what the system answers to it. */
  datatype Op =
    | Send(fd: int, frame: Frame, retry: int, completions: seq<int>, cookie: Option<nat>, duplicated: bool, created: bool)
    | Poll(retry: int, completions: seq<int>)

  predicate OpOk(op: Op)
  {
    op.Send? ==> op.frame.kind < 0x1_0000 && |op.frame.payload| < 0x1_0000_0000
  }

  /** Any run of the sender: `taken` are the frames it accepted for the socket it is bound to. Until the connection breaks, the
      bytes the kernel took are the finished frames whole and in order and part of the next; what the sender has finished and
      still lists is what it took, up to superseded pointer motion. */
  method Execute(maxPendingBytes: nat, rule: SizeRule, ops: seq<Op>) returns (sender: Sender, taken: seq<Frame>)
    requires forall i :: 0 <= i < |ops| ==> OpOk(ops[i])
    ensures sender.Valid() && sender.Driven() && sender.rule == rule
    ensures !sender.fatal ==>
      && sender.wire == sender.State().wire && Faithful(sender.State(), rule)
      && Same(taken, sender.State().done + Frames(sender.pending.nodes))
      && sender.queued == sender.completed + sender.coalesced + |sender.pending.nodes|
  {
    sender := new Sender(maxPendingBytes, rule);
    taken := [];
    for i := 0 to |ops|
      invariant sender.Valid() && sender.Driven() && sender.Taken(taken, sender.queued) && sender.rule == rule
      invariant fresh(sender) && fresh(sender.pending) && fresh(sender.pending.nodes)
    {
      match ops[i] {
        case Send(fd, frame, retry, completions, cookie, duplicated, created) =>
          var pin := sender.pin;
          var ok := sender.SendMessage(fd, frame, retry, completions, cookie, duplicated, created, taken);
          taken := (if sender.pin == pin then taken else []) + if ok then [frame] else [];
        case Poll(retry, completions) =>
          sender.ReapAndStart(retry, completions, taken);
      }
    }
    if !sender.fatal {
      HistoryIsFaithful(sender.history, rule);
    }
  }

  /** End to end: a peer that reads what the kernel took from the sender refuses no header, and once it has read every byte it
      holds exactly the finished frames; with what is still listed they are what the sender accepted, up to superseded pointer
      motion, so that everything else has arrived or is still listed, in order. */
  method PeerReads(sender: Sender, stream: seq<Byte>, attempts: nat, maxPayload: nat)
    returns (received: seq<Frame>, left: seq<Byte>, refused: bool)
    requires sender.Valid() && !sender.fatal && stream == sender.wire && Admits(maxPayload, sender.rule)
    ensures !refused
    ensures left == [] ==>
      && received == sender.State().done
      && Same(sender.State().accepted, received + Frames(sender.pending.nodes))
      && Others(sender.State().accepted) == Others(received + Frames(sender.pending.nodes))
  {
    ghost var book := sender.State();
    HistoryIsFaithful(sender.history, sender.rule);
    SameKeepsOthers(book.accepted, book.done + book.queue);
    ghost var next := Upcoming(book, sender.rule);
    received, left, refused := ReadStream(stream, attempts, maxPayload, sender.rule, book.done, next, book.part);
  }

  lemma Upcoming(b: Book, rule: SizeRule) returns (next: Frame)
    requires Faithful(b, rule)
    ensures Streamed(b.wire, b.done, next, b.part, rule)
  {
    next := if b.queue == [] then Frame(0, []) else b.queue[0];
    if b.queue != [] {
      AllOkAt(b.queue, 0, rule);
    }
  }
}
