/** The incremental frame reader of src/common/wd_net.c, and what it recovers from a sender's byte stream. */
module TcpReader {
  import opened Wrappers
  import opened TcpFrames

  datatype Status = NeedMore | Invalid | Whole(frame: Frame)

  class Reader {
    const maxPayload: nat
    const rule: SizeRule
    var header: seq<Byte>
    var decoded: bool
    var kind: nat
    var size: nat
    var payload: seq<Byte>
    ghost var seen: seq<Byte>
    ghost var delivered: seq<Frame>

    /** Everything read so far is the delivered frames followed by the frame in progress. */
    ghost predicate Valid()
      reads this
    {
      && |header| <= HEADER
      && (decoded ==> |header| == HEADER && ParseHeader(header, maxPayload, rule) == Some((kind, size)) && |payload| <= size)
      && (!decoded ==> payload == [])
      && seen == Sent(delivered) + (header + payload)
      && AllOk(delivered, rule)
    }

    /** The frame in progress lacks bytes, and its header was checked as soon as it was whole. */
    ghost predicate Waiting()
      reads this
    {
      if decoded then |payload| < size else |header| < HEADER
    }

    constructor (maxPayload: nat, rule: SizeRule)
      ensures Valid() && Waiting() && seen == [] && delivered == [] && this.maxPayload == maxPayload && this.rule == rule
    {
      this.maxPayload, this.rule := maxPayload, rule;
      header, decoded, kind, size, payload := [], false, 0, 0, [];
      seen, delivered := [], [];
    }

    /** wd_tcp_reader_recv_bytes: the kernel hands over bytes in pieces of its own choosing and may stop at any time. */
    static method Pull(inbox: seq<Byte>, buffer: seq<Byte>, expected: nat) returns (grown: seq<Byte>, rest: seq<Byte>)
      requires |buffer| <= expected
      ensures |buffer| <= |grown| <= expected && grown + rest == buffer + inbox
    {
      grown, rest := buffer, inbox;
      while |grown| < expected && rest != []
        invariant |buffer| <= |grown| <= expected && grown + rest == buffer + inbox
      {
        var count: int := *;
        if count <= 0 || count > |rest| || count > expected - |grown| {
          return;
        }
        assert grown + rest == (grown + rest[..count]) + rest[count..];
        grown, rest := grown + rest[..count], rest[count..];
      }
    }

    method ReadHeader(inbox: seq<Byte>) returns (valid: bool, rest: seq<Byte>)
      requires Valid() && !decoded
      modifies this
      ensures Valid() && delivered == old(delivered) && seen + rest == old(seen) + inbox
      ensures valid ==> (decoded <==> |header| == HEADER) && payload == []
      ensures !valid ==> |header| == HEADER && ParseHeader(header, maxPayload, rule) == None
    {
      var before := header;
      header, rest := Pull(inbox, header, HEADER);
      ghost var base := Sent(delivered);
      assert header + payload == header && before + payload == before;
      seen := base + header;
      Associative(base, header, rest);
      Associative(base, before, inbox);
      if |header| < HEADER {
        return true, rest;
      }
      match ParseHeader(header, maxPayload, rule)
      case None => return false, rest;
      case Some(fields) =>
        decoded, kind, size := true, fields.0, fields.1;
        return true, rest;
    }

    method ReadPayload(inbox: seq<Byte>) returns (status: Status, rest: seq<Byte>)
      requires Valid() && decoded
      modifies this
      ensures Valid() && seen + rest == old(seen) + inbox && !status.Invalid?
      ensures status.NeedMore? ==> Waiting() && delivered == old(delivered)
      ensures status.Whole? ==> delivered == old(delivered) + [status.frame] && header == [] && !decoded
    {
      ghost var base, before := Sent(delivered), header + payload;
      ghost var had := payload;
      payload, rest := Pull(inbox, payload, size);
      Associative(base, before, inbox);
      Associative(header, had, inbox);
      Associative(header, payload, rest);
      seen := base + (header + payload);
      Associative(base, header + payload, rest);
      if |payload| < size {
        return NeedMore, rest;
      }
      var frame := Frame(kind, payload);
      Completed(header, frame, delivered, maxPayload, rule);
      delivered := delivered + [frame];
      header, decoded, payload := [], false, [];
      return Whole(frame), rest;
    }

    /** wd_tcp_reader_receive on the bytes the kernel holds; `rest` is what it leaves there. */
    method Receive(inbox: seq<Byte>) returns (status: Status, rest: seq<Byte>)
      requires Valid()
      modifies this
      ensures Valid() && seen + rest == old(seen) + inbox
      ensures status.NeedMore? ==> Waiting() && delivered == old(delivered)
      ensures status.Whole? ==> delivered == old(delivered) + [status.frame] && Waiting()
      ensures status.Invalid? ==> |header| == HEADER && ParseHeader(header, maxPayload, rule) == None && delivered == old(delivered)
    {
      rest := inbox;
      if !decoded {
        var valid;
        valid, rest := ReadHeader(inbox);
        if !valid {
          return Invalid, rest;
        }
        if !decoded {
          return NeedMore, rest;
        }
      }
      status, rest := ReadPayload(rest);
    }
  }

  lemma Completed(header: seq<Byte>, f: Frame, delivered: seq<Frame>, maxPayload: nat, rule: SizeRule)
    requires |header| == HEADER && ParseHeader(header, maxPayload, rule) == Some((f.kind, |f.payload|)) && AllOk(delivered, rule)
    ensures FrameOk(f, rule) && header + f.payload == Wire(f)
    ensures AllOk(delivered + [f], rule) && Sent(delivered) + (header + f.payload) == Sent(delivered + [f]) + ([] + [])
  {
    WriteParsed(header, maxPayload, rule);
    AllOkSnoc(delivered, f, rule);
    SentSnoc(delivered, f);
    assert Sent(delivered + [f]) + ([] + []) == Sent(delivered + [f]);
  }
}
