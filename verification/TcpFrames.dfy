/** Frames on the TCP channels: how they are written (src/client/client_async_tcp.cpp) and read back (src/common/wd_net.c). */
module TcpFrames {
  import opened Wrappers
  import opened LittleEndian

  const TCP_MAGIC: nat := 0x5443_4457
  const PROTOCOL_VERSION: nat := 2
  const HEADER: nat := 12

  datatype Frame = Frame(kind: nat, payload: seq<Byte>) {
    function Size(): nat { HEADER + |payload| }
  }

  /** Both ends share one table of payload sizes per message type; it is a parameter here. */
  type SizeRule = (nat, nat) -> bool

  predicate FrameOk(f: Frame, rule: SizeRule)
  {
    f.kind < 0x1_0000 && |f.payload| < 0x1_0000_0000 && rule(f.kind, |f.payload|)
  }

  ghost predicate AllOk(fs: seq<Frame>, rule: SizeRule)
  {
    fs == [] || (FrameOk(fs[|fs| - 1], rule) && AllOk(fs[..|fs| - 1], rule))
  }

  lemma {:induction false} AllOkAt(fs: seq<Frame>, i: nat, rule: SizeRule)
    requires AllOk(fs, rule) && i < |fs|
    ensures FrameOk(fs[i], rule)
  {
    if i < |fs| - 1 {
      AllOkAt(fs[..|fs| - 1], i, rule);
    }
  }

  lemma {:induction false} AllOkSlice(fs: seq<Frame>, i: nat, j: nat, rule: SizeRule)
    requires AllOk(fs, rule) && i <= j <= |fs|
    ensures AllOk(fs[i..j], rule)
    ensures i == 0 ==> AllOk(fs[..j], rule)
    ensures j == |fs| ==> AllOk(fs[i..], rule)
    decreases j
  {
    assert fs[0..j] == fs[..j] && fs[i..|fs|] == fs[i..];
    if i < j {
      AllOkSlice(fs, i, j - 1, rule);
      AllOkAt(fs, j - 1, rule);
      assert fs[i..j][..j - 1 - i] == fs[i..j - 1];
    }
  }

  lemma AllOkSnoc(fs: seq<Frame>, f: Frame, rule: SizeRule)
    requires AllOk(fs, rule) && FrameOk(f, rule)
    ensures AllOk(fs + [f], rule)
  {
    assert (fs + [f])[..|fs|] == fs;
  }

  function HeaderBytes(kind: nat, size: nat): (h: seq<Byte>)
    ensures |h| == HEADER
  {
    LE(4, TCP_MAGIC) + LE(2, PROTOCOL_VERSION) + LE(2, kind) + LE(4, size)
  }

  lemma HeaderFields(kind: nat, size: nat)
    ensures var h := HeaderBytes(kind, size);
            && h[0..4] == LE(4, TCP_MAGIC) && h[4..6] == LE(2, PROTOCOL_VERSION)
            && h[6..8] == LE(2, kind) && h[8..12] == LE(4, size)
  {
  }

  function Wire(f: Frame): (w: seq<Byte>)
    ensures |w| == f.Size()
  {
    HeaderBytes(f.kind, |f.payload|) + f.payload
  }

  /** The byte stream of frames written one after the other. */
  ghost function Sent(fs: seq<Frame>): seq<Byte>
  {
    if fs == [] then [] else Sent(fs[..|fs| - 1]) + Wire(fs[|fs| - 1])
  }

  /** wd_tcp_reader_receive's header check: the message type and payload size, or a frame error. */
  function ParseHeader(h: seq<Byte>, maxPayload: nat, rule: SizeRule): Option<(nat, nat)>
    requires |h| == HEADER
  {
    var kind, size := FromLE(h[6..8]), FromLE(h[8..12]);
    if FromLE(h[0..4]) != TCP_MAGIC || FromLE(h[4..6]) != PROTOCOL_VERSION || size > maxPayload || !rule(kind, size) then None
    else Some((kind, size))
  }

  lemma ParseWritten(f: Frame, maxPayload: nat, rule: SizeRule)
    requires FrameOk(f, rule) && |f.payload| <= maxPayload
    ensures ParseHeader(HeaderBytes(f.kind, |f.payload|), maxPayload, rule) == Some((f.kind, |f.payload|))
  {
    HeaderFields(f.kind, |f.payload|);
    LERoundTrip(4, TCP_MAGIC);
    LERoundTrip(2, PROTOCOL_VERSION);
    LERoundTrip(2, f.kind);
    LERoundTrip(4, |f.payload|);
  }

  /** A header that parses is the header the writer produces for that type and size. */
  lemma WriteParsed(h: seq<Byte>, maxPayload: nat, rule: SizeRule)
    requires |h| == HEADER && ParseHeader(h, maxPayload, rule).Some?
    ensures var (kind, size) := ParseHeader(h, maxPayload, rule).value;
            h == HeaderBytes(kind, size) && kind < 0x1_0000 && size < 0x1_0000_0000 && rule(kind, size)
  {
    var (kind, size) := ParseHeader(h, maxPayload, rule).value;
    LEOfBytes(h[0..4]);
    LEOfBytes(h[4..6]);
    LEOfBytes(h[6..8]);
    LEOfBytes(h[8..12]);
    assert h == h[0..4] + h[4..6] + h[6..8] + h[8..12];
  }

  lemma {:induction false} SentFront(f: Frame, fs: seq<Frame>)
    ensures Sent([f] + fs) == Wire(f) + Sent(fs)
  {
    if fs != [] {
      var front := fs[..|fs| - 1];
      SentFront(f, front);
      assert ([f] + fs)[..|fs|] == [f] + front;
    }
  }

  lemma SentSnoc(fs: seq<Frame>, f: Frame)
    ensures Sent(fs + [f]) == Sent(fs) + Wire(f)
  {
    assert (fs + [f])[..|fs|] == fs;
  }

  lemma SameFirst(f: Frame, a: seq<Byte>, g: Frame, b: seq<Byte>, rule: SizeRule)
    requires FrameOk(f, rule) && FrameOk(g, rule)
    requires Wire(f) + a == Wire(g) + b
    ensures f == g && a == b
  {
    var s := Wire(f) + a;
    assert s[..HEADER] == HeaderBytes(f.kind, |f.payload|);
    assert s[..HEADER] == HeaderBytes(g.kind, |g.payload|);
    HeaderFields(f.kind, |f.payload|);
    HeaderFields(g.kind, |g.payload|);
    LERoundTrip(2, f.kind);
    LERoundTrip(2, g.kind);
    LERoundTrip(4, |f.payload|);
    LERoundTrip(4, |g.payload|);
    assert f.payload == s[HEADER..][..|f.payload|] == g.payload;
    assert a == s[|Wire(f)|..] == b;
  }

  lemma Uncons(fs: seq<Frame>, a: seq<Byte>)
    requires fs != []
    ensures Sent(fs) + a == Wire(fs[0]) + (Sent(fs[1..]) + a)
  {
    SentFront(fs[0], fs[1..]);
    assert [fs[0]] + fs[1..] == fs;
    Associative(Wire(fs[0]), Sent(fs[1..]), a);
  }

  lemma Associative<T>(x: seq<T>, y: seq<T>, z: seq<T>)
    ensures (x + y) + z == x + (y + z)
  {
  }

  lemma TailPrefix<T>(s: seq<T>, t: seq<T>)
    requires 0 < |s| <= |t| && s[0] == t[0] && s[1..] == t[1..][..|s| - 1]
    ensures s == t[..|s|] && t[1..][|s| - 1..] == t[|s|..]
  {
    assert s == [s[0]] + s[1..];
  }

  /** Framing is unambiguous: two frame lists that explain one stream agree as far as the shorter goes. */
  lemma {:induction false} FramingIsUnique(fs: seq<Frame>, a: seq<Byte>, gs: seq<Frame>, b: seq<Byte>, rule: SizeRule)
    requires AllOk(fs, rule) && AllOk(gs, rule) && |fs| <= |gs|
    requires Sent(fs) + a == Sent(gs) + b
    ensures fs == gs[..|fs|] && a == Sent(gs[|fs|..]) + b
    decreases |fs|
  {
    if fs == [] {
      assert gs[0..] == gs;
      assert Sent(fs) + a == a;
    } else {
      Uncons(fs, a);
      Uncons(gs, b);
      AllOkAt(fs, 0, rule);
      AllOkAt(gs, 0, rule);
      AllOkSlice(fs, 1, |fs|, rule);
      AllOkSlice(gs, 1, |gs|, rule);
      SameFirst(fs[0], Sent(fs[1..]) + a, gs[0], Sent(gs[1..]) + b, rule);
      FramingIsUnique(fs[1..], a, gs[1..], b, rule);
      TailPrefix(fs, gs);
    }
  }
}
