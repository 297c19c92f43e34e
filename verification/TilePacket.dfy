/** The UDP tile packet of include/waydisplay/wd_protocol.h: its header codec, the header checks of the client
    and the layout of a tile payload over its fragments. */
module TilePacket {
  import opened Wrappers
  import opened Arithmetic
  import opened LittleEndian
  import opened TileGeometry

  const HEADER_SIZE: nat := 36
  const EXTENSION_SIZE: nat := 8
  const U8_MAX: nat := 0xFF

  /** Decoded header; headerSize tells whether the input-sequence extension was present. */
  datatype Header = Header(sessionId: nat, token: nat, epoch: nat, flags: nat, tileSize: nat, pktId: nat, tileId: nat,
                           pktCount: nat, payloadSize: nat, tilePayloadSize: nat, generation: nat, inputSequence: nat,
                           headerSize: nat)

  predicate IsCompressed(h: Header) { h.flags % 2 == 1 }

  predicate HasInputSequence(flags: nat) { flags / 2 % 2 == 1 }

  function HeaderSizeFor(flags: nat): nat
  {
    if flags > 3 then 0 else HEADER_SIZE + if HasInputSequence(flags) then EXTENSION_SIZE else 0
  }

  // ----- the codec

  predicate FieldsAccepted(h: Header)
  {
    && h.sessionId != 0 && h.token != 0 && h.epoch != 0
    && h.pktCount != 0 && h.pktId < h.pktCount && h.payloadSize != 0 && h.tilePayloadSize != 0
    && h.payloadSize <= h.tilePayloadSize && h.generation != 0 && TileSizeKnown(h.tileSize)
  }

  function Wire(h: Header): (w: seq<Byte>)
    ensures |w| == HEADER_SIZE
  {
    LE(1, h.sessionId) + LE(8, h.token) + LE(8, h.epoch) + LE(1, h.flags) + LE(1, h.tileSize) + LE(1, h.pktId)
    + LE(2, h.tileId) + LE(1, h.pktCount) + LE(1, 0) + LE(2, h.payloadSize) + LE(2, h.tilePayloadSize) + LE(8, h.generation)
  }

  /** wd_udp_tile_packet_encode_header into a buffer of the given capacity. */
  function Encode(h: Header, capacity: nat): Option<seq<Byte>>
  {
    var size := HeaderSizeFor(h.flags);
    if !FieldsAccepted(h) || size == 0 || capacity < size
       || (HasInputSequence(h.flags) && (h.pktId != 0 || h.inputSequence == 0)) then None
    else Some(Wire(h) + if HasInputSequence(h.flags) then LE(8, h.inputSequence) else [])
  }

  function Unwire(p: seq<Byte>): Header
    requires |p| >= HEADER_SIZE
  {
    Header(FromLE(p[0..1]), FromLE(p[1..9]), FromLE(p[9..17]), FromLE(p[17..18]), FromLE(p[18..19]), FromLE(p[19..20]),
           FromLE(p[20..22]), FromLE(p[22..23]), FromLE(p[24..26]), FromLE(p[26..28]), FromLE(p[28..36]), 0,
           HeaderSizeFor(FromLE(p[17..18])))
  }

  /** wd_udp_tile_packet_decode. */
  function Decode(p: seq<Byte>): Option<Header>
  {
    if |p| < HEADER_SIZE then None else
      var h := Unwire(p);
      if h.headerSize == 0 || |p| < h.headerSize || FromLE(p[23..24]) != 0 || !FieldsAccepted(h) then None else
        var extended := HasInputSequence(h.flags);
        var sequence := if extended then FromLE(p[36..44]) else 0;
        if extended && (h.pktId != 0 || sequence == 0) then None
        else if h.headerSize + h.payloadSize != |p| then None
        else Some(h.(inputSequence := sequence))
  }

  /** A header whose fields fit their wire width and are those an encoder accepts. */
  predicate Canonical(h: Header)
  {
    && h.sessionId < Pow256(1) && h.token < Pow256(8) && h.epoch < Pow256(8) && h.tileSize < Pow256(1)
    && h.flags <= 3 && h.pktId < Pow256(1) && h.tileId < Pow256(2) && h.pktCount < Pow256(1) && h.payloadSize < Pow256(2)
    && h.tilePayloadSize < Pow256(2) && h.generation < Pow256(8) && h.inputSequence < Pow256(8)
    && FieldsAccepted(h) && h.headerSize == HeaderSizeFor(h.flags)
    && (if HasInputSequence(h.flags) then h.pktId == 0 && h.inputSequence != 0 else h.inputSequence == 0)
  }

  lemma WireSlices(h: Header, rest: seq<Byte>)
    ensures var p := Wire(h) + rest;
            && p[0..1] == LE(1, h.sessionId) && p[1..9] == LE(8, h.token) && p[9..17] == LE(8, h.epoch)
            && p[17..18] == LE(1, h.flags) && p[18..19] == LE(1, h.tileSize) && p[19..20] == LE(1, h.pktId)
            && p[20..22] == LE(2, h.tileId) && p[22..23] == LE(1, h.pktCount) && p[23..24] == LE(1, 0)
            && p[24..26] == LE(2, h.payloadSize) && p[26..28] == LE(2, h.tilePayloadSize) && p[28..36] == LE(8, h.generation)
  {}

  lemma UnwireWire(h: Header, rest: seq<Byte>)
    requires Canonical(h)
    ensures Unwire(Wire(h) + rest) == h.(inputSequence := 0) && FromLE((Wire(h) + rest)[23..24]) == 0
  {
    WireSlices(h, rest);
    LERoundTrip(1, h.sessionId); LERoundTrip(8, h.token); LERoundTrip(8, h.epoch); LERoundTrip(1, h.flags);
    LERoundTrip(1, h.tileSize); LERoundTrip(1, h.pktId); LERoundTrip(2, h.tileId); LERoundTrip(1, h.pktCount);
    LERoundTrip(1, 0); LERoundTrip(2, h.payloadSize); LERoundTrip(2, h.tilePayloadSize); LERoundTrip(8, h.generation);
  }

  /** Encoding a canonical header and decoding it with its payload gives the header back. */
  lemma DecodeEncode(h: Header, payload: seq<Byte>, capacity: nat)
    requires Canonical(h) && |payload| == h.payloadSize && capacity >= h.headerSize
    ensures Encode(h, capacity).Some? && |Encode(h, capacity).value| == h.headerSize
    ensures Decode(Encode(h, capacity).value + payload) == Some(h)
  {
    var extension := if HasInputSequence(h.flags) then LE(8, h.inputSequence) else [];
    var p := Encode(h, capacity).value + payload;
    assert p == Wire(h) + (extension + payload);
    UnwireWire(h, extension + payload);
    if HasInputSequence(h.flags) {
      assert p[36..44] == LE(8, h.inputSequence);
      LERoundTrip(8, h.inputSequence);
    }
  }

  lemma WireUnwire(p: seq<Byte>)
    requires |p| >= HEADER_SIZE && FromLE(p[23..24]) == 0
    ensures Wire(Unwire(p)) == p[..36]
  {
    LEOfBytes(p[0..1]); LEOfBytes(p[1..9]); LEOfBytes(p[9..17]); LEOfBytes(p[17..18]); LEOfBytes(p[18..19]);
    LEOfBytes(p[19..20]); LEOfBytes(p[20..22]); LEOfBytes(p[22..23]); LEOfBytes(p[23..24]); LEOfBytes(p[24..26]);
    LEOfBytes(p[26..28]); LEOfBytes(p[28..36]);
    assert p[..36] == p[0..1] + p[1..9] + p[9..17] + p[17..18] + p[18..19] + p[19..20] + p[20..22] + p[22..23] + p[23..24]
                      + p[24..26] + p[26..28] + p[28..36];
  }

  /** Whatever the decoder accepts is canonical, fills the packet, and re-encodes to the packet's own header bytes. */
  lemma EncodeDecode(p: seq<Byte>)
    requires Decode(p).Some?
    ensures var h := Decode(p).value;
            && Canonical(h) && |p| == h.headerSize + h.payloadSize
            && Encode(h, h.headerSize) == Some(p[..h.headerSize])
  {
    var h := Decode(p).value;
    FieldsFit(p);
    WireUnwire(p);
    assert Wire(h) == Wire(Unwire(p));
    if HasInputSequence(h.flags) {
      LEOfBytes(p[36..44]);
      assert LE(8, h.inputSequence) == p[36..44];
      assert p[..44] == p[..36] + p[36..44];
    } else {
      assert p[..36] + [] == p[..36];
    }
  }

  lemma FieldsFit(p: seq<Byte>)
    requires |p| >= HEADER_SIZE
    ensures var h := Unwire(p);
            && h.sessionId < Pow256(1) && h.token < Pow256(8) && h.epoch < Pow256(8) && h.tileSize < Pow256(1)
            && h.pktId < Pow256(1) && h.tileId < Pow256(2) && h.pktCount < Pow256(1) && h.payloadSize < Pow256(2)
            && h.tilePayloadSize < Pow256(2) && h.generation < Pow256(8)
  {
    LEOfBytes(p[0..1]); LEOfBytes(p[1..9]); LEOfBytes(p[9..17]); LEOfBytes(p[18..19]); LEOfBytes(p[19..20]);
    LEOfBytes(p[20..22]); LEOfBytes(p[22..23]); LEOfBytes(p[24..26]); LEOfBytes(p[26..28]); LEOfBytes(p[28..36]);
  }

  // ----- fragments of a tile payload

  function PacketCount(total: nat, target: nat): int
    requires target > 0
  {
    Quotient(total + target - 1, target)
  }

  function FragmentStart(i: nat, target: nat): int { Product(i, target) }

  function FragmentLength(i: nat, total: nat, target: nat): int { Min(total - FragmentStart(i, target), target) }

  /** wd_udp_tile_fragment_layout_valid, with the payload size of the header as total. */
  predicate LayoutValid(h: Header, packetSize: nat, target: nat)
  {
    && target != 0 && h.tilePayloadSize != 0
    && h.headerSize + h.payloadSize == packetSize
    && 0 < PacketCount(h.tilePayloadSize, target) <= U8_MAX && h.pktCount == PacketCount(h.tilePayloadSize, target)
    && h.pktId < h.pktCount
    && h.payloadSize == FragmentLength(h.pktId, h.tilePayloadSize, target)
  }

  /** Fragments lie inside the payload and are not empty. */
  lemma FragmentInside(i: nat, total: nat, target: nat)
    requires target > 0 && i < PacketCount(total, target)
    ensures 0 <= FragmentStart(i, target) < total
    ensures 0 < FragmentLength(i, total, target) && FragmentStart(i, target) + FragmentLength(i, total, target) <= total
  {
    QuotientBlock(total + target - 1, target, i + 1);
    ProductAdd(i, 1, target);
    MulBound(0, 0, i, target);
  }

  /** Fragments partition the payload: each byte belongs to one fragment, its quotient by the target. */
  lemma FragmentsPartition(b: nat, total: nat, target: nat, i: nat)
    requires target > 0 && b < total
    ensures 0 <= Quotient(b, target) < PacketCount(total, target)
    ensures i < PacketCount(total, target) ==>
              (FragmentStart(i, target) <= b < FragmentStart(i, target) + FragmentLength(i, total, target) <==> i == Quotient(b, target))
  {
    var n := PacketCount(total, target);
    QuotientBlock(b, target, i);
    QuotientBlock(b, target, 0);
    QuotientBlock(b, target, n);
    QuotientBlock(total + target - 1, target, n);
  }

  /** Bytes of one fragment of a payload. */
  function Fragment(payload: seq<Byte>, i: nat, target: nat): seq<Byte>
    requires target > 0 && i < PacketCount(|payload|, target)
  {
    FragmentInside(i, |payload|, target);
    payload[FragmentStart(i, target)..FragmentStart(i, target) + FragmentLength(i, |payload|, target)]
  }

  /** A buffer that agrees with a payload on every fragment is the payload. */
  lemma FragmentsDetermine(a: seq<Byte>, b: seq<Byte>, target: nat)
    requires target > 0 && |a| == |b|
    requires forall i: nat :: i < PacketCount(|a|, target) ==> Fragment(a, i, target) == Fragment(b, i, target)
    ensures a == b
  {
    forall k | 0 <= k < |a| ensures a[k] == b[k] {
      var i := Quotient(k, target);
      FragmentsPartition(k, |a|, target, 0);
      FragmentsPartition(k, |a|, target, i);
      FragmentInside(i, |a|, target);
      assert Fragment(a, i, target)[k - FragmentStart(i, target)] == a[k];
      assert Fragment(b, i, target)[k - FragmentStart(i, target)] == b[k];
    }
  }

  /** Copying a fragment into a buffer sets that fragment and leaves every other one alone. */
  lemma CopyFragment(buffer: seq<Byte>, i: nat, bytes: seq<Byte>, target: nat, j: nat)
    requires target > 0 && i < PacketCount(|buffer|, target) && j < PacketCount(|buffer|, target)
    requires |bytes| == FragmentLength(i, |buffer|, target)
    ensures var start := FragmentStart(i, target);
            && 0 <= start && start + |bytes| <= |buffer|
            && var copied := buffer[..start] + bytes + buffer[start + |bytes|..];
               && |copied| == |buffer|
               && Fragment(copied, j, target) == if j == i then bytes else Fragment(buffer, j, target)
  {
    FragmentInside(i, |buffer|, target);
    FragmentInside(j, |buffer|, target);
    var start := FragmentStart(i, target);
    var copied := buffer[..start] + bytes + buffer[start + |bytes|..];
    var from, len := FragmentStart(j, target), FragmentLength(j, |buffer|, target);
    if j != i {
      forall k | from <= k < from + len ensures copied[k] == buffer[k] {
        FragmentsPartition(k, |buffer|, target, i);
        FragmentsPartition(k, |buffer|, target, j);
      }
      assert Fragment(copied, j, target) == Fragment(buffer, j, target);
    } else {
      assert Fragment(copied, j, target) == bytes;
    }
  }
}
