/** Recovery keyframes in AV1 temporal units (src/client/video_keyframe_recovery.c). */
module Av1 {
  import opened Wrappers
  import opened Arithmetic
  import opened KeyframeResult

  const U64_MAX: nat := 0xFFFF_FFFF_FFFF_FFFF
  const LEB_BYTES: nat := 10

  // ----- leb128 sizes

  function Pow128(n: nat): (p: nat)
    ensures p > 0
  {
    if n == 0 then 1 else 128 * Pow128(n - 1)
  }

  function LebValue(s: seq<Byte>): nat
  {
    if s == [] then 0 else LebValue(s[..|s| - 1]) + Product128(s[|s| - 1] % 128, |s| - 1)
  }

  function Product128(part: nat, i: nat): (v: nat)
  {
    MulBound(0, 0, part, Pow128(i));
    Product(part, Pow128(i))
  }

  /** Where the number at `p` ends, if it ends within the data and before `limit`. */
  function LebEnd(data: seq<Byte>, p: nat, limit: nat): (r: Option<nat>)
    ensures r.Some? ==> p < r.value <= |data| && r.value <= limit
    decreases |data| - p
  {
    if p >= |data| || p >= limit then None
    else if data[p] < 128 then Some(p + 1)
    else LebEnd(data, p + 1, limit)
  }

  /** The 64-bit number at `p`, of at most ten bytes, and the position after it. */
  function Leb(data: seq<Byte>, p: nat): Option<(nat, nat)>
  {
    match LebEnd(data, p, p + LEB_BYTES)
    case None => None
    case Some(end) => var v := LebValue(data[p..end]); if v > U64_MAX then None else Some((v, end))
  }

  lemma {:induction false} LebBound(s: seq<Byte>)
    ensures LebValue(s) < Pow128(|s|)
  {
    if s != [] {
      var n := |s| - 1;
      LebBound(s[..n]);
      MulBound(s[n] % 128, Pow128(n), 127, Pow128(n));
    }
  }

  lemma Nine()
    ensures Pow128(9) == 0x8000_0000_0000_0000 && Pow128(8) == 0x100_0000_0000_0000
  {
    assert Pow128(2) == 0x4000;
    assert Pow128(4) == 0x1000_0000;
    assert Pow128(6) == 0x400_0000_0000;
    assert Pow128(8) == 0x100_0000_0000_0000;
  }

  lemma {:induction false} PowMonotone(i: nat, j: nat)
    requires i <= j
    ensures Pow128(i) <= Pow128(j)
    decreases j
  {
    if i < j {
      PowMonotone(i, j - 1);
    }
  }

  lemma LebSnoc(s: seq<Byte>, b: Byte)
    ensures LebValue(s + [b]) == LebValue(s) + Product128(b % 128, |s|)
  {
    assert (s + [b])[..|s|] == s;
  }

  lemma LowPart(i: nat, part: nat, low: nat)
    requires i < 9 && part < 128 && low < Pow128(i)
    ensures low + Product128(part, i) <= U64_MAX
  {
    Nine();
    PowMonotone(i, 8);
    MulBound(part, Pow128(i), 127, Pow128(i));
  }

  /** The shifted part fits in 64 bits exactly when the value so far does. */
  lemma PartFits(i: nat, part: nat, low: nat)
    requires i < LEB_BYTES && part < 128 && low < Pow128(i)
    ensures part > Quotient(U64_MAX, Pow128(i)) <==> low + Product128(part, i) > U64_MAX
  {
    QuotientTest(part, Pow128(i), U64_MAX);
    if i < 9 {
      LowPart(i, part, low);
    } else {
      TopPart(part, low);
    }
  }

  lemma TopPart(part: nat, low: nat)
    requires low < Pow128(9)
    ensures Product128(part, 9) > U64_MAX <==> low + Product128(part, 9) > U64_MAX
  {
    Nine();
    if part <= 1 {
      MulBound(part, Pow128(9), 1, Pow128(9));
    } else {
      MulBound(2, Pow128(9), part, Pow128(9));
    }
  }

  lemma {:induction false} LebGrows(s: seq<Byte>, n: nat)
    requires n <= |s|
    ensures LebValue(s[..n]) <= LebValue(s)
    decreases |s|
  {
    if n < |s| {
      LebGrows(s[..|s| - 1], n);
      assert s[..|s| - 1][..n] == s[..n];
    } else {
      assert s[..n] == s;
    }
  }

  /** The size loop: the exact number or a refusal. */
  method ReadLeb(data: seq<Byte>, p: nat) returns (r: Option<(nat, nat)>)
    requires p <= |data|
    ensures r == Leb(data, p)
  {
    var value, q, more := 0, p, true;
    var limit := p + LEB_BYTES;
    while more
      invariant p <= q <= limit && q <= |data| && value == LebValue(data[p..q]) <= U64_MAX
      invariant LebEnd(data, p, limit) == if more then LebEnd(data, q, limit) else Some(q)
      decreases more, limit - q
    {
      if q >= |data| || q >= limit {
        return None;
      }
      var byte := data[q];
      LebNext(data, p, q);
      if byte % 128 > Quotient(U64_MAX, Pow128(q - p)) {
        TooLarge(data, p, q, limit);
        return None;
      }
      value := value + Product128(byte % 128, q - p);
      more := byte >= 128;
      q := q + 1;
    }
    return Some((value, q));
  }

  lemma LebNext(data: seq<Byte>, p: nat, q: nat)
    requires p <= q < |data| && q < p + LEB_BYTES
    ensures LebValue(data[p..q + 1]) == LebValue(data[p..q]) + Product128(data[q] % 128, q - p)
    ensures data[q] % 128 > Quotient(U64_MAX, Pow128(q - p)) <==> LebValue(data[p..q + 1]) > U64_MAX
  {
    assert data[p..q + 1] == data[p..q] + [data[q]];
    LebSnoc(data[p..q], data[q]);
    LebBound(data[p..q]);
    PartFits(q - p, data[q] % 128, LebValue(data[p..q]));
  }

  lemma TooLarge(data: seq<Byte>, p: nat, q: nat, limit: nat)
    requires p <= q < |data| && LebValue(data[p..q + 1]) > U64_MAX && limit == p + LEB_BYTES
    requires LebEnd(data, p, limit) == LebEnd(data, q, limit)
    ensures Leb(data, p) == None
  {
    match LebEnd(data, p, limit)
    case None =>
    case Some(end) =>
      LebGrows(data[p..end], q + 1 - p);
      assert data[p..end][..q + 1 - p] == data[p..q + 1];
  }

  // ----- encodings are read back

  /** A number's bytes: every one but the last is marked as continued. */
  ghost predicate IsLeb(s: seq<Byte>)
  {
    s != [] && s[|s| - 1] < 128 && forall i :: 0 <= i < |s| - 1 ==> s[i] >= 128
  }

  lemma {:induction false} EndFound(data: seq<Byte>, p: nat, s: seq<Byte>, i: nat, limit: nat)
    requires IsLeb(s) && p + |s| <= |data| && data[p..p + |s|] == s && i < |s| && p + |s| <= limit
    ensures LebEnd(data, p + i, limit) == Some(p + |s|)
    decreases |s| - i
  {
    assert data[p + i] == s[i];
    if i < |s| - 1 {
      EndFound(data, p, s, i + 1, limit);
    }
  }

  /** Any encoding of a 64-bit number in up to ten bytes is read back exactly, wherever it stands. */
  lemma EncodingIsRead(data: seq<Byte>, p: nat, s: seq<Byte>)
    requires IsLeb(s) && |s| <= LEB_BYTES && p + |s| <= |data| && data[p..p + |s|] == s && LebValue(s) <= U64_MAX
    ensures Leb(data, p) == Some((LebValue(s), p + |s|))
  {
    EndFound(data, p, s, 0, p + LEB_BYTES);
  }

  /** The shortest encoding. */
  function Encode(v: nat): seq<Byte>
  {
    if v < 128 then [v] else [v % 128 + 128] + Encode(v / 128)
  }

  lemma {:induction false} LebCons(b: Byte, s: seq<Byte>)
    ensures LebValue([b] + s) == b % 128 + 128 * LebValue(s)
    decreases |s|
  {
    if s == [] {
      assert LebValue([b]) == LebValue([b][..0]) + Product128(b % 128, 0);
    } else {
      var n := |s| - 1;
      LebCons(b, s[..n]);
      assert ([b] + s)[..n + 1] == [b] + s[..n];
      Shift(s[n] % 128, n);
    }
  }

  lemma Shift(part: nat, n: nat)
    ensures Product128(part, n + 1) == 128 * Product128(part, n)
  {
    ProductSwap(part, Pow128(n), 128);
    assert Product(part, 128 * Pow128(n)) == 128 * Product(part, Pow128(n));
  }

  lemma IsLebCons(b: Byte, s: seq<Byte>)
    requires b >= 128 && IsLeb(s)
    ensures IsLeb([b] + s)
  {
  }

  lemma {:induction false} EncodeIsLeb(v: nat, n: nat)
    requires v < Pow128(n) && n > 0
    ensures IsLeb(Encode(v)) && LebValue(Encode(v)) == v && |Encode(v)| <= n
    decreases n
  {
    if v < 128 {
      LebCons(v, []);
      assert [v] + [] == [v];
    } else {
      var low, high := v % 128 + 128, v / 128;
      Digit(v, Pow128(n - 1));
      EncodeIsLeb(high, n - 1);
      LebCons(low, Encode(high));
      IsLebCons(low, Encode(high));
      assert Encode(v) == [low] + Encode(high);
    }
  }

  lemma Digit(v: nat, p: nat)
    requires v >= 128
    ensures (v % 128 + 128) % 128 + 128 * (v / 128) == v
    ensures v < 128 * p ==> v / 128 < p
    ensures p == 1 ==> v >= 128 * p
  {
  }

  /** Reading undoes encoding for every 64-bit size. */
  lemma SizeRoundTrip(data: seq<Byte>, p: nat, v: nat)
    requires v <= U64_MAX && p + |Encode(v)| <= |data| && data[p..p + |Encode(v)|] == Encode(v)
    ensures Leb(data, p) == Some((v, p + |Encode(v)|))
  {
    Nine();
    EncodeIsLeb(v, LEB_BYTES);
    EncodingIsRead(data, p, Encode(v));
  }

  // ----- open bitstream units

  datatype Obu = Obu(kind: nat, payload: seq<Byte>)

  predicate HeaderOk(h: Byte) { h < 128 && h % 2 == 0 && h / 8 % 16 != 0 }

  predicate HasExtension(h: Byte) { h / 4 % 2 == 1 }

  predicate HasSize(h: Byte) { h / 2 % 2 == 1 }

  /** The unit at `pos` and the position after it, or nothing if it is malformed. */
  function ReadUnit(data: seq<Byte>, pos: nat): (r: Option<(Obu, nat)>)
    requires pos < |data|
    ensures r.Some? ==> pos < r.value.1 <= |data|
  {
    var h := data[pos];
    var p := pos + if HasExtension(h) then 2 else 1;
    if !HeaderOk(h) || p > |data| || (HasExtension(h) && data[pos + 1] % 8 != 0) then None
    else if !HasSize(h) then Some((Obu(h / 8 % 16, data[p..]), |data|))
    else
      match Leb(data, p)
      case None => None
      case Some((size, q)) =>
        if size > |data| - q then None else Some((Obu(h / 8 % 16, data[q..q + size]), q + size))
  }

  /** The units from `pos` on, up to the first malformed one; `clean` if there is none. */
  function ReadUnits(data: seq<Byte>, pos: nat): (r: (seq<Obu>, bool))
    requires pos <= |data|
    decreases |data| - pos
  {
    if pos == |data| then ([], true)
    else
      match ReadUnit(data, pos)
      case None => ([], false)
      case Some((o, next)) => var (rest, clean) := ReadUnits(data, next); ([o] + rest, clean)
  }

  // ----- the verdict on a list of units

  datatype Check = Stop(result: Result) | Go(sequence: bool, key: bool, picture: bool)

  predicate FrameStart(o: Obu) { o.kind == 3 || o.kind == 6 }

  /** show_existing_frame is clear and the frame type is a key frame. */
  predicate KeyHeader(o: Obu) { o.payload != [] && o.payload[0] < 32 }

  function Next(c: Check, o: Obu): Check
  {
    if c.Stop? then c
    else if o.kind == 1 then if o.payload == [] then Stop(InvalidBitstream) else c.(sequence := true)
    else if FrameStart(o) then
      if o.payload == [] then Stop(InvalidBitstream)
      else if !c.sequence then Stop(MissingParameterSets)
      else if !KeyHeader(o) then Stop(MissingRandomAccess)
      else c.(key := true, picture := c.picture || o.kind == 6)
    else if o.kind == 4 && c.key then c.(picture := o.payload != [])
    else c
  }

  function Run(os: seq<Obu>): Check
  {
    if os == [] then Go(false, false, false) else Next(Run(os[..|os| - 1]), os[|os| - 1])
  }

  function Conclude(c: Check, clean: bool): Result
  {
    if c.Stop? then c.result
    else if !clean then InvalidBitstream
    else if !c.sequence then MissingParameterSets
    else if c.key && c.picture then Valid else MissingRandomAccess
  }

  function Verdict(data: seq<Byte>): Result
  {
    var r := ReadUnits(data, 0);
    Conclude(Run(r.0), r.1)
  }

  // ----- what the verdict means

  ghost predicate HasSequence(os: seq<Obu>) { exists i :: 0 <= i < |os| && os[i].kind == 1 }

  ghost predicate HasFrame(os: seq<Obu>) { exists i :: 0 <= i < |os| && FrameStart(os[i]) }

  /** Unit `i` can stand where it is: headers are not empty, and frames are key frames after a sequence header. */
  ghost predicate Sound(os: seq<Obu>, i: nat)
    requires i < |os|
  {
    && (os[i].kind == 1 ==> os[i].payload != [])
    && (FrameStart(os[i]) ==> KeyHeader(os[i]) && HasSequence(os[..i]))
  }

  ghost predicate AllSound(os: seq<Obu>) { forall i :: 0 <= i < |os| ==> Sound(os, i) }

  /** Unit `i` completes a picture, or takes it back: an empty tile group after a frame header does. */
  predicate Shows(os: seq<Obu>, i: nat)
    requires i < |os|
  {
    os[i].kind == 6 || (os[i].kind == 4 && os[i].payload != [])
  }

  ghost predicate PictureAt(os: seq<Obu>, i: nat)
    requires i < |os|
  {
    Shows(os, i) && (os[i].kind == 6 || HasFrame(os[..i])) && forall j :: i < j < |os| ==> !(os[j].kind == 4 && os[j].payload == [])
  }

  ghost predicate HasPicture(os: seq<Obu>) { exists i :: 0 <= i < |os| && PictureAt(os, i) }

  lemma SnocFacts(os: seq<Obu>, o: Obu)
    ensures HasSequence(os + [o]) <==> HasSequence(os) || o.kind == 1
    ensures HasFrame(os + [o]) <==> HasFrame(os) || FrameStart(o)
    ensures AllSound(os + [o]) <==> AllSound(os) && Sound(os + [o], |os|)
  {
    var all := os + [o];
    assert all[|os|] == o && all[..|os|] == os;
    if HasSequence(os) {
      var i :| 0 <= i < |os| && os[i].kind == 1;
      assert all[i].kind == 1;
    }
    if HasFrame(os) {
      var i :| 0 <= i < |os| && FrameStart(os[i]);
      assert FrameStart(all[i]);
    }
    forall i | 0 <= i < |os|
      ensures Sound(all, i) <==> Sound(os, i)
    {
      assert all[..i] == os[..i];
    }
  }

  lemma PictureSnoc(os: seq<Obu>, o: Obu)
    ensures HasPicture(os + [o]) <==>
      if o.kind == 6 then true
      else if o.kind == 4 && o.payload == [] then false
      else HasPicture(os) || (o.kind == 4 && HasFrame(os))
  {
    var all := os + [o];
    assert all[|os|] == o && all[..|os|] == os;
    if HasPicture(os) && !(o.kind == 4 && o.payload == []) {
      var i :| 0 <= i < |os| && PictureAt(os, i);
      assert all[..i] == os[..i];
      assert PictureAt(all, i);
    }
    if Shows(all, |os|) && (o.kind == 6 || HasFrame(os)) {
      assert PictureAt(all, |os|);
    }
    if HasPicture(all) {
      var i :| 0 <= i < |all| && PictureAt(all, i);
      if i < |os| {
        assert all[..i] == os[..i];
        assert PictureAt(os, i);
      }
    }
  }

  lemma {:induction false} RunExact(os: seq<Obu>)
    ensures Run(os).Go? <==> AllSound(os)
    ensures Run(os).Stop? ==> Run(os).result != Valid
    ensures Run(os).Go? ==>
      Run(os).sequence == HasSequence(os) && Run(os).key == HasFrame(os) && Run(os).picture == HasPicture(os)
  {
    if os != [] {
      var front, o := os[..|os| - 1], os[|os| - 1];
      RunExact(front);
      assert front + [o] == os;
      SnocFacts(front, o);
      PictureSnoc(front, o);
    }
  }

  lemma ConcludeExact(os: seq<Obu>, clean: bool)
    ensures Conclude(Run(os), clean) == Valid <==> clean && AllSound(os) && HasSequence(os) && HasFrame(os) && HasPicture(os)
  {
    RunExact(os);
  }

  /** A temporal unit is accepted exactly when every unit parses, headers are sound, and a picture is left standing. */
  lemma AcceptsExactly(data: seq<Byte>, os: seq<Obu>, clean: bool)
    requires (os, clean) == ReadUnits(data, 0)
    ensures Verdict(data) == Valid <==> clean && AllSound(os) && HasSequence(os) && HasFrame(os) && HasPicture(os)
  {
    ConcludeExact(os, clean);
  }

  // ----- the loop

  lemma {:induction false} RunStops(os: seq<Obu>, more: seq<Obu>)
    requires Run(os).Stop?
    ensures Run(os + more) == Run(os)
    decreases |more|
  {
    if more == [] {
      assert os + more == os;
    } else {
      RunStops(os, more[..|more| - 1]);
      assert (os + more)[..|os + more| - 1] == os + more[..|more| - 1];
    }
  }

  lemma RunSnoc(os: seq<Obu>, o: Obu)
    ensures Run(os + [o]) == Next(Run(os), o)
  {
    assert (os + [o])[..|os|] == os;
  }

  /** Where the scan is after the units `os`: they and what follows make up the stream. */
  ghost predicate Reached(data: seq<Byte>, os: seq<Obu>, pos: nat)
  {
    pos <= |data| && ReadUnits(data, 0) == (os + ReadUnits(data, pos).0, ReadUnits(data, pos).1)
  }

  lemma ReachNext(data: seq<Byte>, os: seq<Obu>, pos: nat, o: Obu, next: nat)
    requires Reached(data, os, pos) && pos < |data| && ReadUnit(data, pos) == Some((o, next))
    ensures Reached(data, os + [o], next)
    ensures Run(os + [o]).Stop? ==> Verdict(data) == Run(os + [o]).result
  {
    var rest := ReadUnits(data, next).0;
    assert ReadUnits(data, pos).0 == [o] + rest;
    assert os + ([o] + rest) == (os + [o]) + rest;
    if Run(os + [o]).Stop? {
      RunStops(os + [o], rest);
    }
  }

  lemma ReachBad(data: seq<Byte>, os: seq<Obu>, pos: nat)
    requires Reached(data, os, pos) && pos < |data| && ReadUnit(data, pos) == None && Run(os).Go?
    ensures Verdict(data) == InvalidBitstream
  {
    assert os + [] == os;
  }

  lemma ReachEnd(data: seq<Byte>, os: seq<Obu>)
    requires Reached(data, os, |data|)
    ensures Verdict(data) == Conclude(Run(os), true)
  {
    assert os + [] == os;
  }

  /** The header, extension and size of the unit at `pos`: where its payload lies. */
  method ReadExtent(data: seq<Byte>, pos: nat) returns (r: Option<(nat, nat, nat)>)
    requires pos < |data|
    ensures r.None? <==> ReadUnit(data, pos) == None
    ensures r.Some? ==> r.value.1 <= r.value.2 <= |data|
    ensures r.Some? ==> ReadUnit(data, pos) == Some((Obu(r.value.0, data[r.value.1..r.value.2]), r.value.2))
  {
    var h := data[pos];
    if h >= 128 || h % 2 != 0 || h / 8 % 16 == 0 {
      return None;
    }
    var p := pos + 1;
    if h / 4 % 2 != 0 {
      if p >= |data| || data[p] % 8 != 0 {
        return None;
      }
      p := p + 1;
    }
    if h / 2 % 2 == 0 {
      assert data[p..|data|] == data[p..];
      return Some((h / 8 % 16, p, |data|));
    }
    var size := ReadLeb(data, p);
    if size.None? || size.value.0 > |data| - size.value.1 {
      return None;
    }
    return Some((h / 8 % 16, size.value.1, size.value.1 + size.value.0));
  }

  /** wd_av1_keyframe_validate gives the verdict on the units of the stream. */
  method Validate(data: seq<Byte>) returns (result: Result)
    ensures result == Verdict(data)
  {
    var pos := 0;
    var state := Go(false, false, false);
    ghost var os: seq<Obu> := [];
    assert os + ReadUnits(data, pos).0 == ReadUnits(data, pos).0;
    while pos < |data|
      invariant Reached(data, os, pos) && state == Run(os) && state.Go?
      decreases |data| - pos
    {
      var extent := ReadExtent(data, pos);
      if extent.None? {
        ReachBad(data, os, pos);
        return InvalidBitstream;
      }
      var (kind, from, next) := extent.value;
      var o := Obu(kind, data[from..next]);
      ReachNext(data, os, pos, o, next);
      RunSnoc(os, o);
      state := Next(state, o);
      if state.Stop? {
        return state.result;
      }
      os, pos := os + [o], next;
    }
    ReachEnd(data, os);
    if !state.sequence {
      return MissingParameterSets;
    }
    return if state.key && state.picture then Valid else MissingRandomAccess;
  }

  // ----- written units are read back

  /** A unit as a writer may put it: with or without an extension byte, and with its size in any encoding or left out. */
  datatype Written = Written(obu: Obu, extension: seq<Byte>, size: seq<Byte>)

  ghost predicate WellWritten(w: Written, last: bool)
  {
    && 0 < w.obu.kind < 16 && (w.extension == [] || (|w.extension| == 1 && w.extension[0] % 8 == 0))
    && if w.size == [] then last else IsLeb(w.size) && |w.size| <= LEB_BYTES && LebValue(w.size) == |w.obu.payload| <= U64_MAX
  }

  /** Only the last unit may leave its size out. */
  ghost predicate AllWritten(ws: seq<Written>)
  {
    ws == [] || (WellWritten(ws[0], |ws| == 1) && AllWritten(ws[1..]))
  }

  function HeaderByte(w: Written): (h: Byte)
    requires w.obu.kind < 16
    ensures HasExtension(h) == (w.extension != []) && HasSize(h) == (w.size != []) && h / 8 % 16 == w.obu.kind
    ensures w.obu.kind > 0 ==> HeaderOk(h)
  {
    w.obu.kind * 8 + (if w.extension != [] then 4 else 0) + if w.size != [] then 2 else 0
  }

  function Size(w: Written): nat { 1 + |w.extension| + |w.size| + |w.obu.payload| }

  function Bytes(w: Written): (b: seq<Byte>)
    requires w.obu.kind < 16
    ensures |b| == Size(w)
  {
    [HeaderByte(w)] + (w.extension + (w.size + w.obu.payload))
  }

  ghost function Print(ws: seq<Written>): seq<Byte>
    requires AllWritten(ws)
  {
    if ws == [] then [] else Bytes(ws[0]) + Print(ws[1..])
  }

  ghost function Obus(ws: seq<Written>): seq<Obu>
  {
    if ws == [] then [] else [ws[0].obu] + Obus(ws[1..])
  }

  /** The stream holds a written unit at `pos`. */
  ghost predicate HeldAt(data: seq<Byte>, pos: nat, w: Written)
    requires w.obu.kind < 16
  {
    && pos + Size(w) <= |data| && data[pos] == HeaderByte(w)
    && data[pos + 1..pos + 1 + |w.extension|] == w.extension
    && data[pos + 1 + |w.extension|..pos + Size(w) - |w.obu.payload|] == w.size
    && data[pos + Size(w) - |w.obu.payload|..pos + Size(w)] == w.obu.payload
  }

  /** From `pos` on the stream holds these units and nothing else. */
  ghost predicate Holds(data: seq<Byte>, pos: nat, ws: seq<Written>)
    requires AllWritten(ws)
    decreases |ws|
  {
    if ws == [] then pos == |data| else HeldAt(data, pos, ws[0]) && Holds(data, pos + Size(ws[0]), ws[1..])
  }

  lemma Piece(pre: seq<Byte>, a: seq<Byte>, rest: seq<Byte>, data: seq<Byte>)
    requires data == pre + (a + rest)
    ensures |pre| + |a| <= |data| && data[|pre|..|pre| + |a|] == a && data == (pre + a) + rest
  {
  }

  lemma Rejoined(a: seq<Byte>, b: seq<Byte>, rest: seq<Byte>)
    ensures (a + b) + rest == a + (b + rest)
  {
  }

  lemma BytesThen(w: Written, rest: seq<Byte>)
    requires w.obu.kind < 16
    ensures Bytes(w) + rest == [HeaderByte(w)] + (w.extension + (w.size + (w.obu.payload + rest)))
  {
    Rejoined(w.size, w.obu.payload, rest);
    Rejoined(w.extension, w.size + w.obu.payload, rest);
    Rejoined([HeaderByte(w)], w.extension + (w.size + w.obu.payload), rest);
  }

  lemma Placed(pre: seq<Byte>, w: Written, rest: seq<Byte>, data: seq<Byte>)
    requires w.obu.kind < 16 && data == pre + (Bytes(w) + rest)
    ensures HeldAt(data, |pre|, w) && data == (pre + Bytes(w)) + rest
  {
    var head, tail := [HeaderByte(w)], w.obu.payload + rest;
    BytesThen(w, rest);
    Rejoined(pre, Bytes(w), rest);
    Piece(pre, head, w.extension + (w.size + tail), data);
    Piece(pre + head, w.extension, w.size + tail, data);
    Piece(pre + head + w.extension, w.size, tail, data);
    Piece(pre + head + w.extension + w.size, w.obu.payload, rest, data);
    assert data[|pre|..|pre| + 1][0] == HeaderByte(w);
  }

  lemma {:induction false} PrintHolds(pre: seq<Byte>, ws: seq<Written>, data: seq<Byte>)
    requires AllWritten(ws) && data == pre + Print(ws)
    ensures Holds(data, |pre|, ws)
    decreases |ws|
  {
    if ws != [] {
      var done := pre + Bytes(ws[0]);
      Placed(pre, ws[0], Print(ws[1..]), data);
      PrintHolds(done, ws[1..], data);
      HoldsCons(data, |pre|, |done|, ws);
    }
  }

  lemma HoldsCons(data: seq<Byte>, pos: nat, next: nat, ws: seq<Written>)
    requires AllWritten(ws) && ws != [] && next == pos + Size(ws[0]) && HeldAt(data, pos, ws[0]) && Holds(data, next, ws[1..])
    ensures Holds(data, pos, ws)
  {
  }

  lemma ExtensionHeld(data: seq<Byte>, pos: nat, w: Written)
    requires w.obu.kind < 16 && HeldAt(data, pos, w) && |w.extension| == 1
    ensures data[pos + 1] == w.extension[0]
  {
    assert data[pos + 1..pos + 2][0] == data[pos + 1];
  }

  lemma ReadSized(data: seq<Byte>, pos: nat, p: nat, q: nat, w: Written)
    requires w.obu.kind < 16 && WellWritten(w, false) && p == pos + 1 + |w.extension| && q == p + |w.size| && q + |w.obu.payload| <= |data|
    requires data[pos] == HeaderByte(w) && (w.extension != [] ==> data[pos + 1] == w.extension[0])
    requires data[p..q] == w.size && data[q..q + |w.obu.payload|] == w.obu.payload
    ensures ReadUnit(data, pos) == Some((w.obu, q + |w.obu.payload|))
  {
    EncodingIsRead(data, p, w.size);
    assert Leb(data, p) == Some((|w.obu.payload|, q));
  }

  lemma ReadUnsized(data: seq<Byte>, pos: nat, w: Written)
    requires w.obu.kind < 16 && HeldAt(data, pos, w) && WellWritten(w, true) && w.size == [] && pos + Size(w) == |data|
    requires w.extension != [] ==> data[pos + 1] == w.extension[0]
    ensures ReadUnit(data, pos) == Some((w.obu, |data|))
  {
    var p := pos + 1 + |w.extension|;
    assert data[p..|data|] == data[p..];
  }

  lemma ReadHeld(data: seq<Byte>, pos: nat, w: Written)
    requires w.obu.kind < 16 && HeldAt(data, pos, w) && WellWritten(w, pos + Size(w) == |data|)
    ensures ReadUnit(data, pos) == Some((w.obu, pos + Size(w)))
  {
    if w.extension != [] { ExtensionHeld(data, pos, w); }
    if w.size == [] {
      ReadUnsized(data, pos, w);
    } else {
      var p := pos + 1 + |w.extension|;
      ReadSized(data, pos, p, p + |w.size|, w);
    }
  }

  lemma {:induction false} ReadHolds(data: seq<Byte>, pos: nat, ws: seq<Written>)
    requires AllWritten(ws) && Holds(data, pos, ws)
    ensures pos <= |data| && ReadUnits(data, pos) == (Obus(ws), true)
    decreases |ws|
  {
    if ws != [] {
      var next := pos + Size(ws[0]);
      ReadHolds(data, next, ws[1..]);
      HeldFirst(data, pos, next, ws);
      ReadsCons(data, pos, next, ws[0].obu, Obus(ws[1..]));
    }
  }

  lemma HeldFirst(data: seq<Byte>, pos: nat, next: nat, ws: seq<Written>)
    requires AllWritten(ws) && ws != [] && Holds(data, pos, ws) && next == pos + Size(ws[0])
    ensures pos < next <= |data| && ReadUnit(data, pos) == Some((ws[0].obu, next))
  {
    assert |ws| == 1 ==> next == |data|;
    ReadHeld(data, pos, ws[0]);
  }

  lemma ReadsCons(data: seq<Byte>, pos: nat, next: nat, o: Obu, rest: seq<Obu>)
    requires pos < next <= |data| && ReadUnit(data, pos) == Some((o, next)) && ReadUnits(data, next) == (rest, true)
    ensures ReadUnits(data, pos) == ([o] + rest, true)
  {
  }

  /** However a list of units is written, the verdict is the one on the list. */
  lemma PrintedVerdict(ws: seq<Written>)
    requires AllWritten(ws)
    ensures Verdict(Print(ws)) == Conclude(Run(Obus(ws)), true)
  {
    assert [] + Print(ws) == Print(ws);
    PrintHolds([], ws, Print(ws));
    ReadHolds(Print(ws), 0, ws);
  }
}
