/** Recovery keyframes in H.264 and H.265 Annex B byte streams (src/client/video_keyframe_recovery.c). */
module AnnexB {
  import opened Wrappers
  import opened KeyframeResult

  // ----- units of a byte stream

  /** wd_start_code_size. */
  function StartCode(data: seq<Byte>, pos: nat): (n: nat)
    ensures n == 0 || (n in {3, 4} && pos + n <= |data|)
  {
    if pos > |data| || |data| - pos < 3 || data[pos] != 0 || data[pos + 1] != 0 then 0
    else if data[pos + 2] == 1 then 3
    else if |data| - pos >= 4 && data[pos + 2] == 0 && data[pos + 3] == 1 then 4 else 0
  }

  /** The next start code, or the end. */
  function NextStart(data: seq<Byte>, pos: nat): (q: nat)
    requires pos <= |data|
    ensures pos <= q <= |data|
    decreases |data| - pos
  {
    if pos == |data| || StartCode(data, pos) > 0 then pos else NextStart(data, pos + 1)
  }

  lemma {:induction false} NextIsStart(data: seq<Byte>, pos: nat)
    requires pos <= |data|
    ensures NextStart(data, pos) < |data| ==> StartCode(data, NextStart(data, pos)) > 0
    decreases |data| - pos
  {
    if pos < |data| && StartCode(data, pos) == 0 {
      NextIsStart(data, pos + 1);
    }
  }

  /** Leading zeros are legal, anything else before the first start code is not. */
  function Lead(data: seq<Byte>, pos: nat): (r: Option<nat>)
    requires pos <= |data|
    ensures r.Some? ==> pos <= r.value <= |data|
    decreases |data| - pos
  {
    if pos == |data| || StartCode(data, pos) > 0 then Some(pos)
    else if data[pos] != 0 then None
    else Lead(data, pos + 1)
  }

  /** The units from a start code on. */
  function Units(data: seq<Byte>, pos: nat): seq<seq<Byte>>
    requires pos <= |data|
    decreases |data| - pos
  {
    if StartCode(data, pos) == 0 then []
    else
      var nal := pos + StartCode(data, pos);
      var next := NextStart(data, nal);
      [data[nal..next]] + Units(data, next)
  }

  // ----- the verdict on a list of units

  predicate WellFormed(hevc: bool, nal: seq<Byte>)
  {
    |nal| >= (if hevc then 3 else 2) && nal[0] < 128 && (hevc ==> nal[1] % 8 != 0)
  }

  function TypeOf(hevc: bool, nal: seq<Byte>): nat
    requires nal != []
  {
    if hevc then nal[0] / 2 % 64 else nal[0] % 32
  }

  function SetTypes(hevc: bool): set<nat> { if hevc then {32, 33, 34} else {7, 8} }

  /** A slice that the check tracks, and one a fresh decoder can start from. */
  predicate Slice(hevc: bool, t: nat) { if hevc then t <= 31 else t == 1 || t == 5 }

  predicate Access(hevc: bool, t: nat) { if hevc then 16 <= t <= 21 else t == 5 }

  /** What one unit does to the check: end it, or add a parameter set or an access point. */
  datatype Step = Stop(result: Result) | Go(seen: set<nat>, access: bool)

  function JudgeUnit(hevc: bool, nal: seq<Byte>, seen: set<nat>, access: bool): Step
  {
    if !WellFormed(hevc, nal) then Stop(InvalidBitstream)
    else
      var t := TypeOf(hevc, nal);
      var now := if t in SetTypes(hevc) then seen + {t} else seen;
      if Slice(hevc, t) && !(SetTypes(hevc) <= now) then Stop(MissingParameterSets)
      else if Slice(hevc, t) && !Access(hevc, t) then Stop(MissingRandomAccess)
      else Go(now, access || Slice(hevc, t))
  }

  function Judge(hevc: bool, nals: seq<seq<Byte>>, seen: set<nat>, access: bool): Result
    decreases |nals|
  {
    if nals == [] then
      if !(SetTypes(hevc) <= seen) then MissingParameterSets else if access then Valid else MissingRandomAccess
    else
      match JudgeUnit(hevc, nals[0], seen, access)
      case Stop(result) => result
      case Go(now, more) => Judge(hevc, nals[1..], now, more)
  }

  ghost predicate HasType(hevc: bool, nals: seq<seq<Byte>>, t: nat)
  {
    exists j :: 0 <= j < |nals| && WellFormed(hevc, nals[j]) && TypeOf(hevc, nals[j]) == t
  }

  /** Unit `i` is sound: well formed, and if a tracked slice then random access with every parameter set before it. */
  ghost predicate Sound(hevc: bool, nals: seq<seq<Byte>>, seen: set<nat>, i: nat)
    requires i < |nals|
  {
    && WellFormed(hevc, nals[i])
    && (Slice(hevc, TypeOf(hevc, nals[i])) ==>
          && Access(hevc, TypeOf(hevc, nals[i]))
          && forall t :: t in SetTypes(hevc) ==> t in seen || HasType(hevc, nals[..i], t))
  }

  ghost predicate HasSlice(hevc: bool, nals: seq<seq<Byte>>)
  {
    exists i :: 0 <= i < |nals| && WellFormed(hevc, nals[i]) && Slice(hevc, TypeOf(hevc, nals[i]))
  }

  ghost predicate AllSound(hevc: bool, nals: seq<seq<Byte>>, seen: set<nat>)
  {
    forall i :: 0 <= i < |nals| ==> Sound(hevc, nals, seen, i)
  }

  lemma HasTypeCons(hevc: bool, nals: seq<seq<Byte>>, t: nat)
    requires nals != []
    ensures HasType(hevc, nals, t) <==> (WellFormed(hevc, nals[0]) && TypeOf(hevc, nals[0]) == t) || HasType(hevc, nals[1..], t)
  {
    if HasType(hevc, nals[1..], t) {
      var j :| 0 <= j < |nals[1..]| && WellFormed(hevc, nals[1..][j]) && TypeOf(hevc, nals[1..][j]) == t;
      assert nals[j + 1] == nals[1..][j];
    }
    if HasType(hevc, nals, t) && !(WellFormed(hevc, nals[0]) && TypeOf(hevc, nals[0]) == t) {
      var j :| 0 <= j < |nals| && WellFormed(hevc, nals[j]) && TypeOf(hevc, nals[j]) == t;
      assert nals[1..][j - 1] == nals[j];
    }
  }

  function Learn(hevc: bool, nal: seq<Byte>, seen: set<nat>): set<nat>
    requires nal != []
  {
    if TypeOf(hevc, nal) in SetTypes(hevc) then seen + {TypeOf(hevc, nal)} else seen
  }

  lemma SoundShift(hevc: bool, nals: seq<seq<Byte>>, seen: set<nat>, i: nat)
    requires i + 1 < |nals| && WellFormed(hevc, nals[0])
    ensures Sound(hevc, nals, seen, i + 1) <==> Sound(hevc, nals[1..], Learn(hevc, nals[0], seen), i)
  {
    forall t | t in SetTypes(hevc)
      ensures t in seen || HasType(hevc, nals[..i + 1], t) <==> t in Learn(hevc, nals[0], seen) || HasType(hevc, nals[1..][..i], t)
    {
      HasTypeCons(hevc, nals[..i + 1], t);
      assert nals[..i + 1][1..] == nals[1..][..i];
    }
  }

  lemma AllSoundCons(hevc: bool, nals: seq<seq<Byte>>, seen: set<nat>)
    requires nals != [] && WellFormed(hevc, nals[0])
    ensures AllSound(hevc, nals, seen) <==> Sound(hevc, nals, seen, 0) && AllSound(hevc, nals[1..], Learn(hevc, nals[0], seen))
  {
    var rest, now := nals[1..], Learn(hevc, nals[0], seen);
    if AllSound(hevc, nals, seen) {
      forall i | 0 <= i < |rest| ensures Sound(hevc, rest, now, i) {
        SoundShift(hevc, nals, seen, i);
      }
    }
    if Sound(hevc, nals, seen, 0) && AllSound(hevc, rest, now) {
      forall i | 0 <= i < |nals| ensures Sound(hevc, nals, seen, i) {
        if i > 0 {
          SoundShift(hevc, nals, seen, i - 1);
        }
      }
    }
  }

  lemma HasSliceCons(hevc: bool, nals: seq<seq<Byte>>)
    requires nals != [] && WellFormed(hevc, nals[0])
    ensures HasSlice(hevc, nals) <==> Slice(hevc, TypeOf(hevc, nals[0])) || HasSlice(hevc, nals[1..])
  {
    if HasSlice(hevc, nals[1..]) {
      var i :| 0 <= i < |nals[1..]| && WellFormed(hevc, nals[1..][i]) && Slice(hevc, TypeOf(hevc, nals[1..][i]));
      assert nals[i + 1] == nals[1..][i];
    }
    if HasSlice(hevc, nals) && !Slice(hevc, TypeOf(hevc, nals[0])) {
      var i :| 0 <= i < |nals| && WellFormed(hevc, nals[i]) && Slice(hevc, TypeOf(hevc, nals[i]));
      assert nals[1..][i - 1] == nals[i];
    }
  }

  lemma FirstSound(hevc: bool, nals: seq<seq<Byte>>, seen: set<nat>)
    requires nals != [] && WellFormed(hevc, nals[0])
    ensures var t := TypeOf(hevc, nals[0]);
            Sound(hevc, nals, seen, 0) <==> (Slice(hevc, t) ==> Access(hevc, t) && SetTypes(hevc) <= Learn(hevc, nals[0], seen))
  {
    assert nals[..0] == [];
    assert Slice(hevc, TypeOf(hevc, nals[0])) ==> Learn(hevc, nals[0], seen) == seen;
  }

  lemma {:induction false} JudgeExact(hevc: bool, nals: seq<seq<Byte>>, seen: set<nat>, access: bool)
    requires access ==> SetTypes(hevc) <= seen
    ensures Judge(hevc, nals, seen, access) == Valid <==> AllSound(hevc, nals, seen) && (access || HasSlice(hevc, nals))
    decreases |nals|
  {
    if nals == [] {
    } else if !WellFormed(hevc, nals[0]) {
      assert !Sound(hevc, nals, seen, 0);
    } else {
      var t := TypeOf(hevc, nals[0]);
      FirstSound(hevc, nals, seen);
      AllSoundCons(hevc, nals, seen);
      HasSliceCons(hevc, nals);
      if Slice(hevc, t) ==> Access(hevc, t) && SetTypes(hevc) <= Learn(hevc, nals[0], seen) {
        JudgeExact(hevc, nals[1..], Learn(hevc, nals[0], seen), access || Slice(hevc, t));
      }
    }
  }

  /** A list of units is accepted exactly when every unit is well formed, some unit is a tracked slice, and every tracked slice is
      random access and comes after all the parameter sets. */
  lemma AcceptsExactly(hevc: bool, nals: seq<seq<Byte>>)
    ensures Judge(hevc, nals, {}, false) == Valid <==> AllSound(hevc, nals, {}) && HasSlice(hevc, nals)
  {
    JudgeExact(hevc, nals, {}, false);
  }

  // ----- the scanner

  /** What the rest of the stream makes of the check so far. */
  function VerdictFrom(hevc: bool, data: seq<Byte>, pos: nat, seen: set<nat>, access: bool): Result
    requires pos <= |data|
  {
    match Lead(data, pos)
    case None => InvalidBitstream
    case Some(p) => Judge(hevc, Units(data, p), seen, access)
  }

  function Verdict(hevc: bool, data: seq<Byte>): Result
  {
    VerdictFrom(hevc, data, 0, {}, false)
  }

  method FindNext(data: seq<Byte>, from: nat) returns (next: nat)
    requires from <= |data|
    ensures next == NextStart(data, from)
  {
    next := from;
    while next < |data| && StartCode(data, next) == 0
      invariant from <= next <= |data| && NextStart(data, from) == NextStart(data, next)
    {
      next := next + 1;
    }
  }

  /** The checks on the unit between two positions. */
  method CheckUnit(hevc: bool, data: seq<Byte>, nal: nat, next: nat, seen: set<nat>, access: bool) returns (step: Step)
    requires nal <= next <= |data|
    ensures step == JudgeUnit(hevc, data[nal..next], seen, access)
  {
    if next - nal < (if hevc then 3 else 2) {
      return Stop(InvalidBitstream);
    }
    if data[nal] >= 128 || (hevc && data[nal + 1] % 8 == 0) {
      return Stop(InvalidBitstream);
    }
    var t := if hevc then data[nal] / 2 % 64 else data[nal] % 32;
    var present := if t in SetTypes(hevc) then seen + {t} else seen;
    if Slice(hevc, t) {
      if !(SetTypes(hevc) <= present) {
        return Stop(MissingParameterSets);
      }
      if !Access(hevc, t) {
        return Stop(MissingRandomAccess);
      }
    }
    return Go(present, access || Slice(hevc, t));
  }

  lemma VerdictNext(hevc: bool, data: seq<Byte>, pos: nat, seen: set<nat>, access: bool)
    requires pos < |data| && StartCode(data, pos) > 0
    ensures var nal := pos + StartCode(data, pos);
            var next := NextStart(data, nal);
            var step := JudgeUnit(hevc, data[nal..next], seen, access);
            VerdictFrom(hevc, data, pos, seen, access)
            == if step.Stop? then step.result else VerdictFrom(hevc, data, next, step.seen, step.access)
  {
    var nal := pos + StartCode(data, pos);
    var next := NextStart(data, nal);
    assert Units(data, pos) == [data[nal..next]] + Units(data, next);
    assert Units(data, pos)[1..] == Units(data, next);
    NextIsStart(data, nal);
    assert Lead(data, next) == Some(next);
  }

  /** The Annex B loop of wd_client_video_keyframe_validate gives the verdict on the units of the stream. */
  method Validate(hevc: bool, data: seq<Byte>) returns (result: Result)
    ensures data == [] ==> result == InvalidBitstream
    ensures data != [] ==> result == Verdict(hevc, data)
  {
    if data == [] {
      return InvalidBitstream;
    }
    var present: set<nat> := {};
    var access, pos := false, 0;
    while pos < |data|
      invariant pos <= |data| && Verdict(hevc, data) == VerdictFrom(hevc, data, pos, present, access)
      decreases |data| - pos
    {
      var prefix := StartCode(data, pos);
      if prefix == 0 {
        if data[pos] != 0 {
          return InvalidBitstream;
        }
        pos := pos + 1;
      } else {
        VerdictNext(hevc, data, pos, present, access);
        var nal := pos + prefix;
        var next := FindNext(data, nal);
        var step := CheckUnit(hevc, data, nal, next, present, access);
        if step.Stop? {
          return step.result;
        }
        present, access, pos := step.seen, step.access, next;
      }
    }
    if !(SetTypes(hevc) <= present) {
      return MissingParameterSets;
    }
    return if access then Valid else MissingRandomAccess;
  }

  // ----- printing and scanning again

  /** A unit and whether its start code is the long one. */
  datatype Unit = Unit(long: bool, nal: seq<Byte>)

  function Code(long: bool): seq<Byte> { if long then [0, 0, 0, 1] else [0, 0, 1] }

  function Print(us: seq<Unit>): seq<Byte>
  {
    if us == [] then [] else Code(us[0].long) + us[0].nal + Print(us[1..])
  }

  function Nals(us: seq<Unit>): seq<seq<Byte>>
  {
    if us == [] then [] else [us[0].nal] + Nals(us[1..])
  }

  /** No start code inside and no trailing zero. */
  ghost predicate Clean(nal: seq<Byte>)
  {
    nal != [] && nal[|nal| - 1] != 0 && forall i :: 0 <= i < |nal| ==> StartCode(nal, i) == 0
  }

  ghost predicate AllClean(us: seq<Unit>)
  {
    forall i :: 0 <= i < |us| ==> Clean(us[i].nal)
  }

  /** Unit `nal` stands at position `q`. */
  ghost predicate At(data: seq<Byte>, q: nat, nal: seq<Byte>)
  {
    q + |nal| <= |data| && data[q..q + |nal|] == nal
  }

  /** A start code cannot begin inside a clean unit, whatever follows it. */
  lemma NoStartInside(data: seq<Byte>, q: nat, nal: seq<Byte>, i: nat)
    requires Clean(nal) && At(data, q, nal) && i < |nal|
    ensures StartCode(data, q + i) == 0
  {
    assert StartCode(nal, i) == 0;
    assert forall j {:trigger nal[j]} :: i <= j < |nal| ==> data[q + j] == nal[j];
  }

  lemma {:induction false} UnitEnds(data: seq<Byte>, q: nat, nal: seq<Byte>, i: nat)
    requires Clean(nal) && At(data, q, nal) && i <= |nal|
    requires q + |nal| == |data| || StartCode(data, q + |nal|) > 0
    ensures NextStart(data, q + i) == q + |nal|
    decreases |nal| - i
  {
    if i < |nal| {
      NoStartInside(data, q, nal, i);
      UnitEnds(data, q, nal, i + 1);
    }
  }

  lemma CodeIsStart(pre: seq<Byte>, long: bool, rest: seq<Byte>)
    ensures StartCode(pre + (Code(long) + rest), |pre|) == |Code(long)|
  {
    var data := pre + (Code(long) + rest);
    assert data[|pre|] == Code(long)[0] && data[|pre| + 1] == Code(long)[1] && data[|pre| + 2] == Code(long)[2];
    if long {
      assert data[|pre| + 3] == Code(long)[3];
    }
  }

  lemma StartOfPrint(pre: seq<Byte>, us: seq<Unit>)
    requires us != []
    ensures StartCode(pre + Print(us), |pre|) == |Code(us[0].long)|
  {
    CodeIsStart(pre, us[0].long, us[0].nal + Print(us[1..]));
    Associative(Code(us[0].long), us[0].nal, Print(us[1..]));
  }

  lemma FirstUnit(data: seq<Byte>, p: nat, q: nat, nal: seq<Byte>)
    requires p < q == p + StartCode(data, p) && At(data, q, nal) && NextStart(data, q) == q + |nal|
    ensures Units(data, p) == [nal] + Units(data, q + |nal|)
  {
  }

  lemma Printed(pre: seq<Byte>, code: seq<Byte>, nal: seq<Byte>, rest: seq<Byte>)
    ensures pre + (code + nal + rest) == (pre + code + nal) + rest
    ensures At(pre + (code + nal + rest), |pre| + |code|, nal)
  {
  }

  lemma Associative(x: seq<Byte>, y: seq<Byte>, z: seq<Byte>)
    ensures (x + y) + z == x + (y + z)
  {
  }

  /** From position `p` the stream holds these units, each after its start code, and nothing else. */
  ghost predicate Holds(data: seq<Byte>, p: nat, us: seq<Unit>)
    decreases |us|
  {
    if us == [] then p == |data|
    else
      var q := p + |Code(us[0].long)|;
      StartCode(data, p) == |Code(us[0].long)| && At(data, q, us[0].nal) && Holds(data, q + |us[0].nal|, us[1..])
  }

  lemma FirstPrinted(pre: seq<Byte>, us: seq<Unit>, done: seq<Byte>)
    requires us != [] && done == pre + Code(us[0].long) + us[0].nal
    ensures pre + Print(us) == done + Print(us[1..]) && StartCode(pre + Print(us), |pre|) == |Code(us[0].long)|
    ensures At(pre + Print(us), |pre| + |Code(us[0].long)|, us[0].nal)
  {
    StartOfPrint(pre, us);
    Printed(pre, Code(us[0].long), us[0].nal, Print(us[1..]));
  }

  lemma HoldsCons(data: seq<Byte>, p: nat, us: seq<Unit>, q: nat)
    requires us != [] && q == p + |Code(us[0].long)| + |us[0].nal| && StartCode(data, p) == |Code(us[0].long)|
    requires At(data, p + |Code(us[0].long)|, us[0].nal) && Holds(data, q, us[1..])
    ensures Holds(data, p, us)
  {
  }

  lemma {:induction false} PrintHolds(pre: seq<Byte>, us: seq<Unit>, data: seq<Byte>)
    requires data == pre + Print(us)
    ensures Holds(data, |pre|, us)
    decreases |us|
  {
    if us != [] {
      var done := pre + Code(us[0].long) + us[0].nal;
      FirstPrinted(pre, us, done);
      PrintHolds(done, us[1..], data);
      HoldsCons(data, |pre|, us, |done|);
    }
  }

  lemma HoldsTail(data: seq<Byte>, p: nat, us: seq<Unit>, q: nat)
    requires us != [] && Holds(data, p, us) && q == p + |Code(us[0].long)|
    ensures q == p + StartCode(data, p) > p && At(data, q, us[0].nal) && Holds(data, q + |us[0].nal|, us[1..])
    ensures q + |us[0].nal| == |data| || StartCode(data, q + |us[0].nal|) > 0
  {
  }

  lemma FirstHeld(data: seq<Byte>, p: nat, q: nat, nal: seq<Byte>)
    requires Clean(nal) && q == p + StartCode(data, p) > p && At(data, q, nal)
    requires q + |nal| == |data| || StartCode(data, q + |nal|) > 0
    ensures Units(data, p) == [nal] + Units(data, q + |nal|)
  {
    UnitEnds(data, q, nal, 0);
    FirstUnit(data, p, q, nal);
  }

  lemma NextHeld(data: seq<Byte>, p: nat, q: nat, next: nat, us: seq<Unit>, nal: seq<Byte>, rest: seq<Unit>)
    requires us != [] && nal == us[0].nal && rest == us[1..] && Holds(data, p, us) && Clean(nal)
    requires q == p + |Code(us[0].long)| && next == q + |nal|
    ensures p <= next <= |data| && Holds(data, next, rest) && Units(data, p) == [nal] + Units(data, next)
  {
    HoldsTail(data, p, us, q);
    FirstHeld(data, p, q, nal);
  }

  lemma {:induction false} UnitsOfHolds(data: seq<Byte>, p: nat, us: seq<Unit>)
    requires p <= |data| && Holds(data, p, us) && AllClean(us)
    ensures Units(data, p) == Nals(us)
    decreases |us|
  {
    if us != [] {
      var q, nal, rest := p + |Code(us[0].long)|, us[0].nal, us[1..];
      var next := q + |nal|;
      NextHeld(data, p, q, next, us, nal, rest);
      UnitsOfHolds(data, next, rest);
      assert Nals(us) == [nal] + Nals(rest);
    }
  }

  lemma UnitsOfPrint(pre: seq<Byte>, us: seq<Unit>)
    requires AllClean(us)
    ensures Units(pre + Print(us), |pre|) == Nals(us)
  {
    PrintHolds(pre, us, pre + Print(us));
    UnitsOfHolds(pre + Print(us), |pre|, us);
  }

  function Zeros(k: nat): (z: seq<Byte>)
    ensures |z| == k && forall i :: 0 <= i < k ==> z[i] == 0
  {
    if k == 0 then [] else [0] + Zeros(k - 1)
  }

  lemma {:induction false} LeadSkips(k: nat, us: seq<Unit>, j: nat)
    requires us != [] && AllClean(us) && (k == 0 || us[0].long) && j <= k
    ensures Lead(Zeros(k) + Print(us), j) == Some(k)
    decreases k - j
  {
    var data := Zeros(k) + Print(us);
    StartOfPrint(Zeros(k), us);
    if j < k {
      var p := Print(us);
      assert p[0] == 0 && p[1] == 0 && p[2] == 0;
      assert data[j] == 0 && data[j + 1] == 0 && data[j + 2] == 0;
      assert j + 3 < k + 3 && data[j + 3] == 0;
      LeadSkips(k, us, j + 1);
    }
  }

  lemma PrintLonger(us: seq<Unit>)
    requires us != [] && !us[0].long
    ensures Print(us[0 := us[0].(long := true)]) == [0] + Print(us)
  {
    var longer := us[0 := us[0].(long := true)];
    assert longer[1..] == us[1..];
    Associative([0], Code(false) + us[0].nal, Print(us[1..]));
    Associative([0], Code(false), us[0].nal);
    assert [0] + Code(false) == Code(true);
  }

  lemma ZerosSnoc(k: nat)
    requires k > 0
    ensures Zeros(k) == Zeros(k - 1) + [0]
  {
  }

  /** A zero before a short start code makes it a long one. */
  lemma Lengthen(k: nat, us: seq<Unit>)
    requires k > 0 && us != [] && !us[0].long
    ensures Zeros(k) + Print(us) == Zeros(k - 1) + Print(us[0 := us[0].(long := true)])
  {
    PrintLonger(us);
    ZerosSnoc(k);
    Associative(Zeros(k - 1), [0], Print(us));
  }

  /** Validation is exact: printing clean units with any mix of start codes after any number of zero bytes, and validating, gives the
      specification's verdict on the units. */
  lemma PrintedVerdict(hevc: bool, k: nat, us: seq<Unit>)
    requires us != [] && AllClean(us)
    ensures Verdict(hevc, Zeros(k) + Print(us)) == Judge(hevc, Nals(us), {}, false)
  {
    if k > 0 && !us[0].long {
      var longer := us[0 := us[0].(long := true)];
      Lengthen(k, us);
      LeadSkips(k - 1, longer, 0);
      UnitsOfPrint(Zeros(k - 1), longer);
      assert longer[1..] == us[1..];
    } else {
      LeadSkips(k, us, 0);
      UnitsOfPrint(Zeros(k), us);
    }
  }
}
