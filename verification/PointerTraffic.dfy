/** What a receiver of input frames can tell apart, and why superseded pointer motion may be dropped
    (src/client/client_async_tcp.cpp). */
module PointerTraffic {
  import opened Wrappers
  import opened LittleEndian
  import opened TcpFrames

  const POINTER_EVENT: nat := 6
  const POINTER_PAYLOAD: nat := 41
  const EVENT_TYPE_OFFSET: nat := 25
  const MOTION: nat := 1

  /** is_pointer_motion_message. */
  predicate IsMotion(f: Frame)
  {
    f.kind == POINTER_EVENT && |f.payload| == POINTER_PAYLOAD
    && FromLE(f.payload[EVENT_TYPE_OFFSET..EVENT_TYPE_OFFSET + 2]) == MOTION
  }

  /** The latest motion, which says where the pointer is. */
  ghost function Pointer(fs: seq<Frame>): Option<Frame>
  {
    if fs == [] then None
    else if IsMotion(fs[|fs| - 1]) then Some(fs[|fs| - 1])
    else Pointer(fs[..|fs| - 1])
  }

  /** Every other frame, in order, each with the pointer position it was sent at. */
  ghost function Observed(fs: seq<Frame>): seq<(Option<Frame>, Frame)>
  {
    if fs == [] then []
    else
      var front, last := fs[..|fs| - 1], fs[|fs| - 1];
      if IsMotion(last) then Observed(front) else Observed(front) + [(Pointer(front), last)]
  }

  /** Nothing but intermediate pointer positions tells `a` and `b` apart. */
  ghost predicate Same(a: seq<Frame>, b: seq<Frame>)
  {
    Observed(a) == Observed(b) && Pointer(a) == Pointer(b)
  }

  lemma ObservedSnoc(fs: seq<Frame>, f: Frame)
    ensures Observed(fs + [f]) == if IsMotion(f) then Observed(fs) else Observed(fs) + [(Pointer(fs), f)]
    ensures Pointer(fs + [f]) == if IsMotion(f) then Some(f) else Pointer(fs)
  {
    assert (fs + [f])[..|fs|] == fs;
  }

  lemma SnocSame(a: seq<Frame>, b: seq<Frame>, f: Frame)
    requires Same(a, b)
    ensures Same(a + [f], b + [f])
  {
    ObservedSnoc(a, f);
    ObservedSnoc(b, f);
  }

  lemma DropOne(fs: seq<Frame>, m: Frame, f: Frame)
    requires IsMotion(m) && IsMotion(f)
    ensures Same((fs + [m]) + [f], fs + [f])
  {
    ObservedSnoc(fs, m);
    ObservedSnoc(fs + [m], f);
    ObservedSnoc(fs, f);
  }

  /** Motions at the tail may go once another motion follows. */
  lemma {:induction false} DropTail(fs: seq<Frame>, keep: nat, f: Frame)
    requires keep <= |fs| && (forall i :: keep <= i < |fs| ==> IsMotion(fs[i])) && IsMotion(f)
    ensures Same(fs + [f], fs[..keep] + [f])
    decreases |fs|
  {
    if keep == |fs| {
      assert fs[..keep] == fs;
    } else {
      var front, last := fs[..|fs| - 1], fs[|fs| - 1];
      DropTail(front, keep, f);
      DropOne(front, last, f);
      assert front[..keep] == fs[..keep] && front + [last] == fs;
    }
  }

  /** What is observed is all the other traffic: same frames, same order. */
  ghost function Others(fs: seq<Frame>): seq<Frame>
  {
    if fs == [] then []
    else Others(fs[..|fs| - 1]) + if IsMotion(fs[|fs| - 1]) then [] else [fs[|fs| - 1]]
  }

  ghost function Seconds(os: seq<(Option<Frame>, Frame)>): seq<Frame>
  {
    if os == [] then [] else Seconds(os[..|os| - 1]) + [os[|os| - 1].1]
  }

  lemma {:induction false} ObservedOthers(fs: seq<Frame>)
    ensures Seconds(Observed(fs)) == Others(fs)
  {
    if fs != [] {
      var front, last := fs[..|fs| - 1], fs[|fs| - 1];
      ObservedOthers(front);
      if !IsMotion(last) {
        assert Observed(fs)[..|Observed(fs)| - 1] == Observed(front);
      }
    }
  }

  /** Traffic that is the same loses and reorders nothing but pointer motion. */
  lemma SameKeepsOthers(a: seq<Frame>, b: seq<Frame>)
    requires Same(a, b)
    ensures Others(a) == Others(b)
  {
    ObservedOthers(a);
    ObservedOthers(b);
  }
}
