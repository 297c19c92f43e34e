/** Fixed-point media time: the split 64-bit conversions of wd_media_clock.h and
    audio_playback_clock.hpp, and the audio/video presentation plan that uses them. */
module MediaClock {
  import opened Arithmetic

  const TWO32: nat := 0x1_0000_0000
  const TWO64: nat := 0x1_0000_0000_0000_0000
  const U64_MAX: nat := 0xFFFF_FFFF_FFFF_FFFF
  const U32_MAX: nat := 0xFFFF_FFFF

  const NSEC_PER_SEC: nat := 1_000_000_000
  const USEC_PER_SEC: nat := 1_000_000
  const MSEC_PER_SEC: nat := 1000

  /** 64-bit machine arithmetic: products and sums wrap. */
  function Wrap(a: int): int { a % TWO64 }

  function Mul64(a: int, b: int): int { Wrap(Product(a, b)) }

  function Add64(a: int, b: int): int { Wrap(a + b) }

  // ----- the conversions, as the source computes them

  function DeltaNs(now: nat, origin: nat): nat { if now > origin then now - origin else 0 }

  /** Whole units and remainder are scaled apart so that no product needs more than 64 bits. */
  function SplitScale(ticks: int, unit: int, rate: int): int
    requires unit > 0 && rate >= 0
  {
    if rate == 0 then 0 else
      var whole := Quotient(ticks, unit);
      var remainder := Remainder(ticks, unit);
      if whole > Quotient(U64_MAX, rate) then U64_MAX else
        var scaled := Mul64(whole, rate);
        var fraction := Quotient(Mul64(remainder, rate), unit);
        if U64_MAX - scaled < fraction then U64_MAX else Add64(scaled, fraction)
  }

  function NsToSamples(now: nat, origin: nat, rate: nat): int { SplitScale(DeltaNs(now, origin), NSEC_PER_SEC, rate) }

  function UsecToSamples(pts: nat, rate: nat): int { SplitScale(pts, USEC_PER_SEC, rate) }

  /** Whole samples in a frame count, or -1 where the 64-bit sum would overflow. */
  function WholeSamples(frames: int, frameRate: int, sampleRate: int): int
    requires frameRate > 0 && sampleRate > 0
  {
    var wholeFrames := Quotient(frames, frameRate);
    if wholeFrames > Quotient(U64_MAX, sampleRate) then -1 else
      var base := Mul64(wholeFrames, sampleRate);
      var more := Quotient(Mul64(Remainder(frames, frameRate), sampleRate), frameRate);
      if U64_MAX - base < more then -1 else Add64(base, more)
  }

  /** Device frames to samples of the stream, with 32 fraction bits. */
  function FramesToSamplesFp(frames: int, frameRate: int, sampleRate: int): int
    requires frameRate >= 0 && sampleRate >= 0
  {
    if frameRate == 0 || sampleRate == 0 then 0 else
      var whole := WholeSamples(frames, frameRate, sampleRate);
      if whole < 0 then U64_MAX else
        ConcatFp(whole, Remainder(Mul64(Remainder(frames, frameRate), sampleRate), frameRate), frameRate)
  }

  /** wholeSamples + numerator / frameRate in Q32, saturated. */
  function ConcatFp(wholeSamples: int, numerator: int, frameRate: int): int
    requires frameRate > 0
  {
    if wholeSamples > U64_MAX / TWO32 then U64_MAX else
      Add64(Mul64(wholeSamples, TWO32), Quotient(Mul64(numerator, TWO32), frameRate))
  }

  // ----- exactness

  /** floor(ticks * rate / unit), saturated to 64 bits. */
  function ExactScale(ticks: int, unit: int, rate: int): int
    requires unit > 0
  {
    Min(U64_MAX, Quotient(Product(ticks, rate), unit))
  }

  /** Scaling whole units and the remainder apart adds up to scaling the whole. */
  lemma SplitIdentity(ticks: int, unit: int, rate: int)
    requires 0 < unit && 0 <= rate && ticks >= 0
    ensures Quotient(Product(ticks, rate), unit)
         == Product(Quotient(ticks, unit), rate) + Quotient(Product(Remainder(ticks, unit), rate), unit)
  {
    Divide(ticks, unit);
    var whole, remainder := Quotient(ticks, unit), Remainder(ticks, unit);
    ProductAdd(Product(whole, unit), remainder, rate);
    ProductSwap(whole, unit, rate);
    DivideSum(Product(whole, rate), Product(remainder, rate), unit);
  }

  lemma SplitBounds(ticks: int, unit: int, rate: int)
    requires 0 < unit <= NSEC_PER_SEC && 0 <= rate <= U32_MAX && ticks >= 0
    ensures 0 <= Quotient(ticks, unit) && 0 <= Product(Quotient(ticks, unit), rate)
    ensures 0 <= Product(Remainder(ticks, unit), rate) <= U64_MAX
    ensures 0 <= Quotient(Product(Remainder(ticks, unit), rate), unit) <= U64_MAX
  {
    Divide(ticks, unit);
    var product := Product(Remainder(ticks, unit), rate);
    MulBound(Remainder(ticks, unit), rate, NSEC_PER_SEC, U32_MAX);
    MulBound(0, 0, Quotient(ticks, unit), rate);
    Divide(product, unit);
    MulBound(Quotient(product, unit), 1, Quotient(product, unit), unit);
  }

  /** Adding two in-range machine words with the source's guard is saturating addition. */
  lemma GuardedAdd(a: int, b: int)
    requires 0 <= a && 0 <= b <= U64_MAX
    ensures a <= U64_MAX ==>
              (if U64_MAX - Wrap(a) < b then U64_MAX else Add64(Wrap(a), b)) == Min(U64_MAX, a + b)
    ensures a > U64_MAX ==> Min(U64_MAX, a + b) == U64_MAX
  {}

  /** SplitScale is exact saturating division: splitting loses nothing and no product wraps. */
  lemma SplitScaleExact(ticks: int, unit: int, rate: int)
    requires 0 < unit <= NSEC_PER_SEC && 0 <= rate <= U32_MAX && ticks >= 0
    ensures SplitScale(ticks, unit, rate) == ExactScale(ticks, unit, rate)
    ensures Product(Remainder(ticks, unit), rate) <= U64_MAX
  {
    SplitBounds(ticks, unit, rate);
    SplitIdentity(ticks, unit, rate);
    var whole, product := Quotient(ticks, unit), Product(Remainder(ticks, unit), rate);
    if rate != 0 {
      QuotientTest(whole, rate, U64_MAX);
      GuardedAdd(Product(whole, rate), Quotient(product, unit));
    } else {
      assert product == 0 && Product(whole, rate) == 0;
    }
  }

  lemma MediaConversionsExact(now: nat, origin: nat, pts: nat, rate: nat)
    requires rate <= U32_MAX
    ensures NsToSamples(now, origin, rate) == ExactScale(DeltaNs(now, origin), NSEC_PER_SEC, rate)
    ensures UsecToSamples(pts, rate) == ExactScale(pts, USEC_PER_SEC, rate)
  {
    SplitScaleExact(DeltaNs(now, origin), NSEC_PER_SEC, rate);
    SplitScaleExact(pts, USEC_PER_SEC, rate);
  }

  /** frames * rate splits into whole samples and a remainder over frameRate. */
  lemma FrameSplit(frames: int, frameRate: int, sampleRate: int) returns (exact: int, f: int)
    requires frames >= 0 && 0 < frameRate <= U32_MAX && 0 < sampleRate <= U32_MAX
    ensures var product := Product(Remainder(frames, frameRate), sampleRate);
            && 0 <= product <= Product(U32_MAX, U32_MAX)
            && exact == Product(Quotient(frames, frameRate), sampleRate) + Quotient(product, frameRate)
            && f == Remainder(product, frameRate)
            && 0 <= Quotient(product, frameRate) && 0 <= f < frameRate
    ensures Product(frames, sampleRate) == Product(exact, frameRate) + f
    ensures Product(Quotient(frames, frameRate), sampleRate) >= 0
  {
    var w, r := Quotient(frames, frameRate), Remainder(frames, frameRate);
    Divide(frames, frameRate);
    var product := Product(r, sampleRate);
    MulBound(r, sampleRate, U32_MAX, U32_MAX);
    Divide(product, frameRate);
    exact, f := Product(w, sampleRate) + Quotient(product, frameRate), Remainder(product, frameRate);
    ProductAdd(Product(w, frameRate), r, sampleRate);
    ProductSwap(w, frameRate, sampleRate);
    ProductAdd(Product(w, sampleRate), Quotient(product, frameRate), frameRate);
    MulBound(0, 0, w, sampleRate);
  }

  lemma FractionBelowOne(f: int, d: int)
    requires 0 <= f < d
    ensures 0 <= Quotient(Product(f, TWO32), d) < TWO32
  {
    MulBound(f, TWO32, d - 1, TWO32);
    ProductAdd(d, -1, TWO32);
    QuotientTest(TWO32 - 1, d, Product(f, TWO32));
    QuotientTest(TWO32, d, Product(f, TWO32));
    Divide(Product(f, TWO32), d);
  }

  lemma FrameIdentity(frames: int, frameRate: int, sampleRate: int, exact: int, f: int)
    requires frameRate > 0 && 0 <= f < frameRate
    requires Product(frames, sampleRate) == Product(exact, frameRate) + f
    ensures Quotient(Product(Product(frames, sampleRate), TWO32), frameRate)
         == Product(exact, TWO32) + Quotient(Product(f, TWO32), frameRate)
  {
    ProductAdd(Product(exact, frameRate), f, TWO32);
    ProductSwap(exact, frameRate, TWO32);
    DivideSum(Product(exact, TWO32), Product(f, TWO32), frameRate);
  }

  /** A whole-sample count and a fraction: in range they concatenate, out of range they saturate. */
  lemma ConcatExact(whole: int, numerator: int, frameRate: int)
    requires 0 <= whole && 0 <= numerator < frameRate <= U32_MAX
    ensures ConcatFp(whole, numerator, frameRate)
         == Min(U64_MAX, Product(whole, TWO32) + Quotient(Product(numerator, TWO32), frameRate))
  {
    FractionBelowOne(numerator, frameRate);
    var fraction := Quotient(Product(numerator, TWO32), frameRate);
    ConcatInRange(whole, fraction);
    InRange(Product(numerator, TWO32));
  }

  lemma InRange(a: int)
    requires 0 <= a < TWO64
    ensures Wrap(a) == a
  {}

  lemma ConcatInRange(whole: int, fraction: int)
    requires 0 <= whole && 0 <= fraction < TWO32
    ensures (if whole > U64_MAX / TWO32 then U64_MAX else Add64(Mul64(whole, TWO32), fraction))
         == Min(U64_MAX, Product(whole, TWO32) + fraction)
  {
    if whole <= U64_MAX / TWO32 {
      InRange(Product(whole, TWO32));
      InRange(Product(whole, TWO32) + fraction);
    }
  }

  /** No step before the concatenation wraps: it receives the exact whole samples, or overflow is seen. */
  lemma WholeSamplesExact(frames: int, frameRate: int, sampleRate: int, product: int, exact: int)
    requires 0 <= frames && 0 < frameRate <= U32_MAX && 0 < sampleRate <= U32_MAX
    requires product == Product(Remainder(frames, frameRate), sampleRate) && 0 <= product <= U64_MAX
    requires exact == Product(Quotient(frames, frameRate), sampleRate) + Quotient(product, frameRate)
    requires 0 <= Quotient(product, frameRate) <= U64_MAX
    requires Quotient(frames, frameRate) >= 0 && Product(Quotient(frames, frameRate), sampleRate) >= 0
    ensures WholeSamples(frames, frameRate, sampleRate) == if exact > U64_MAX then -1 else exact
    ensures Mul64(Remainder(frames, frameRate), sampleRate) == product
  {
    var w := Quotient(frames, frameRate);
    QuotientTest(w, sampleRate, U64_MAX);
    GuardedAdd(Product(w, sampleRate), Quotient(product, frameRate));
  }

  /** The Q32 conversion is floor(frames * sampleRate * 2^32 / frameRate), saturated, and 0 without rates. */
  lemma FramesToSamplesFpExact(frames: int, frameRate: int, sampleRate: int)
    requires 0 <= frames && 0 <= frameRate <= U32_MAX && 0 <= sampleRate <= U32_MAX
    ensures FramesToSamplesFp(frames, frameRate, sampleRate)
         == if frameRate == 0 || sampleRate == 0 then 0
            else Min(U64_MAX, Quotient(Product(Product(frames, sampleRate), TWO32), frameRate))
  {
    if frameRate > 0 && sampleRate > 0 {
      RatesExact(frames, frameRate, sampleRate);
    }
  }

  lemma RatesExact(frames: int, frameRate: int, sampleRate: int)
    requires 0 <= frames && 0 < frameRate <= U32_MAX && 0 < sampleRate <= U32_MAX
    ensures FramesToSamplesFp(frames, frameRate, sampleRate)
         == Min(U64_MAX, Quotient(Product(Product(frames, sampleRate), TWO32), frameRate))
  {
    var exact, f := FrameSplit(frames, frameRate, sampleRate);
    FrameIdentity(frames, frameRate, sampleRate, exact, f);
    ConcatExact(exact, f, frameRate);
    Divide(frames, frameRate);
    var product := Product(Remainder(frames, frameRate), sampleRate);
    Divide(product, frameRate);
    MulBound(Quotient(product, frameRate), 1, Quotient(product, frameRate), frameRate);
    WholeSamplesExact(frames, frameRate, sampleRate, product, exact);
    if exact > U64_MAX {
      MulBound(exact, 1, exact, TWO32);
      FractionBelowOne(f, frameRate);
    }
  }

  // ----- audio/video presentation plan

  datatype Decision = Present | Hold | Drop

  datatype SyncPlan = SyncPlan(decision: Decision, delta: int, retryMs: int)

  const I64_MAX: nat := 0x7FFF_FFFF_FFFF_FFFF
  const EARLY_MS: nat := 15
  const LATE_MS: nat := 30
  const MAX_RETRY_MS: nat := 20

  function Early(rate: int): int { Quotient(rate * EARLY_MS, MSEC_PER_SEC) }

  function Late(rate: int): int { Quotient(rate * LATE_MS, MSEC_PER_SEC) }

  /** Milliseconds until wait samples have played, computed from whole seconds and remainder. */
  function WaitMs(wait: int, rate: int): int
    requires rate > 0
  {
    var seconds := Quotient(wait, rate);
    var wholeMs := if seconds > U32_MAX / MSEC_PER_SEC then U32_MAX else Wrap(seconds * MSEC_PER_SEC);
    var remainderMs := Quotient(Wrap(Remainder(wait, rate) * MSEC_PER_SEC + rate - 1), rate);
    Min(MAX_RETRY_MS, wholeMs + remainderMs)
  }

  function ComputePlan(videoPts: nat, playhead: nat, rate: nat): SyncPlan
  {
    if rate == 0 then SyncPlan(Present, 0, 0) else
      var video := UsecToSamples(videoPts, rate);
      var delta := if video >= playhead then Min(video - playhead, I64_MAX) else -Min(playhead - video, I64_MAX);
      if video > playhead && video - playhead > Early(rate) then
        var waitMs := WaitMs(video - playhead - Early(rate), rate);
        SyncPlan(Hold, delta, if waitMs == 0 then 1 else waitMs)
      else if playhead > video && playhead - video > Late(rate) then
        SyncPlan(Drop, delta, 0)
      else
        SyncPlan(Present, delta, 0)
  }

  /** ceil(n / d) */
  function CeilDiv(n: int, d: int): int
    requires d > 0
  {
    Quotient(n + d - 1, d)
  }

  lemma CeilSplit(wait: int, rate: int)
    requires wait >= 0 && rate > 0
    ensures CeilDiv(wait * MSEC_PER_SEC, rate)
         == Quotient(wait, rate) * MSEC_PER_SEC + CeilDiv(Remainder(wait, rate) * MSEC_PER_SEC, rate)
  {
    Divide(wait, rate);
    var seconds, remainder := Quotient(wait, rate), Remainder(wait, rate);
    ProductSwap(seconds, rate, MSEC_PER_SEC);
    DivideSum(Product(seconds, MSEC_PER_SEC), remainder * MSEC_PER_SEC + rate - 1, rate);
  }

  lemma CeilBounds(n: int, d: int)
    requires n >= 0 && d > 0
    ensures CeilDiv(n, d) >= 0 && n <= Product(CeilDiv(n, d), d) < n + d
    ensures n > 0 ==> CeilDiv(n, d) > 0
  {
    Divide(n + d - 1, d);
    assert CeilDiv(n, d) == 0 ==> Product(CeilDiv(n, d), d) == 0;
  }

  /** The wait is min(20, ceil of the exact time in milliseconds), and never zero. */
  lemma WaitMsExact(wait: int, rate: int)
    requires 0 < wait && 0 < rate <= U32_MAX
    ensures WaitMs(wait, rate) == Min(MAX_RETRY_MS, CeilDiv(wait * MSEC_PER_SEC, rate))
    ensures WaitMs(wait, rate) > 0
  {
    var seconds, remainder := Quotient(wait, rate), Remainder(wait, rate);
    Divide(wait, rate);
    CeilSplit(wait, rate);
    CeilBounds(wait * MSEC_PER_SEC, rate);
    WaitParts(seconds, remainder, rate);
  }

  /** Neither part of the wait wraps, and a long whole part is past the cut anyway. */
  lemma WaitParts(seconds: int, remainder: int, rate: int)
    requires seconds >= 0 && 0 <= remainder < rate <= U32_MAX
    ensures Quotient(Wrap(remainder * MSEC_PER_SEC + rate - 1), rate) == CeilDiv(remainder * MSEC_PER_SEC, rate) >= 0
    ensures seconds <= U32_MAX / MSEC_PER_SEC ==> Wrap(seconds * MSEC_PER_SEC) == seconds * MSEC_PER_SEC
    ensures seconds > U32_MAX / MSEC_PER_SEC ==> seconds * MSEC_PER_SEC > MAX_RETRY_MS
  {
    CeilBounds(remainder * MSEC_PER_SEC, rate);
  }

  lemma HoldRetryExact(videoPts: nat, playhead: nat, rate: nat)
    requires 0 < rate <= U32_MAX && ComputePlan(videoPts, playhead, rate).decision.Hold?
    ensures var wait := ExactScale(videoPts, USEC_PER_SEC, rate) - playhead - Early(rate);
            && wait > 0
            && ComputePlan(videoPts, playhead, rate).retryMs == Min(MAX_RETRY_MS, CeilDiv(wait * MSEC_PER_SEC, rate))
            && 1 <= ComputePlan(videoPts, playhead, rate).retryMs <= MAX_RETRY_MS
  {
    SplitScaleExact(videoPts, USEC_PER_SEC, rate);
    WaitMsExact(UsecToSamples(videoPts, rate) - playhead - Early(rate), rate);
  }

  /** Samples played while the retry timer runs. */
  function Advance(ms: int, rate: int): int { Quotient(Product(ms, rate), MSEC_PER_SEC) }

  /** Sleeping min(20, ceil(wait)) ms plays at most one millisecond past the wait, and all of it when not cut at 20. */
  lemma AdvanceBounds(wait: int, rate: int, ms: int)
    requires 0 < wait && 0 < rate && 0 <= ms
    requires ms == Min(MAX_RETRY_MS, CeilDiv(wait * MSEC_PER_SEC, rate))
    ensures Advance(ms, rate) * MSEC_PER_SEC < wait * MSEC_PER_SEC + rate
    ensures ms < MAX_RETRY_MS ==> Advance(ms, rate) >= wait
  {
    var exact := CeilDiv(wait * MSEC_PER_SEC, rate);
    CeilBounds(wait * MSEC_PER_SEC, rate);
    MulBound(ms, rate, exact, rate);
    Divide(Product(ms, rate), MSEC_PER_SEC);
  }

  /** Holding converges: after the retry delay has played, the frame is not dropped and the audio has not passed it; and unless the
      delay was cut at its maximum it is presented at once. */
  lemma HoldConverges(videoPts: nat, playhead: nat, rate: nat)
    requires 0 < rate <= U32_MAX && ComputePlan(videoPts, playhead, rate).decision.Hold?
    ensures var ms := ComputePlan(videoPts, playhead, rate).retryMs;
            var later := playhead + Advance(ms, rate);
            && 0 <= later <= UsecToSamples(videoPts, rate)
            && ComputePlan(videoPts, later, rate).decision != Drop
            && (ms < MAX_RETRY_MS ==> ComputePlan(videoPts, later, rate).decision == Present)
  {
    HoldRetryExact(videoPts, playhead, rate);
    SplitScaleExact(videoPts, USEC_PER_SEC, rate);
    var ms := ComputePlan(videoPts, playhead, rate).retryMs;
    var wait := UsecToSamples(videoPts, rate) - playhead - Early(rate);
    AdvanceBounds(wait, rate, ms);
    MulBound(0, 0, ms, rate);
    Divide(Product(ms, rate), MSEC_PER_SEC);
    Divide(rate * EARLY_MS, MSEC_PER_SEC);
  }
}
