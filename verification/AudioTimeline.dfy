/** Where decoded audio lies on the media timeline (src/client/audio_playback_clock.hpp). */
module AudioTimeline {
  import opened Wrappers

  const U64_MAX: nat := 0xFFFF_FFFF_FFFF_FFFF
  const SAMPLE_RATE: nat := 48000

  datatype Range = Range(start: nat, end: nat)

  /** client_audio_decoded_range. */
  function DecodedRange(wirePts: nat, decoded: nat, skipped: nat, delay: nat, segmentStart: nat): Option<Range>
  {
    if decoded == 0 || skipped > decoded || delay > decoded || U64_MAX - wirePts < decoded then None
    else
      var wireEnd := wirePts + decoded;
      var end := if wireEnd >= delay then wireEnd - delay else 0;
      var retained := decoded - skipped;
      if end < segmentStart || end - segmentStart < retained then None else Some(Range(end - retained, end))
  }

  /** Ranges that start at `from`, each where the one before ended, up to `to`. */
  ghost predicate Abut(ranges: seq<Range>, from: nat, to: nat)
  {
    if ranges == [] then from == to
    else
      var last := ranges[|ranges| - 1];
      last.start <= last.end == to && Abut(ranges[..|ranges| - 1], from, last.start)
  }

  lemma AbutSnoc(ranges: seq<Range>, from: nat, to: nat, r: Range)
    requires Abut(ranges, from, to) && r.start == to <= r.end
    ensures Abut(ranges + [r], from, r.end)
  {
    assert (ranges + [r])[..|ranges|] == ranges;
  }

  /** The first packet of a segment loses the codec delay and starts at the segment; every later one starts where the timeline minus the
      delay had got to. None is rejected. */
  lemma RangeAccepted(wirePts: nat, frame: nat, skip: nat, delay: nat, segmentStart: nat)
    requires 0 < frame && delay <= frame && wirePts + frame <= U64_MAX
    requires (wirePts == segmentStart && skip == delay) || (wirePts >= segmentStart + frame && skip == 0)
    ensures DecodedRange(wirePts, frame, skip, delay, segmentStart)
         == Some(Range(if skip == 0 then wirePts - delay else wirePts, wirePts + frame - delay))
    ensures wirePts == segmentStart && skip == delay ==>
              DecodedRange(wirePts, frame, skip, delay, segmentStart).value.start == segmentStart
  {
  }

  /** client_audio_device_playhead: the callback estimate. */
  function CallbackPlayhead(start: nat, submittedEnd: nat, mixed: nat, buffer: nat): nat
  {
    var presented := if mixed > buffer then mixed - buffer else 0;
    var available := if submittedEnd >= start then submittedEnd - start else 0;
    start + if presented < available then presented else available
  }

  /** client_audio_device_playhead_queued; `mixed` is the whole part of the mixed sample count. */
  function Playhead(start: nat, submittedEnd: nat, mixed: nat, buffer: nat, queued: nat): nat
  {
    var callback := CallbackPlayhead(start, submittedEnd, mixed, buffer);
    var available := if submittedEnd >= start then submittedEnd - start else 0;
    var held := if available < queued then available else queued;
    var mixedLimit := available - held;
    var played := if mixedLimit > buffer then mixedLimit - buffer else 0;
    if callback < start + played then callback else start + played
  }

  /** The playhead never runs behind the start, past what was mixed beyond the device buffer, or into a sample still queued. */
  lemma PlayheadBounds(start: nat, put: nat, mixed: nat, buffer: nat, queued: nat)
    requires queued <= put
    ensures var p := Playhead(start, start + put, mixed, buffer, queued);
            start <= p <= start + (put - queued) && p - start <= (if mixed > buffer then mixed - buffer else 0)
  {
  }

  /** The startup threshold. */
  function TargetSamples(latencyMs: nat): nat { SAMPLE_RATE * latencyMs / 1000 }

  /** client_audio_max_queued_samples. */
  function MaxQueued(latencyMs: nat): (limit: nat)
    ensures limit >= 5760
  {
    SAMPLE_RATE * (if latencyMs * 4 > 120 then latencyMs * 4 else 120) / 1000
  }

  /** client_audio_output_rebase_needed. */
  predicate RebaseNeeded(queued: nat, incoming: nat, limit: nat)
  {
    limit != 0 && incoming != 0 && (queued > limit || incoming > limit - queued)
  }

  lemma RebaseIsOverflow(queued: nat, incoming: nat, limit: nat)
    requires limit > 0 && incoming > 0
    ensures RebaseNeeded(queued, incoming, limit) <==> queued + incoming > limit
  {
  }
}
