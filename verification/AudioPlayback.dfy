/** The audio playback state of src/client/audio_playback.cpp. What the Opus decoder and the SDL device answer is given; SDL's
    stream is a FIFO of PCM frames. The fields of the playback object are split into its wire timeline and its output. */
module AudioPlayback {
  import opened Arithmetic
  import opened AudioTimeline

  const LATE_LIMIT: nat := 5760     // 120 ms

  datatype Outcome = Refused | Ended | Undecodable | PutFailed | Played | Broken

  datatype Packet = Packet(sequence: nat, pts: nat, duration: nat, discontinuity: bool, endOfStream: bool)

  /** What decoder and device answer in one call: whether the packet decodes, PCM is flushed or taken, the output starts, and it can
      be cleared for a gap, on starvation, for backlog, and after a failure. */
  datatype Answers = Answers(decodes: bool, flushes: bool, accepts: bool, starts: bool, clearsGap: bool, clearsStarved: bool,
                             clearsBacklog: bool, clearsFailed: bool)

  function Largest(a: nat, b: nat): nat { if a > b then a else b }

  /** What becomes of decoded frames, with `queued` in the FIFO. */
  function PutOutcome(frames: nat, queued: nat, limit: nat, a: Answers): Outcome
  {
    if frames == 0 then Played
    else if RebaseNeeded(queued, frames, limit) && !a.clearsBacklog then Broken
    else if a.accepts then Played
    else if a.clearsFailed then PutFailed
    else Broken
  }

  /** What becomes of a decoded packet. */
  function DecodedOutcome(frames: nat, starves: bool, queued: nat, limit: nat, a: Answers): Outcome
  {
    if starves && !a.clearsStarved then Broken else PutOutcome(frames, queued, limit, a)
  }

  function NextSequence(sequence: nat): nat { (sequence + 1) % (U64_MAX + 1) }

  class Timeline {
    var frame: nat
    var delay: nat
    var expectedSequence: nat
    var expectedPts: nat
    var haveExpectedPts: bool
    var preSkip: nat
    var segmentStart: nat
    var haveSegment: bool
    ghost var ranges: seq<Range>

    /** Decoded ranges cover the segment from its start, without gap or overlap, up to the wire timeline minus the codec delay. */
    ghost predicate Valid()
      reads this
    {
      && 0 < frame && delay <= frame && haveExpectedPts == haveSegment
      && (!haveSegment ==> preSkip == delay && ranges == [])
      && (haveSegment ==> preSkip == 0 && segmentStart + frame <= expectedPts <= U64_MAX && Abut(ranges, segmentStart, expectedPts - delay))
    }

    constructor (frame: nat, delay: nat)
      requires 0 < frame && delay <= frame
      ensures Valid() && !haveSegment && this.frame == frame && this.delay == delay && expectedSequence == 0
    {
      this.frame, this.delay := frame, delay;
      expectedSequence, expectedPts, haveExpectedPts := 0, 0, false;
      preSkip, segmentStart, haveSegment, ranges := delay, 0, false, [];
    }

    /** The next packet opens a new segment. */
    method Break()
      requires Valid()
      modifies `expectedPts, `haveExpectedPts, `preSkip, `segmentStart, `haveSegment, `ranges
      ensures Valid() && !haveSegment
    {
      expectedPts, haveExpectedPts, preSkip, segmentStart, haveSegment, ranges := 0, false, delay, 0, false, [];
    }

    /** `p` continues the wire timeline, or opens a segment. */
    ghost predicate InSequence(p: Packet)
      reads `frame, `haveExpectedPts, `expectedPts
    {
      p.duration == frame && p.pts + frame <= U64_MAX && (haveExpectedPts ==> p.pts == expectedPts)
    }

    /** `range` is what is left of `p` after `skip` samples, where the decoded timeline had got to. */
    ghost predicate Continues(p: Packet, range: Range, skip: nat)
      reads `frame, `delay, `preSkip, `haveSegment, `expectedPts
    {
      && skip == preSkip <= frame
      && (if haveSegment then range.start + delay == expectedPts else range.start == p.pts)
      && range.end + delay == p.pts + frame
      && range.start + (frame - skip) == range.end
    }

    /** The retained range of a decoded packet is never rejected. */
    method Retain(p: Packet) returns (range: Range, skip: nat)
      requires Valid() && InSequence(p)
      ensures Continues(p, range, skip)
    {
      skip := Min(frame, preSkip);
      var start := if haveSegment then segmentStart else p.pts;
      RangeAccepted(p.pts, frame, skip, delay, start);
      range := DecodedRange(p.pts, frame, skip, delay, start).value;
    }

    /** The wire timeline moves past the packet and the decoded one past its range. */
    method Advance(p: Packet, range: Range, skip: nat)
      requires Valid() && InSequence(p) && Continues(p, range, skip)
      modifies `segmentStart, `haveSegment, `preSkip, `expectedPts, `haveExpectedPts, `ranges, `expectedSequence
      ensures Valid() && haveSegment && expectedPts == p.pts + frame && expectedSequence == NextSequence(p.sequence)
      ensures ranges == old(ranges) + [range] && segmentStart == if old(haveSegment) then old(segmentStart) else p.pts
    {
      if !haveSegment {
        segmentStart, haveSegment := p.pts, true;
      }
      AbutSnoc(ranges, segmentStart, range.start, range);
      preSkip := preSkip - skip;
      expectedSequence, expectedPts, haveExpectedPts := NextSequence(p.sequence), p.pts + frame, true;
      ranges := ranges + [range];
    }

    /** A packet that does not continue the stream. */
    predicate Gap(p: Packet)
      reads `expectedSequence, `haveExpectedPts, `expectedPts
    {
      p.discontinuity || (expectedSequence != 0 && p.sequence != expectedSequence) || (haveExpectedPts && p.pts != expectedPts)
    }
  }

  class Output {
    var playbackStart: nat
    var havePlaybackStart: bool
    var submittedEnd: nat
    var playing: bool
    var eosPending: bool
    var starved: bool
    var mixed: nat
    var buffer: nat
    var queued: nat
    ghost var put: nat

    /** While output is not cleared, the submitted end minus the playback start is exactly the PCM put into the FIFO. */
    ghost predicate Valid()
      reads `playbackStart, `havePlaybackStart, `submittedEnd, `playing, `queued, `put
    {
      && queued <= put
      && (!playing ==> queued == put)
      && (!havePlaybackStart ==> put == 0)
      && (havePlaybackStart ==> playbackStart + put == submittedEnd)
    }

    constructor (buffer: nat)
      ensures Valid() && !havePlaybackStart && !playing && queued == 0
    {
      this.buffer := buffer;
      playbackStart, havePlaybackStart, submittedEnd, playing, eosPending, starved := 0, false, 0, false, false, false;
      mixed, queued, put := 0, 0, 0;
    }

    /** The device plays: it may take queued PCM and mixes what it likes, and may find its limit passed. */
    method DeviceCallback(taken: nat, frames: nat, deviceBuffer: nat, limitPassed: bool)
      requires Valid() && playing && taken <= queued
      modifies `queued, `mixed, `buffer, `starved
      ensures Valid()
    {
      queued, mixed, buffer, starved := queued - taken, mixed + frames, deviceBuffer, starved || limitPassed;
    }

    /** The output is paused and cleared; the next PCM sets a new playback start. */
    method Clear(resetEnd: bool)
      requires Valid()
      modifies this
      ensures Valid() && !havePlaybackStart && !playing && queued == 0 && buffer == old(buffer)
    {
      playing, eosPending, mixed, starved := false, false, 0, false;
      playbackStart, havePlaybackStart, queued, put := 0, false, 0, 0;
      submittedEnd := if resetEnd then 0 else submittedEnd;
    }

    /** The device has run dry: the FIFO is empty and everything submitted was presented. */
    ghost predicate Drained()
      reads `playing, `havePlaybackStart, `queued, `put, `mixed, `buffer
    {
      playing && havePlaybackStart && queued == 0 && put > 0 && (if mixed > buffer then mixed - buffer else 0) >= put
    }

    /** Starvation is confirmed once the device has run dry. */
    method ConfirmStarvation() returns (drained: bool)
      requires Valid()
      modifies `starved
      ensures Valid()
      ensures drained <==> old(starved) && Drained()
    {
      if !playing || !havePlaybackStart || !starved {
        return false;
      }
      starved := false;
      var presented := if mixed > buffer then mixed - buffer else 0;
      var consumed := submittedEnd > playbackStart && presented >= submittedEnd - playbackStart;
      return consumed && queued == 0;
    }

    /** device_playhead_locked lies between the playback start and the first sample still queued. */
    method CurrentPlayhead() returns (p: nat)
      requires Valid()
      ensures havePlaybackStart ==> playbackStart <= p <= playbackStart + (put - queued) <= submittedEnd
      ensures !havePlaybackStart ==> p == 0
    {
      if !havePlaybackStart {
        return 0;
      }
      PlayheadBounds(playbackStart, put, mixed, buffer, queued);
      return Playhead(playbackStart, submittedEnd, mixed, buffer, queued);
    }

    /** The late-packet test. The playhead cannot pass the submitted end, which is where the packet starts, so no packet is ever late and
        the branch that would drop it is never taken. */
    method IsLate(range: Range) returns (late: bool)
      requires Valid() && (havePlaybackStart ==> submittedEnd <= range.end)
      ensures !late
    {
      var playhead := CurrentPlayhead();
      late := playing && range.end <= U64_MAX - LATE_LIMIT && range.end + LATE_LIMIT < playhead;
    }

    /** PCM for `range` goes into the FIFO. */
    method Put(range: Range)
      requires Valid() && range.start <= range.end && (havePlaybackStart ==> submittedEnd == range.start)
      modifies `playbackStart, `havePlaybackStart, `submittedEnd, `queued, `put
      ensures Valid() && submittedEnd == range.end && queued == old(queued) + (range.end - range.start)
      ensures old(havePlaybackStart) || range.start < range.end ==> havePlaybackStart
      ensures havePlaybackStart ==> playbackStart == if old(havePlaybackStart) then old(playbackStart) else range.start
    {
      var frames := range.end - range.start;
      if frames > 0 {
        if !havePlaybackStart {
          playbackStart, havePlaybackStart := range.start, true;
        }
        queued, put := queued + frames, put + frames;
      }
      submittedEnd := range.end;
    }

    /** start_output_locked. */
    method Start(started: bool) returns (ok: bool)
      requires Valid()
      modifies `mixed, `playing
      ensures Valid() && ok == (old(playing) || started) && playing == ok
    {
      if playing {
        return true;
      }
      mixed, playing := 0, started;
      return started;
    }
  }

  class Playback {
    var open: bool
    var latencyMs: nat
    var timeline: Timeline
    var output: Output

    /** While the stream is open, what was submitted ends where the decoded timeline has got to. */
    ghost predicate Valid()
      reads this, timeline, output
    {
      open ==>
        && timeline.Valid()
        && output.Valid()
        && (output.havePlaybackStart ==>
              timeline.haveSegment && timeline.segmentStart <= output.playbackStart && output.submittedEnd + timeline.delay == timeline.expectedPts)
    }

    constructor ()
      ensures Valid() && !open && fresh(timeline) && fresh(output)
    {
      open, latencyMs := false, 20;
      timeline := new Timeline(1, 0);
      output := new Output(0);
    }

    /** client_audio_playback_configure with a valid configuration; `ready` says whether decoder and device could be opened. */
    method Configure(frame: nat, delay: nat, targetLatencyMs: nat, deviceBuffer: nat, ready: bool) returns (ok: bool)
      requires 0 < frame && delay <= frame
      modifies this
      ensures Valid() && ok == ready == open && fresh(timeline) && fresh(output)
      ensures timeline.frame == frame && timeline.delay == delay && !timeline.haveSegment && output.queued == 0
    {
      timeline := new Timeline(frame, delay);
      output := new Output(deviceBuffer);
      latencyMs, open := targetLatencyMs, ready;
      return ready;
    }

    /** clear_for_output_gap_locked: output only; a device that cannot be cleared closes the stream. */
    method ClearForGap(resetEnd: bool, clears: bool) returns (ok: bool)
      requires Valid() && open
      modifies `open, output
      ensures Valid() && ok == open == clears && (ok ==> !output.havePlaybackStart && !output.playing && output.queued == 0)
    {
      if !clears {
        open := false;
        return false;
      }
      output.Clear(resetEnd);
      return true;
    }

    /** clear_for_discontinuity_locked: output and segment. */
    method ClearForDiscontinuity(clears: bool) returns (ok: bool)
      requires Valid() && open
      modifies `open, output, timeline`expectedPts, timeline`haveExpectedPts, timeline`preSkip, timeline`segmentStart, timeline`haveSegment, timeline`ranges
      ensures Valid() && ok == open == clears && (ok ==> !timeline.haveSegment && !output.playing && output.queued == 0)
    {
      ok := ClearForGap(true, clears);
      if ok {
        timeline.Break();
      }
    }

    /** handle_device_starvation_locked. */
    method HandleStarvation(clears: bool)
      requires Valid() && open
      modifies `open, output
      ensures Valid() && (open <==> !old(output.starved && output.Drained()) || clears)
      ensures open ==> output.queued == old(output.queued)
    {
      var drained := output.ConfirmStarvation();
      if drained {
        var _ := ClearForGap(false, clears);
      }
    }

    /** The end-of-stream branch of client_audio_playback_handle_packet: it fails only if PCM cannot be flushed, or queued PCM can be
        neither started nor cleared. */
    method EndStream(sequence: nat, a: Answers) returns (outcome: Outcome)
      requires Valid() && open
      modifies `open, output, timeline`expectedSequence
      ensures Valid() && outcome == if old(EndFails(a)) then Broken else Ended
      ensures outcome == Broken ==> !open
      ensures timeline.expectedSequence == NextSequence(sequence)
    {
      timeline.expectedSequence := NextSequence(sequence);
      if !a.flushes {
        open := false;
        return Broken;
      }
      output.eosPending := true;
      if output.queued == 0 {
        EndDrained(a.clearsStarved);
        return Ended;
      }
      var ok := PlayOut(a.starts, a.clearsFailed);
      return if ok then Ended else Broken;
    }

    ghost predicate EndFails(a: Answers)
      reads `output, output
    {
      !a.flushes || (output.queued != 0 && !output.playing && !a.starts && !a.clearsFailed)
    }

    /** Nothing is left to play. */
    method EndDrained(clears: bool)
      requires Valid() && open
      modifies `open, output
      ensures Valid()
    {
      if output.playing {
        output.starved := true;
        HandleStarvation(clears);
      } else {
        output.eosPending, output.mixed, output.starved := false, 0, false;
      }
    }

    /** What is left is played, or discarded. */
    method PlayOut(starts: bool, clears: bool) returns (ok: bool)
      requires Valid() && open
      modifies `open, output
      ensures Valid() && ok == open && (ok <==> old(output.playing) || starts || clears)
    {
      if output.playing {
        return true;
      }
      ok := output.Start(starts);
      if !ok {
        ok := ClearForGap(true, clears);
      }
    }

    /** Backlog control: output is rebased when the FIFO would pass its limit. */
    method MakeRoom(frames: nat, clears: bool) returns (ok: bool)
      requires Valid() && open && frames > 0
      modifies `open, output
      ensures Valid() && ok == open && (ok ==> output.queued + frames <= Largest(MaxQueued(latencyMs), frames))
      ensures ok <==> !old(RebaseNeeded(output.queued, frames, MaxQueued(latencyMs))) || clears
    {
      if RebaseNeeded(output.queued, frames, MaxQueued(latencyMs)) {
        ok := ClearForGap(true, clears);
        return;
      }
      return true;
    }

    /** The put. The FIFO never holds more than its limit or one packet. */
    method Play(p: Packet, range: Range, skip: nat, a: Answers) returns (outcome: Outcome)
      requires Valid() && open && timeline.InSequence(p) && timeline.Continues(p, range, skip)
      modifies `open, output, timeline
      ensures Valid() && outcome == old(PutOutcome(timeline.frame - skip, output.queued, MaxQueued(latencyMs), a)) && (outcome == Broken <==> !open)
      ensures outcome == Played ==> timeline.ranges == old(timeline.ranges) + [range] && timeline.expectedSequence == NextSequence(p.sequence)
      ensures outcome == Played && skip < old(timeline.frame) ==> output.queued <= Largest(MaxQueued(latencyMs), old(timeline.frame))
      ensures outcome == PutFailed ==> !timeline.haveSegment
    {
      if timeline.frame - skip > 0 {
        var kept := MakeRoom(timeline.frame - skip, a.clearsBacklog);
        if !kept {
          return Broken;
        }
        if !a.accepts {
          kept := ClearForDiscontinuity(a.clearsFailed);
          return if kept then PutFailed else Broken;
        }
      }
      Submit(p, range, skip);
      return Played;
    }

    method Submit(p: Packet, range: Range, skip: nat)
      requires Valid() && open && timeline.InSequence(p) && timeline.Continues(p, range, skip)
      modifies output, timeline
      ensures Valid() && output.queued == old(output.queued) + (old(timeline.frame) - skip)
      ensures timeline.ranges == old(timeline.ranges) + [range] && timeline.expectedSequence == NextSequence(p.sequence)
    {
      output.Put(range);
      timeline.Advance(p, range, skip);
    }

    /** Playback starts once the target latency is queued. */
    method StartWhenFull(starts: bool)
      requires Valid() && open
      modifies output`mixed, output`playing
      ensures Valid()
      ensures output.playing <==>
                old(output.playing) || (output.havePlaybackStart && output.queued >= TargetSamples(latencyMs) && starts)
    {
      if !output.playing && output.havePlaybackStart && output.queued >= TargetSamples(latencyMs) {
        var _ := output.Start(starts);
      }
    }

    /** After a packet is decoded: its range, starvation, lateness, output. */
    method Decoded(p: Packet, a: Answers) returns (outcome: Outcome, ghost added: Range)
      requires Valid() && open && timeline.InSequence(p)
      modifies `open, output, timeline
      ensures Valid() && (outcome == Broken <==> !open)
      ensures outcome == old(DecodedOutcome(timeline.frame - timeline.preSkip, output.starved && output.Drained(), output.queued, MaxQueued(latencyMs), a))
      ensures outcome == Played ==> timeline.ranges == old(timeline.ranges) + [added] && timeline.expectedSequence == NextSequence(p.sequence)
    {
      var range, skip := timeline.Retain(p);
      added := range;
      HandleStarvation(a.clearsStarved);
      if !open {
        return Broken, range;
      }
      outcome := PlayAndStart(p, range, skip, a);
    }

    method PlayAndStart(p: Packet, range: Range, skip: nat, a: Answers) returns (outcome: Outcome)
      requires Valid() && open && timeline.InSequence(p) && timeline.Continues(p, range, skip)
      modifies `open, output, timeline
      ensures Valid() && outcome == old(PutOutcome(timeline.frame - skip, output.queued, MaxQueued(latencyMs), a)) && (outcome == Broken <==> !open)
      ensures outcome == Played ==> timeline.ranges == old(timeline.ranges) + [range] && timeline.expectedSequence == NextSequence(p.sequence)
    {
      var _ := output.IsLate(range);
      outcome := Play(p, range, skip, a);
      if outcome == Played {
        StartWhenFull(a.starts);
      }
    }

    /** What becomes of a packet of this stream once a gap is dealt with; a fresh segment skips the codec delay and finds no PCM. */
    ghost function InStream(p: Packet, gap: bool, a: Answers): Outcome
      reads this, timeline, output
      requires Valid() && open
    {
      if p.endOfStream then (if (if gap then !a.flushes else EndFails(a)) then Broken else Ended)
      else if p.duration != timeline.frame || U64_MAX - p.pts < p.duration then Refused
      else if !a.decodes then Undecodable
      else if gap then DecodedOutcome(timeline.frame - timeline.delay, false, 0, MaxQueued(latencyMs), a)
      else DecodedOutcome(timeline.frame - timeline.preSkip, output.starved && output.Drained(), output.queued, MaxQueued(latencyMs), a)
    }

    ghost function PacketOutcome(p: Packet, addressed: bool, a: Answers): Outcome
      reads this, timeline, output
      requires Valid()
    {
      if !open || !addressed then Refused
      else if timeline.Gap(p) && !a.clearsGap then Broken
      else InStream(p, timeline.Gap(p), a)
    }

    /** client_audio_playback_handle_packet; `addressed` says whether the packet names this stream. What the decoder and the device answer
        decides what becomes of it. A played packet in sequence extends the segment by exactly one range; after a gap it is the first of
        a new segment. */
    method HandlePacket(p: Packet, addressed: bool, a: Answers) returns (outcome: Outcome)
      requires Valid()
      modifies `open, output, timeline
      ensures Valid() && outcome == old(PacketOutcome(p, addressed, a))
      ensures !old(open) || !addressed ==> unchanged(this, timeline, output)
      ensures (outcome in {Played, PutFailed} ==> open) && (outcome == Broken ==> !open)
      ensures outcome in {Played, Ended} ==> timeline.expectedSequence == NextSequence(p.sequence)
      ensures outcome == Played && old(timeline.Gap(p)) ==> |timeline.ranges| == 1
      ensures outcome == Played && !old(timeline.Gap(p)) ==>
                |timeline.ranges| == |old(timeline.ranges)| + 1 && old(timeline.ranges) <= timeline.ranges
    {
      if !open || !addressed {
        return Refused;
      }
      if timeline.Gap(p) {
        var kept := ClearForDiscontinuity(a.clearsGap);
        if !kept {
          return Broken;
        }
      }
      outcome := HandleInStream(p, a);
    }

    method HandleInStream(p: Packet, a: Answers) returns (outcome: Outcome)
      requires Valid() && open && (timeline.haveExpectedPts ==> p.pts == timeline.expectedPts)
      modifies `open, output, timeline
      ensures Valid() && outcome == old(InStream(p, false, a))
      ensures (outcome in {Played, PutFailed} ==> open) && (outcome == Broken ==> !open)
      ensures outcome in {Played, Ended} ==> timeline.expectedSequence == NextSequence(p.sequence)
      ensures outcome == Played ==> |timeline.ranges| == |old(timeline.ranges)| + 1 && old(timeline.ranges) <= timeline.ranges
    {
      if p.endOfStream {
        outcome := EndStream(p.sequence, a);
        return;
      }
      if p.duration != timeline.frame || U64_MAX - p.pts < p.duration {
        return Refused;
      }
      if !a.decodes {
        var _ := ClearForDiscontinuity(a.clearsFailed);
        return Undecodable;
      }
      ghost var added;
      outcome, added := Decoded(p, a);
    }
  }

  // ----- runs

  datatype Event =
    | Arrive(p: Packet, addressed: bool, answers: Answers)
    | Callback(taken: nat, frames: nat, deviceBuffer: nat, limitPassed: bool)
    | Poll(clears: bool)

  /** After any run of packets, device callbacks and status polls: the ranges decoded in the current segment abut from its start, the
      submitted range is the PCM put into the FIFO, and the playhead lies between the playback start and the first queued sample. */
  method Execute(frame: nat, delay: nat, latencyMs: nat, deviceBuffer: nat, events: seq<Event>) returns (a: Playback, playhead: nat)
    requires 0 < frame && delay <= frame
    ensures a.Valid()
    ensures a.open && a.timeline.haveSegment ==>
      Abut(a.timeline.ranges, a.timeline.segmentStart, a.timeline.expectedPts - a.timeline.delay)
    ensures a.open && a.output.havePlaybackStart ==>
      && a.output.submittedEnd - a.output.playbackStart == a.output.put
      && a.output.playbackStart <= playhead <= a.output.submittedEnd - a.output.queued
  {
    a := new Playback();
    var _ := a.Configure(frame, delay, latencyMs, deviceBuffer, true);
    for i := 0 to |events|
      invariant a.Valid() && fresh(a) && fresh(a.timeline) && fresh(a.output)
    {
      match events[i] {
        case Arrive(p, addressed, answers) => var _ := a.HandlePacket(p, addressed, answers);
        case Callback(taken, frames, size, limitPassed) =>
          if a.open && a.output.playing && taken <= a.output.queued {
            a.output.DeviceCallback(taken, frames, size, limitPassed);
          }
        case Poll(clears) =>
          if a.open {
            a.HandleStarvation(clears);
          }
      }
    }
    playhead := 0;
    if a.open {
      playhead := a.output.CurrentPlayhead();
    }
  }
}
