/** The compressed video queue between the network thread and the decode worker: src/client/video_decode_queue_policy.c and
    src/client/client_net.cpp. */
module DecodeQueue {
  import opened Wrappers

  datatype Action = Enqueue | DropUntilKeyframe | RecoverOverflow

  datatype Plan = Plan(action: Action, clear: bool, wait: bool, reset: bool)

  /** wd_client_video_decode_queue_plan_compute. */
  function PlanFor(depth: nat, capacity: nat, waiting: bool, keyframe: bool, control: bool): Plan
  {
    if capacity == 0 then Plan(RecoverOverflow, depth != 0, true, false)
    else if control then Plan(Enqueue, true, true, false)
    else if keyframe then Plan(Enqueue, true, false, waiting)
    else if waiting then Plan(DropUntilKeyframe, false, true, false)
    else if depth >= capacity then Plan(RecoverOverflow, true, true, false)
    else Plan(Enqueue, false, false, false)
  }

  /** An arriving video message: its position in the stream, its flags, whether a keyframe passes the recovery check, and whether it
      has a payload buffer. A message without one is too short to carry flags. */
  datatype Packet = Packet(id: nat, keyframe: bool, control: bool, usable: bool, buffered: bool) {
    predicate Inter() { !keyframe && !control }
  }

  datatype Queued = Queued(packet: Packet, reset: bool)

  datatype Feedback = Quiet | NeedsKeyframe | Overload

  /** `q` may come out right after `before`: later in the stream, and if an inter frame then directly after its predecessor, which is
      not a control frame. Only a stream that opens with inter frames has one without predecessor. */
  ghost predicate Follows(before: seq<Queued>, q: Queued)
  {
    if before == [] then q.packet.Inter() ==> q.packet.id == 0
    else
      var last := before[|before| - 1].packet;
      last.id < q.packet.id && (q.packet.Inter() ==> last.id + 1 == q.packet.id && !last.control)
  }

  ghost predicate Chained(s: seq<Queued>)
  {
    s == [] || (Chained(s[..|s| - 1]) && Follows(s[..|s| - 1], s[|s| - 1]))
  }

  lemma {:induction false} ChainedPrefix(s: seq<Queued>, k: nat)
    requires Chained(s) && k <= |s|
    ensures Chained(s[..k])
  {
    if k < |s| {
      ChainedPrefix(s[..|s| - 1], k);
      assert s[..|s| - 1][..k] == s[..k];
    } else {
      assert s[..k] == s;
    }
  }

  lemma ChainedAt(s: seq<Queued>, k: nat)
    requires Chained(s) && k < |s|
    ensures Follows(s[..k], s[k])
  {
    ChainedPrefix(s, k + 1);
    assert s[..k + 1][..k] == s[..k];
  }

  /** What is out or queued after `n` arrivals. */
  ghost predicate StreamOk(s: seq<Queued>, n: nat, waiting: bool)
  {
    && Chained(s)
    && (s != [] ==> s[|s| - 1].packet.id < n)
    && (!waiting ==> if s == [] then n == 0 else s[|s| - 1].packet.id == n - 1 && !s[|s| - 1].packet.control)
  }

  lemma {:induction false} LastId(s: seq<Queued>, k: nat)
    requires Chained(s) && k < |s|
    ensures s[k].packet.id <= s[|s| - 1].packet.id
  {
    if k < |s| - 1 {
      LastId(s[..|s| - 1], k);
    }
  }

  lemma Flushed(out: seq<Queued>, queue: seq<Queued>, n: nat, waiting: bool)
    requires StreamOk(out + queue, n, waiting)
    ensures StreamOk(out + [], n, true)
  {
    assert out + [] == out;
    assert (out + queue)[..|out|] == out;
    ChainedPrefix(out + queue, |out|);
    if out != [] {
      LastId(out + queue, |out| - 1);
    }
  }

  lemma Pushed(out: seq<Queued>, queue: seq<Queued>, n: nat, waiting: bool, q: Queued, wait: bool)
    requires StreamOk(out + queue, n, waiting) && q.packet.id == n && (q.packet.Inter() ==> !waiting) && (q.packet.control ==> wait)
    ensures StreamOk(out + (queue + [q]), n + 1, wait)
  {
    var s := out + queue;
    assert out + (queue + [q]) == s + [q];
    assert (s + [q])[..|s|] == s;
  }

  class DecodeQueue {
    const capacity: nat
    var queue: seq<Queued>
    var waiting: bool
    ghost var arrivals: nat
    ghost var delivered: seq<Queued>

    ghost predicate Valid()
      reads this
    {
      && |queue| <= capacity
      && StreamOk(delivered + queue, arrivals, waiting)
    }

    constructor (capacity: nat)
      ensures Valid() && arrivals == 0 && delivered == [] && queue == [] && !waiting && this.capacity == capacity
    {
      this.capacity := capacity;
      queue, waiting, arrivals, delivered := [], false, 0, [];
    }

    /** clear_video_decode_queue: a new stream begins. */
    method Clear()
      modifies this
      ensures Valid() && arrivals == 0 && delivered == [] && queue == [] && !waiting
    {
      queue, waiting, arrivals, delivered := [], false, 0, [];
    }

    /** enqueue_video_message while the workers run. A false answer closes the connection. */
    method Offer(p: Packet) returns (ok: bool, feedback: Feedback)
      requires Valid() && p.id == arrivals && (!p.buffered ==> p.Inter())
      modifies this
      ensures delivered == old(delivered) && arrivals == old(arrivals) + 1
      ensures ok ==> Valid()
      ensures !ok ==> !p.buffered && |queue| <= capacity
      ensures ok && queue != old(queue) && queue != [] ==> queue[|queue| - 1].packet == p
      ensures ok && old(waiting) && p.Inter() ==> waiting && queue == old(queue)
      ensures ok && old(waiting) && p.keyframe && !p.control && !p.usable ==> waiting && queue == old(queue) && feedback == NeedsKeyframe
      ensures ok && capacity > 0 && p.keyframe && !p.control && (old(waiting) ==> p.usable) ==>
                !waiting && queue == [Queued(p, old(waiting))]
      ensures ok && capacity > 0 && p.control ==> waiting && queue == [Queued(p, false)]
      ensures ok && p.Inter() && !old(waiting) ==>
                if |old(queue)| < capacity then !waiting && queue == old(queue) + [Queued(p, false)]
                else waiting && queue == [] && feedback == Overload
    {
      ghost var n, was := arrivals, waiting;
      arrivals := arrivals + 1;
      if waiting && p.keyframe && !p.control && !p.usable {
        return true, NeedsKeyframe;
      }
      var plan := PlanFor(|queue|, capacity, waiting, p.keyframe, p.control);
      if plan.clear {
        Flushed(delivered, queue, n, waiting);
        queue := [];
      }
      waiting := plan.wait;
      if plan.action == DropUntilKeyframe {
        return true, Quiet;
      }
      if plan.action == RecoverOverflow {
        return true, Overload;
      }
      if !p.buffered {
        return false, Quiet;
      }
      Pushed(delivered, queue, n, was || plan.clear, Queued(p, plan.reset), plan.wait);
      queue := queue + [Queued(p, plan.reset)];
      return true, Quiet;
    }

    /** pop_media_packet: the worker takes the oldest. */
    method Pop() returns (r: Option<Queued>)
      requires Valid()
      modifies this`queue, this`delivered
      ensures Valid() && waiting == old(waiting)
      ensures old(queue) == [] ==> r == None && delivered == old(delivered) && queue == []
      ensures old(queue) != [] ==> r == Some(old(queue)[0]) && delivered == old(delivered) + [old(queue)[0]] && queue == old(queue)[1..]
    {
      if queue == [] {
        return None;
      }
      r := Some(queue[0]);
      assert (delivered + [queue[0]]) + queue[1..] == delivered + queue;
      delivered, queue := delivered + [queue[0]], queue[1..];
    }
  }

  /** Delivered frames come in unbroken runs: behind a delivered inter frame stand all its predecessors back to the keyframe it
      depends on, or to the start of a stream that opens with inter frames. */
  lemma {:induction false} RunBehind(s: seq<Queued>, k: nat) returns (g: nat)
    requires Chained(s) && k < |s| && !s[k].packet.control
    ensures g <= k && (s[g].packet.keyframe || (g == 0 && s[g].packet.id == 0))
    ensures forall j :: g <= j <= k ==> s[j].packet.id == s[g].packet.id + (j - g) && !s[j].packet.control
    ensures forall j :: g < j <= k ==> s[j].packet.Inter()
  {
    ChainedAt(s, k);
    if s[k].packet.keyframe || k == 0 {
      g := k;
    } else {
      g := RunBehind(s, k - 1);
    }
  }

  // ----- runs

  datatype Step = Arrive(keyframe: bool, control: bool, usable: bool) | Empty | Take | Restart

  /** Any interleaving of arrivals, worker pops and stream restarts, until the connection closes: the depth stays within capacity and
      the packets delivered so far come in unbroken runs. */
  method Execute(capacity: nat, steps: seq<Step>) returns (q: DecodeQueue, closed: bool)
    ensures |q.queue| <= capacity
    ensures !closed ==> q.Valid() && Chained(q.delivered)
  {
    q := new DecodeQueue(capacity);
    closed := false;
    var arrived := 0;
    for i := 0 to |steps|
      invariant fresh(q) && q.capacity == capacity && q.Valid() && arrived == q.arrivals
    {
      match steps[i] {
        case Arrive(keyframe, control, usable) =>
          var ok, _ := q.Offer(Packet(arrived, keyframe, control, usable, true));
          arrived := arrived + 1;
        case Empty =>
          var ok, _ := q.Offer(Packet(arrived, false, false, false, false));
          if !ok {
            closed := true;
            return;
          }
          arrived := arrived + 1;
        case Take => var _ := q.Pop();
        case Restart =>
          q.Clear();
          arrived := 0;
      }
    }
    ChainedPrefix(q.delivered + q.queue, |q.delivered|);
    assert (q.delivered + q.queue)[..|q.delivered|] == q.delivered;
  }
}
