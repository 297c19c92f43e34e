/** The doubly linked list of frames waiting in the asynchronous TCP sender (src/client/client_async_tcp.cpp). */
module PendingList {
  import opened TcpFrames

  /** A framed message. The frame never changes; progress and links do. */
  class Message {
    const fd: int
    const frame: Frame
    var next: Message?
    var prev: Message?
    var bytesSent: nat
    var submitted: bool

    constructor (fd: int, frame: Frame)
      ensures this.fd == fd && this.frame == frame
      ensures next == null && prev == null && bytesSent == 0 && !submitted
    {
      this.fd, this.frame := fd, frame;
      next, prev, bytesSent, submitted := null, null, 0, false;
    }
  }

  ghost function SumBytes(nodes: seq<Message>): nat
  {
    if nodes == [] then 0 else SumBytes(nodes[..|nodes| - 1]) + nodes[|nodes| - 1].frame.Size()
  }

  /** `s` with its element `k` taken out; the others keep their order. */
  ghost function Without<T>(s: seq<T>, k: nat): (r: seq<T>)
    requires k < |s|
    ensures |r| == |s| - 1
    ensures forall i {:trigger r[i]} :: 0 <= i < |r| ==> r[i] == if i < k then s[i] else s[i + 1]
    ensures k == 0 ==> r == s[1..]
    ensures k == |s| - 1 ==> r == s[..k]
    decreases k
  {
    if k == 0 then s[1..] else [s[0]] + Without(s[1..], k - 1)
  }

  /** No element occurs twice (recursive, so that it stays folded until a lemma opens it). */
  ghost predicate Distinct<T>(s: seq<T>)
  {
    s == [] || (s[|s| - 1] !in s[..|s| - 1] && Distinct(s[..|s| - 1]))
  }

  lemma {:induction false} Positions<T>(s: seq<T>) returns (at: map<T, nat>)
    requires Distinct(s)
    ensures forall i {:trigger s[i]} :: 0 <= i < |s| ==> s[i] in at && at[s[i]] == i
  {
    if s == [] {
      at := map[];
    } else {
      at := Positions(s[..|s| - 1]);
      assert forall i :: 0 <= i < |s| - 1 ==> s[..|s| - 1][i] == s[i];
      at := at[s[|s| - 1] := |s| - 1];
    }
  }

  lemma HeadOnce<T>(s: seq<T>)
    requires Distinct(s) && s != []
    ensures forall i {:trigger s[i]} :: 1 <= i < |s| ==> s[i] != s[0]
  {
    var at := Positions(s);
  }

  lemma {:induction false} WithoutLast<T>(s: seq<T>, k: nat)
    requires k < |s| - 1
    ensures Without(s, k) == Without(s[..|s| - 1], k) + [s[|s| - 1]]
    decreases k
  {
    var n := |s| - 1;
    if k == 0 {
      assert s[1..] == s[..n][1..] + [s[n]];
    } else {
      var rest := s[1..];
      WithoutLast(rest, k - 1);
      assert s[..n][1..] == rest[..n - 1] && rest[n - 1] == s[n] && s[..n][0] == s[0];
    }
  }

  lemma {:induction false} DistinctWithout<T>(s: seq<T>, k: nat)
    requires Distinct(s) && k < |s|
    ensures Distinct(Without(s, k)) && s[k] !in Without(s, k)
  {
    var n := |s| - 1;
    if k < n {
      DistinctWithout(s[..n], k);
      WithoutLast(s, k);
      assert Without(s, k)[..n - 1] == Without(s[..n], k);
      assert forall x :: x in Without(s[..n], k) ==> x in s[..n];
    }
  }

  lemma SumSnoc(nodes: seq<Message>, m: Message)
    ensures SumBytes(nodes + [m]) == SumBytes(nodes) + m.frame.Size()
  {
    assert (nodes + [m])[..|nodes|] == nodes;
  }

  lemma {:induction false} SumWithout(nodes: seq<Message>, k: nat)
    requires k < |nodes|
    ensures SumBytes(Without(nodes, k)) == SumBytes(nodes) - nodes[k].frame.Size()
  {
    var n := |nodes| - 1;
    if k == n {
      assert Without(nodes, k) == nodes[..n];
    } else {
      SumWithout(nodes[..n], k);
      WithoutLast(nodes, k);
      SumSnoc(Without(nodes[..n], k), nodes[n]);
    }
  }

  lemma Removed(nodes: seq<Message>, k: nat)
    requires Distinct(nodes) && k < |nodes|
    ensures Distinct(Without(nodes, k)) && nodes[k] !in Without(nodes, k)
    ensures SumBytes(Without(nodes, k)) == SumBytes(nodes) - nodes[k].frame.Size()
  {
    SumWithout(nodes, k);
    DistinctWithout(nodes, k);
  }

  lemma Snoc(nodes: seq<Message>, m: Message)
    requires Distinct(nodes) && m !in nodes
    ensures Distinct(nodes + [m]) && SumBytes(nodes + [m]) == SumBytes(nodes) + m.frame.Size()
  {
    assert (nodes + [m])[..|nodes|] == nodes;
  }

  ghost function At(nodes: seq<Message>, i: int): Message?
  {
    if 0 <= i < |nodes| then nodes[i] else null
  }

  ghost predicate PrevLinked(nodes: seq<Message>)
    reads nodes`prev
  {
    forall i {:trigger nodes[i].prev} :: 0 <= i < |nodes| ==> nodes[i].prev == At(nodes, i - 1)
  }

  ghost predicate NextLinked(nodes: seq<Message>)
    reads nodes`next
  {
    forall i {:trigger nodes[i].next} :: 0 <= i < |nodes| ==> nodes[i].next == At(nodes, i + 1)
  }

  /** Forward and backward links spell out `nodes`. */
  ghost predicate Linked(nodes: seq<Message>)
    reads nodes`next, nodes`prev
  {
    PrevLinked(nodes) && NextLinked(nodes)
  }

  ghost predicate PrevSkips(nodes: seq<Message>, k: nat)
    reads nodes`prev
  {
    forall i {:trigger nodes[i].prev} :: 0 <= i < |nodes| && i != k ==> nodes[i].prev == At(nodes, if i - 1 == k then k - 1 else i - 1)
  }

  ghost predicate NextSkips(nodes: seq<Message>, k: nat)
    reads nodes`next
  {
    forall i {:trigger nodes[i].next} :: 0 <= i < |nodes| && i != k ==> nodes[i].next == At(nodes, if i + 1 == k then k + 1 else i + 1)
  }

  /** The links of every node but `k` step over `k`. */
  ghost predicate StepsOver(nodes: seq<Message>, k: nat)
    reads nodes`next, nodes`prev
  {
    PrevSkips(nodes, k) && NextSkips(nodes, k)
  }

  lemma SteppedOver(nodes: seq<Message>, k: nat)
    requires k < |nodes| && StepsOver(nodes, k)
    ensures Linked(Without(nodes, k))
    ensures At(Without(nodes, k), 0) == At(nodes, if k == 0 then 1 else 0)
    ensures At(Without(nodes, k), |nodes| - 2) == At(nodes, if k == |nodes| - 1 then k - 1 else |nodes| - 1)
  {
    var rest := Without(nodes, k);
    forall i | 0 <= i < |rest|
      ensures rest[i].prev == At(rest, i - 1) && rest[i].next == At(rest, i + 1)
    {
      var j := if i < k then i else i + 1;
      assert rest[i] == nodes[j];
    }
  }

  class List {
    var head: Message?
    var tail: Message?
    var bytes: nat
    ghost var nodes: seq<Message>

    ghost predicate Valid()
      reads this, nodes`next, nodes`prev
    {
      && Distinct(nodes)
      && Linked(nodes)
      && head == At(nodes, 0)
      && tail == At(nodes, |nodes| - 1)
      && bytes == SumBytes(nodes)
    }

    constructor ()
      ensures Valid() && nodes == []
    {
      head, tail, bytes, nodes := null, null, 0, [];
    }

    method Attach(m: Message)
      requires Valid() && m !in nodes
      modifies `head, `tail, m`next, m`prev, nodes`next
      ensures Linked(nodes + [m])
      ensures head == At(nodes + [m], 0) && tail == m
    {
      ghost var at := Positions(nodes);
      m.next := null;
      m.prev := tail;
      if tail != null {
        tail.next := m;
      } else {
        head := m;
      }
      tail := m;
    }

    /** pending_add: append at the tail. */
    method Add(m: Message)
      requires Valid() && m !in nodes
      modifies this, m`next, m`prev, nodes`next
      ensures Valid() && nodes == old(nodes) + [m] && bytes == old(bytes) + m.frame.Size()
    {
      Attach(m);
      Snoc(nodes, m);
      bytes := bytes + m.frame.Size();
      nodes := nodes + [m];
    }

    method SkipForward(m: Message, ghost k: nat)
      requires Distinct(nodes) && Linked(nodes) && head == At(nodes, 0) && k < |nodes| && nodes[k] == m
      modifies `head, nodes`next
      ensures NextSkips(nodes, k) && m.next == old(m.next) && head == At(nodes, if k == 0 then 1 else 0)
    {
      ghost var at := Positions(nodes);
      if m.prev != null {
        m.prev.next := m.next;
      } else {
        head := m.next;
      }
    }

    method SkipBackward(m: Message, ghost k: nat)
      requires Distinct(nodes) && PrevLinked(nodes) && tail == At(nodes, |nodes| - 1) && k < |nodes| && nodes[k] == m
      requires m.next == At(nodes, k + 1)
      modifies `tail, nodes`prev
      ensures PrevSkips(nodes, k) && tail == At(nodes, if k == |nodes| - 1 then k - 1 else |nodes| - 1)
    {
      ghost var at := Positions(nodes);
      if m.next != null {
        m.next.prev := m.prev;
      } else {
        tail := m.prev;
      }
    }

    method Unlink(m: Message, ghost k: nat)
      requires Valid() && k < |nodes| && nodes[k] == m
      modifies `head, `tail, nodes`next, nodes`prev
      ensures StepsOver(nodes, k)
      ensures head == At(nodes, if k == 0 then 1 else 0)
      ensures tail == At(nodes, if k == |nodes| - 1 then k - 1 else |nodes| - 1)
    {
      SkipForward(m, k);
      SkipBackward(m, k);
    }

    method Detach(m: Message)
      requires Linked(nodes) && m !in nodes
      modifies m`next, m`prev
      ensures Linked(nodes) && m.next == null && m.prev == null
    {
      m.next := null;
      m.prev := null;
    }

    /** pending_remove: unlink from anywhere. */
    method Remove(m: Message, ghost k: nat)
      requires Valid() && k < |nodes| && nodes[k] == m
      modifies this, nodes`next, nodes`prev
      ensures Valid() && nodes == Without(old(nodes), k) && bytes <= old(bytes)
      ensures m.next == null && m.prev == null
    {
      Unlink(m, k);
      Forget(m, k);
      Detach(m);
    }

    method Forget(m: Message, ghost k: nat)
      requires k < |nodes| && nodes[k] == m && Distinct(nodes) && StepsOver(nodes, k) && bytes == SumBytes(nodes)
      requires head == At(nodes, if k == 0 then 1 else 0) && tail == At(nodes, if k == |nodes| - 1 then k - 1 else |nodes| - 1)
      modifies `bytes, `nodes
      ensures Valid() && nodes == Without(old(nodes), k) && m !in nodes && bytes <= old(bytes)
    {
      SteppedOver(nodes, k);
      Removed(nodes, k);
      bytes := bytes - m.frame.Size();   // never below zero, so the source's clamp is not taken
      nodes := Without(nodes, k);
    }

    method PopTail()
      requires Valid() && nodes != []
      modifies this, nodes`next, nodes`prev
      ensures Valid() && nodes == old(nodes)[..|old(nodes)| - 1] && bytes <= old(bytes)
    {
      Remove(tail, |nodes| - 1);
    }
  }
}
