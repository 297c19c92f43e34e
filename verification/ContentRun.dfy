/** Every interleaving of the threads that share the content-epoch fence. */
module ContentRun {
  import opened Wrappers
  import opened StreamOwnership
  import opened ContentOrder

  /** One locked region of some thread. `Finish` ends the transition in progress; regions that take the outer lock wait for it. */
  datatype Event =
    | Accept(contentEpoch: nat, owner: Owner, failures: nat)
    | Reset(contentEpoch: nat, owner: Owner, failures: nat)
    | Finish
    | Publish(content: nat, id: nat, output: Output)
    | Discard(failures: nat)
    | Pop
    | StampTile(content: nat)
    | MarkDirty(tiles: nat)
    | TakeDirty

  predicate Blocked(e: Event, held: bool)
  {
    if e.Finish? then !held
    else held && !(e.Discard? || e.Pop? || e.TakeDirty?)
  }

  /** What holds of the fence in any reachable state, for everything ever stamped. */
  ghost predicate Fenced(c: Content)
    reads c
  {
    forall i {:trigger c.stamps[i]} :: 0 <= i < |c.stamps| ==>
      var s := c.stamps[i];
      && s.changes <= c.changes
      && (c.IsCurrent(s.epoch, s.owner) <==> s.changes == c.changes)
      && (c.IsCurrent(s.epoch, s.owner) ==> c.transition.None? && s.content == c.remoteEpoch && s.owner == c.remoteOwner)
  }

  method Apply(c: Content, e: Event)
    requires c.Valid() && !Blocked(e, c.transition.Some?)
    modifies c
    ensures c.Valid() && old(c.changes) <= c.changes <= old(c.changes) + 1 && old(c.stamps) <= c.stamps
    ensures e.Accept? && c.transition.Some? ==> c.transition.value.0 > c.remoteEpoch
    ensures e.Accept? || e.Reset? ==> c.remoteEpoch == old(c.remoteEpoch)
  {
    match e
    case Accept(contentEpoch, owner, failures) => var _ := c.BeginAccept(contentEpoch, owner, failures);
    case Reset(contentEpoch, owner, failures) => var _ := c.BeginReset(contentEpoch, owner, failures);
    case Finish => c.FinishTransition();
    case Publish(content, id, output) => var _ := c.Publish(content, id, output);
    case Discard(failures) => c.Discard(failures);
    case Pop => var _, _ := c.Pop();
    case StampTile(content) => var _ := c.StampTile(content);
    case MarkDirty(tiles) => c.MarkDirty(tiles);
    case TakeDirty => var _, _ := c.TakeDirty();
  }

  /** After any interleaving shorter than 2^63 regions: whatever was stamped passes the ownership check if and only if ownership has
      not changed since, what passes belongs to the remote content in force, no local epoch has been used twice, every queued video
      frame is current while video owns the screen, and a tile remote owner means a tile local owner. */
  method Execute(capacity: nat, events: seq<Event>) returns (c: Content)
    requires |events| < EPOCHS - 1
    ensures c.Valid() && Fenced(c) && Epoch(c.word) == 1 + c.changes
    ensures forall f :: f in c.frames ==> c.IsCurrent(f.epoch, Video)
    ensures c.transition.None? && c.remoteOwner == Tiles ==> OwnerOf(c.word) == Tiles && c.frames == []
  {
    c := new Content(capacity);
    for i := 0 to |events|
      invariant c.Valid() && c.changes <= i && fresh(c)
    {
      if !Blocked(events[i], c.transition.Some?) {
        Apply(c, events[i]);
      }
    }
    forall i | 0 <= i < |c.stamps|
      ensures var s := c.stamps[i];
              && s.changes <= c.changes
              && (c.IsCurrent(s.epoch, s.owner) <==> s.changes == c.changes)
              && (c.IsCurrent(s.epoch, s.owner) ==> c.transition.None? && s.content == c.remoteEpoch && s.owner == c.remoteOwner)
    {
      c.Fence(c.stamps[i]);
    }
    QueueIsCurrent(c);
  }

  lemma QueueIsCurrent(c: Content)
    requires c.Valid()
    ensures forall f :: f in c.frames ==> c.IsCurrent(f.epoch, Video)
    ensures c.transition.None? && c.remoteOwner == Tiles ==> c.frames == []
  {
    forall i | 0 <= i < |c.frames|
      ensures c.IsCurrent(c.frames[i].epoch, Video)
    {
      var s := c.marks[i];
      assert s in c.stamps;
      c.Fence(s);
    }
    if c.frames != [] {
      assert c.frames[0] in c.frames;
    }
  }

  /** The remote epoch that the render thread attaches to a frame is read in a region of its own, so it can belong to the content
      before the frame's. */
  method AttachedEpochCanLag() returns (attached: nat, frame: Option<QueuedFrame>, ghost stamp: Stamp)
    ensures frame.Some? && attached == 1 && stamp.content == 2
  {
    var c := new Content(2);
    var _ := c.BeginAccept(1, Video, 0);
    c.FinishTransition();
    attached := c.SnapshotRemote();
    var _ := c.BeginAccept(2, Video, 0);
    c.FinishTransition();
    var ok := c.Publish(2, 1, Ready);
    frame, stamp := c.Pop();
  }
}
