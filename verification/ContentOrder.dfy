/** The content-epoch fence shared by the network, decode and render threads: src/client/content_order.cpp,
    src/client/video_present_queue.cpp, src/client/tile_upload_epoch.hpp, and their callers in src/client/client_net.cpp,
    src/client/client_receive.cpp and src/client/sdl_viewer.cpp. Every method is one region that runs under its locks; accepting an
    epoch is two, because the remote epoch is stored after the inner locks are released while the outer one is still held. */
module ContentOrder {
  import opened Wrappers
  import opened StreamOwnership

  datatype Decision = Stale | Current | Advanced

  datatype QueuedFrame = QueuedFrame(id: nat, epoch: nat)

  /** What the decoder hands over for publication. */
  datatype Output = Missing | WrongShape | Ready

  /** Ghost record of something stamped for display: the local epoch it carries, the owner it is checked against, the remote
      content epoch it belongs to, and how many ownership changes had happened. */
  datatype Stamp = Stamp(epoch: nat, owner: Owner, content: nat, changes: nat)

  /** A stamp can only be as new as the fence, and one that is belongs to the remote content now in force. */
  ghost predicate StampOk(s: Stamp, changes: nat, settled: bool, remoteEpoch: nat, remoteOwner: Owner, local: Owner)
  {
    && s.changes <= changes
    && s.epoch == (1 + s.changes) % EPOCHS
    && (s.changes == changes ==> settled && s.content == remoteEpoch && s.owner == remoteOwner == local)
  }

  ghost predicate StampsOk(stamps: seq<Stamp>, changes: nat, settled: bool, remoteEpoch: nat, remoteOwner: Owner, local: Owner)
  {
    forall i :: 0 <= i < |stamps| ==> StampOk(stamps[i], changes, settled, remoteEpoch, remoteOwner, local)
  }

  /** Queued frames carry current stamps. */
  ghost predicate QueueOk(frames: seq<QueuedFrame>, marks: seq<Stamp>, stamps: seq<Stamp>, changes: nat)
  {
    |marks| == |frames|
    && forall i :: 0 <= i < |frames| ==>
         marks[i] in stamps && marks[i].changes == changes && marks[i].owner == Video && marks[i].epoch == frames[i].epoch
  }

  class Content {
    const capacity: nat
    var word: nat
    var remoteEpoch: nat
    var remoteOwner: Owner
    var transition: Option<(nat, Owner)>       // the outer lock is held and this is about to be stored
    var frames: seq<QueuedFrame>
    var frameDirty: bool
    var dirtyCount: nat
    var dirtyEpoch: nat
    ghost var changes: nat
    ghost var stamps: seq<Stamp>
    ghost var marks: seq<Stamp>

    ghost predicate Valid()
      reads this
    {
      && Counts(word, changes)
      && 0 < capacity && |frames| <= capacity
      && StampsOk(stamps, changes, transition.None?, remoteEpoch, remoteOwner, OwnerOf(word))
      && QueueOk(frames, marks, stamps, changes)
      && (transition.None? ==> remoteOwner == Tiles ==> OwnerOf(word) == Tiles)
      && (transition.Some? ==> transition.value.1 == Tiles ==> OwnerOf(word) == Tiles)
      && (dirtyCount > 0 ==> dirtyEpoch % EPOCHS == Epoch(word))
      && (frames != [] ==> frameDirty)
    }

    constructor (capacity: nat)
      ensures Valid() && changes == 0 && stamps == [] && remoteEpoch == 0 && transition.None?
    {
      this.capacity := if capacity == 0 then 1 else capacity;
      word, remoteEpoch, remoteOwner, transition := INITIAL_WORD, 0, Tiles, None;
      frames, frameDirty, dirtyCount, dirtyEpoch := [], false, 0, 1;
      changes, stamps, marks := 0, [], [];
    }

    /** wd_client_stream_ownership_is_current. */
    predicate IsCurrent(epoch: nat, owner: Owner)
      reads this
    {
      Epoch(word) == epoch && OwnerOf(word) == owner
    }

    /** A weak compare-and-swap. Every writer of the word holds the same locks, so a failure is spurious. */
    method CompareExchange(expected: nat, desired: nat, spurious: bool) returns (ok: bool, seen: nat)
      modifies this`word
      ensures seen == old(word) && (ok <==> old(word) == expected && !spurious)
      ensures word == if ok then desired else old(word)
    {
      ok, seen := word == expected && !spurious, word;
      if ok {
        word := desired;
      }
    }

    /** wd_client_stream_ownership_advance: always a new epoch. */
    method Advance(owner: Owner, failures: nat) returns (epoch: nat)
      requires Counts(word, changes)
      modifies this`word, this`changes
      ensures Counts(word, changes) && OwnerOf(word) == owner && changes == old(changes) + 1 && epoch % EPOCHS == Epoch(word)
    {
      CountsNext(word, changes, owner);
      var current, done := word, false;
      var left: nat := failures;
      epoch := Epoch(current) + 1;
      while !done
        invariant current == old(word) && epoch == Epoch(current) + 1 && changes == old(changes)
        invariant word == if done then Pack(epoch, owner) else old(word)
        decreases left, !done
      {
        epoch := Epoch(current) + 1;
        done, current := CompareExchange(current, Pack(epoch, owner), left > 0);
        left := if left > 0 then left - 1 else 0;
      }
      changes := changes + 1;
    }

    /** wd_client_stream_ownership_end_video_stream: a new epoch only if video owned the screen. */
    method EndVideo(failures: nat) returns (epoch: nat)
      requires Counts(word, changes)
      modifies this`word, this`changes
      ensures Counts(word, changes) && OwnerOf(word) == Tiles && epoch % EPOCHS == Epoch(word)
      ensures changes == old(changes) + (if OwnerOf(old(word)) == Video then 1 else 0)
      ensures changes == old(changes) ==> word == old(word)
    {
      if OwnerOf(word) == Tiles {
        return Epoch(word);
      }
      epoch := Advance(Tiles, failures);
    }

    /** No decoded frame waits, and no tile is dirty. */
    ghost predicate NothingPending()
      reads this
    {
      frames == [] && !frameDirty && dirtyCount == 0
    }

    /** The inner region of accepting or resetting an epoch: everything pending is dropped and the local epoch advances. */
    method ResetPending(contentEpoch: nat, owner: Owner, failures: nat)
      requires Valid() && transition.None?
      modifies this
      ensures Valid() && transition == Some((contentEpoch, owner)) && NothingPending()
      ensures remoteEpoch == old(remoteEpoch) && remoteOwner == old(remoteOwner) && OwnerOf(word) == owner
      ensures changes == old(changes) + 1 && stamps == old(stamps)
    {
      dirtyCount := 0;
      frames, marks := [], [];
      frameDirty := false;
      transition := Some((contentEpoch, owner));
      dirtyEpoch := Advance(owner, failures);
    }

    /** client_accept_content_epoch up to the store of the remote epoch. */
    method BeginAccept(contentEpoch: nat, owner: Owner, failures: nat) returns (decision: Decision)
      requires Valid() && transition.None?
      modifies this
      ensures Valid() && remoteEpoch == old(remoteEpoch) && remoteOwner == old(remoteOwner) && stamps == old(stamps)
      ensures decision == Advanced <==> contentEpoch > remoteEpoch
      ensures decision == Current <==> contentEpoch != 0 && contentEpoch == remoteEpoch && owner == remoteOwner
      ensures decision == Advanced ==>
                transition == Some((contentEpoch, owner)) && NothingPending() && OwnerOf(word) == owner && changes == old(changes) + 1
      ensures decision != Advanced ==> transition.None? && unchanged(this)
    {
      if contentEpoch == 0 || contentEpoch < remoteEpoch || (contentEpoch == remoteEpoch && owner != remoteOwner) {
        return Stale;
      }
      if contentEpoch == remoteEpoch {
        return Current;
      }
      ResetPending(contentEpoch, owner, failures);
      return Advanced;
    }

    /** client_reset_content_epoch up to the store of the remote epoch. */
    method BeginReset(contentEpoch: nat, owner: Owner, failures: nat) returns (ok: bool)
      requires Valid() && transition.None?
      modifies this
      ensures Valid() && remoteEpoch == old(remoteEpoch) && remoteOwner == old(remoteOwner) && stamps == old(stamps)
      ensures ok <==> contentEpoch != 0
      ensures ok ==> transition == Some((contentEpoch, owner)) && NothingPending() && OwnerOf(word) == owner && changes == old(changes) + 1
      ensures !ok ==> transition.None? && unchanged(this)
    {
      if contentEpoch == 0 {
        return false;
      }
      ResetPending(contentEpoch, owner, failures);
      return true;
    }

    /** The remote epoch and owner are stored and the outer lock released. */
    method FinishTransition()
      requires Valid() && transition.Some?
      modifies this`remoteEpoch, this`remoteOwner, this`transition
      ensures Valid() && transition.None?
      ensures remoteEpoch == old(transition).value.0 && remoteOwner == old(transition).value.1
    {
      remoteEpoch, remoteOwner := transition.value.0, transition.value.1;
      transition := None;
    }

    /** discard_pending_video_frame, which does not take the outer lock. */
    method Discard(failures: nat)
      requires Valid()
      modifies this
      ensures Valid() && OwnerOf(word) == Tiles && frames == [] && !frameDirty && transition == old(transition)
      ensures remoteEpoch == old(remoteEpoch) && remoteOwner == old(remoteOwner) && dirtyCount == old(dirtyCount)
      ensures changes == old(changes) + (if OwnerOf(old(word)) == Video then 1 else 0) && stamps == old(stamps)
    {
      var epoch := EndVideo(failures);
      frames, marks, frameDirty := [], [], false;
      if dirtyCount != 0 {
        dirtyEpoch := epoch;
      }
    }

    ghost method Record(owner: Owner, content: nat) returns (s: Stamp)
      requires Valid() && transition.None? && content == remoteEpoch && owner == remoteOwner == OwnerOf(word)
      modifies this`stamps
      ensures Valid() && stamps == old(stamps) + [s] && s == Stamp(Epoch(word), owner, content, changes)
    {
      s := Stamp(Epoch(word), owner, content, changes);
      stamps := stamps + [s];
    }

    /** take_decode_buffer: a full queue gives up its newest frame. */
    method MakeRoom() returns (droppedNewest: bool)
      requires Valid()
      modifies this`frames, this`marks
      ensures Valid() && droppedNewest == (|old(frames)| == capacity) && |frames| < capacity
      ensures frames == if droppedNewest then old(frames)[..capacity - 1] else old(frames)
    {
      droppedNewest := |frames| >= capacity;
      if droppedNewest {
        frames, marks := frames[..|frames| - 1], marks[..|frames| - 1];
      }
    }

    /** The publication of a decoded frame: refused unless it belongs to the video content in force. */
    method Publish(content: nat, id: nat, output: Output) returns (ok: bool)
      requires Valid() && transition.None?
      modifies this
      ensures Valid() && transition.None? && changes == old(changes) && word == old(word)
      ensures remoteEpoch == old(remoteEpoch) && remoteOwner == old(remoteOwner)
      ensures ok <==> content == remoteEpoch && remoteOwner == Video && OwnerOf(word) == Video && output == Ready && Epoch(word) != 0
      ensures ok ==> frames == (if |old(frames)| == capacity then old(frames)[..capacity - 1] else old(frames)) + [QueuedFrame(id, Epoch(word))]
      ensures ok ==> dirtyCount == 0 && stamps == old(stamps) + [Stamp(Epoch(word), Video, content, changes)]
      ensures !ok ==> stamps == old(stamps) && frames <= old(frames)
    {
      if content != remoteEpoch || remoteOwner != Video || OwnerOf(word) != Video {
        return false;
      }
      var _ := MakeRoom();
      if output != Ready || Epoch(word) == 0 {
        return false;
      }
      ghost var s := Record(Video, content);
      frames, marks, frameDirty := frames + [QueuedFrame(id, Epoch(word))], marks + [s], true;
      dirtyCount, dirtyEpoch := 0, Epoch(word);
      return true;
    }

    /** The render thread's look at the remote content, taken and released before it touches the queue. */
    method SnapshotRemote() returns (shown: nat)
      requires Valid() && transition.None?
      ensures shown == if remoteOwner == Video then remoteEpoch else 0
    {
      shown := if remoteOwner == Video then remoteEpoch else 0;
    }

    /** The render thread takes the oldest frame. A frame that is there is current and belongs to the remote content in force,
        so a remote epoch read earlier describes it exactly when the remote epoch has not moved since. */
    method Pop() returns (frame: Option<QueuedFrame>, ghost stamp: Stamp)
      requires Valid()
      modifies this`frames, this`marks, this`frameDirty
      ensures Valid()
      ensures frame.Some? <==> old(frames) != [] && old(frameDirty)
      ensures frame.Some? ==> frame.value == old(frames)[0] && frames == old(frames)[1..]
      ensures frame.Some? ==> stamp in stamps && IsCurrent(frame.value.epoch, Video) && stamp.epoch == frame.value.epoch
      ensures frame.Some? ==> transition.None? && stamp.content == remoteEpoch
      ensures frame.None? ==> frames == []
    {
      stamp := Stamp(0, Tiles, 0, 0);
      if !frameDirty {
        return None, stamp;
      }
      if frames == [] {
        frameDirty := false;
        return None, stamp;
      }
      stamp := marks[0];
      assert stamp in stamps;
      frame := Some(frames[0]);
      frames, marks := frames[1..], marks[1..];
      frameDirty := frames != [];
    }

    /** A completed tile is stamped for upload, under the outer lock. */
    method StampTile(content: nat) returns (epoch: Option<nat>)
      requires Valid() && transition.None?
      modifies this`stamps
      ensures Valid()
      ensures epoch.Some? <==> content == remoteEpoch && remoteOwner == Tiles
      ensures epoch.Some? ==> epoch.value == Epoch(word) && stamps == old(stamps) + [Stamp(epoch.value, Tiles, content, changes)]
      ensures epoch.None? ==> stamps == old(stamps)
    {
      if content != remoteEpoch || remoteOwner != Tiles {
        return None;
      }
      ghost var _ := Record(Tiles, content);
      return Some(Epoch(word));
    }

    /** The framebuffer fallback of the same region marks tiles dirty. */
    method MarkDirty(tiles: nat)
      requires Valid() && transition.None?
      modifies this`dirtyCount, this`dirtyEpoch
      ensures Valid() && dirtyCount == old(dirtyCount) + tiles && dirtyEpoch == Epoch(word)
    {
      dirtyCount := dirtyCount + tiles;
      dirtyEpoch := Epoch(word);
    }

    /** The render thread takes the dirty tiles with their epoch, which is the current one if there are any. */
    method TakeDirty() returns (tiles: nat, epoch: nat)
      requires Valid()
      modifies this`dirtyCount
      ensures Valid() && tiles == old(dirtyCount) && dirtyCount == 0
      ensures tiles > 0 ==> epoch % EPOCHS == Epoch(word)
    {
      tiles, epoch := dirtyCount, dirtyEpoch;
      dirtyCount := 0;
    }

    /** The fence: what was stamped passes a later ownership check exactly when the ownership changes in between are a multiple of
        2^63 that leaves the owner the same; below 2^63 changes, exactly when there was none. What passes belongs to the remote
        content in force. */
    lemma Fence(s: Stamp)
      requires Valid() && s in stamps
      ensures IsCurrent(s.epoch, s.owner) <==> (changes - s.changes) % EPOCHS == 0 && OwnerOf(word) == s.owner
      ensures changes - s.changes < EPOCHS ==> (IsCurrent(s.epoch, s.owner) <==> changes == s.changes)
      ensures changes - s.changes < EPOCHS && IsCurrent(s.epoch, s.owner) ==>
                transition.None? && s.content == remoteEpoch && s.owner == remoteOwner
    {
      SameEpoch(s.changes, changes);
    }
  }
}
