/** The receive path of src/client/client_receive.cpp: datagrams through the reassembler, completed tiles into the
    present queue, and the generations they complete on the base grid. */
module ClientReceive {
  import opened Wrappers
  import opened TileGeometry
  import opened TilePacket
  import opened ReassemblyTable
  import opened TileAssembly
  import opened TileReassembly
  import opened TilePresent
  import RepairLog
  import RepairScheduler

  /** A tile completed over base tiles. */
  datatype Completion = Completion(tiles: seq<int>, generation: nat)

  /** Generation of the latest completion over a base tile, 0 if there was none. */
  ghost function LastGen(log: seq<Completion>, b: int): nat
  {
    if log == [] then 0
    else if b in log[|log| - 1].tiles then log[|log| - 1].generation
    else LastGen(log[..|log| - 1], b)
  }

  /** A completion is not older than what any of its base tiles shows, and newer than what one of them shows. */
  ghost predicate Advances(log: seq<Completion>, e: Completion)
  {
    && (forall b :: b in e.tiles ==> LastGen(log, b) <= e.generation)
    && (exists b :: b in e.tiles && LastGen(log, b) < e.generation)
  }

  ghost predicate Fenced(log: seq<Completion>)
  {
    log == [] || (Fenced(log[..|log| - 1]) && Advances(log[..|log| - 1], log[|log| - 1]))
  }

  lemma {:induction false} LastGenIsNewest(log: seq<Completion>, i: nat, b: int)
    requires Fenced(log) && i < |log| && b in log[i].tiles
    ensures log[i].generation <= LastGen(log, b)
  {
    var n := |log| - 1;
    if i < n {
      LastGenIsNewest(log[..n], i, b);
    }
  }

  /** Over a whole run the completions of a base tile come in generation order, so the last one is the newest. */
  lemma {:induction false} CompletionsInOrder(log: seq<Completion>, i: nat, j: nat, b: int)
    requires Fenced(log) && i < j < |log| && b in log[i].tiles && b in log[j].tiles
    ensures log[i].generation <= log[j].generation
  {
    var n := |log| - 1;
    if j < n {
      CompletionsInOrder(log[..n], i, j, b);
    } else {
      LastGenIsNewest(log[..n], i, b);
    }
  }

  /** Received generations are those of the latest completions. */
  ghost predicate Tracks(log: seq<Completion>, received: seq<nat>)
  {
    forall b :: 0 <= b < |received| ==> received[b] == LastGen(log, b)
  }

  lemma CompletionStep(log: seq<Completion>, e: Completion, received: seq<nat>, received': seq<nat>)
    requires Fenced(log) && Tracks(log, received) && Gate(received, e.tiles, e.generation) && |received'| == |received|
    requires forall b :: 0 <= b < |received| ==> received'[b] == if b in e.tiles then RepairLog.Max(received[b], e.generation) else received[b]
    ensures Fenced(log + [e]) && Tracks(log + [e], received')
  {
    assert (log + [e])[..|log|] == log;
    forall b | b in e.tiles ensures LastGen(log, b) <= e.generation && 0 <= b < |received| {
      var k :| 0 <= k < |e.tiles| && e.tiles[k] == b;
    }
    var k :| 0 <= k < |e.tiles| && 0 <= e.tiles[k] < |received| && received[e.tiles[k]] < e.generation;
    assert e.tiles[k] in e.tiles && LastGen(log, e.tiles[k]) < e.generation;
  }

  /** Every base tile under a queued upload has received at least the upload's generation. */
  ghost predicate UploadsReceived(us: seq<Upload>, c: Config, received: seq<nat>)
    requires ValidConfig(c)
  {
    forall k :: 0 <= k < |us| ==> UploadReceived(us[k], c, received)
  }

  ghost predicate UploadReceived(u: Upload, c: Config, received: seq<nat>)
    requires ValidConfig(c)
  {
    forall b :: b in Covered(c, u.rect) ==> 0 <= b < |received| && received[b] >= u.generation
  }

  /** A tile that opened the gate never finds a newer upload of its own rectangle in the queue. */
  lemma NeverSuperseded(us: seq<Upload>, u: Upload, c: Config, received: seq<nat>)
    requires ValidConfig(c) && UploadsReceived(us, c, received) && Gate(received, Covered(c, u.rect), u.generation)
    ensures !HasNewer(us, u)
  {
    var tiles := Covered(c, u.rect);
    var k :| 0 <= k < |tiles| && 0 <= tiles[k] < |received| && received[tiles[k]] < u.generation;
    forall i | 0 <= i < |us| && SameTarget(us[i], u) ensures us[i].generation <= u.generation {
      assert UploadReceived(us[i], c, received);
      assert tiles[k] in Covered(c, us[i].rect);
    }
  }

  lemma UploadsAfterPush(before: seq<Upload>, us: seq<Upload>, u: Upload, c: Config, received: seq<nat>, received': seq<nat>)
    requires ValidConfig(c) && UploadsReceived(before, c, received)
    requires RepairScheduler.Grown(received, received') && UploadReceived(u, c, received')
    requires us == before || PushedTo(before, us, u)
    ensures UploadsReceived(us, c, received')
  {
    forall k | 0 <= k < |us| ensures UploadReceived(us[k], c, received') {
      if us[k] != u {
        assert us[k] in before;
        var i :| 0 <= i < |before| && before[i] == us[k];
        assert UploadReceived(before[i], c, received);
      }
    }
  }

  /** The datagram, if it decodes, is a fragment of the true payload for its key. */
  ghost predicate TrueDatagram(packet: seq<Byte>, c: Config, truth: Key -> Source)
  {
    Decode(packet).Some? ==>
      var h := Decode(packet).value;
      h.headerSize <= |packet| && FragmentOf(h, packet[h.headerSize..], truth(HeaderKey(h)), PayloadTarget(c))
  }

  /** What became of a datagram. */
  datatype Outcome = Absorbed | Discarded | Presented(result: PushResult)

  class Receiver {
    const c: Config
    const reassembler: Reassembler
    const scheduler: RepairScheduler.Scheduler
    const queue: PresentQueue
    ghost var log: seq<Completion>

    ghost predicate Valid()
      reads this, reassembler, scheduler, scheduler.pending, scheduler.requests, queue
    {
      && ValidConfig(c) && reassembler.Valid() && reassembler.Fits(c) && reassembler.maxEntries > 0
      && scheduler.Valid() && scheduler.requests.total == c.totalTiles && queue.Valid()
      && Fenced(log) && Tracks(log, scheduler.requests.received)
      && UploadsReceived(queue.uploads, c, scheduler.requests.received)
    }

    constructor (config: Config, bound: nat -> nat, inflate: (seq<Byte>, nat) -> Option<seq<Byte>>)
      requires ValidConfig(config)
      ensures Valid() && c == config && log == [] && reassembler.inflate == inflate && reassembler.active == [] && queue.history == []
      ensures fresh(reassembler) && fresh(scheduler) && fresh(scheduler.pending) && fresh(scheduler.requests) && fresh(queue)
    {
      c := config;
      reassembler := new Reassembler(512, 16 * 1024 * 1024, bound, inflate);
      scheduler := new RepairScheduler.Scheduler(config.totalTiles);
      queue := new PresentQueue(1024, 32 * 1024 * 1024);
      log := [];
    }

    /** The upload of a completed tile: its visible rectangle, stamped with the local ownership epoch. */
    function UploadOf(t: Tile, ownershipEpoch: nat): Upload
    {
      Upload(TileRect(c, t.tileSize, t.tileId), ownershipEpoch, t.generation, TileWidth(t.tileSize) * BYTES_PER_PIXEL, t.bytes)
    }

    /** A completed tile whose content epoch is current goes to the present queue, or through the framebuffer when the
        queue is full; if it was presented, its generation is marked on the base tiles it covers. */
    method Complete(t: Tile, ownershipEpoch: nat, blitted: bool) returns (result: PushResult)
      requires Valid() && TileIdKnown(c, t.tileSize, t.tileId)
      requires Gate(scheduler.requests.received, CoveredByTile(c, t.tileSize, t.tileId), t.generation)
      modifies this, scheduler.pending, scheduler.requests, queue
      ensures Valid() && result != PushResult.Superseded
      ensures if result.Queued? || blitted
              then log == old(log) + [Completion(CoveredByTile(c, t.tileSize, t.tileId), t.generation)]
              else log == old(log) && scheduler.requests.received == old(scheduler.requests.received)
      ensures queue.history == if result.Queued? then old(queue.history) + [UploadOf(t, ownershipEpoch)] else old(queue.history)
      ensures Persists(old(scheduler.requests.received), old(scheduler.requests.queuedGen), scheduler.requests.received, scheduler.requests.queuedGen)
    {
      var u := UploadOf(t, ownershipEpoch);
      result := Offer(u);
      if result.Rejected? && !blitted { return; }
      MarkUpload(u, old(queue.uploads));
    }

    /** Mark the generation of an upload on the base tiles under it. */
    method MarkUpload(u: Upload, ghost before: seq<Upload>)
      requires ValidConfig(c) && scheduler.Valid() && Fenced(log) && Tracks(log, scheduler.requests.received)
      requires Gate(scheduler.requests.received, Covered(c, u.rect), u.generation)
      requires UploadsReceived(before, c, scheduler.requests.received)
      requires queue.uploads == before || PushedTo(before, queue.uploads, u)
      modifies this`log, scheduler.pending, scheduler.requests
      ensures scheduler.Valid() && Fenced(log) && Tracks(log, scheduler.requests.received)
      ensures UploadsReceived(queue.uploads, c, scheduler.requests.received)
      ensures log == old(log) + [Completion(Covered(c, u.rect), u.generation)]
      ensures Persists(old(scheduler.requests.received), old(scheduler.requests.queuedGen), scheduler.requests.received, scheduler.requests.queuedGen)
    {
      ghost var received := scheduler.requests.received;
      Mark(Covered(c, u.rect), u.generation);
      UploadsAfterPush(before, queue.uploads, u, c, received, scheduler.requests.received);
    }

    /** Queue an upload that is newer than what its base tiles have received. */
    method Offer(u: Upload) returns (result: PushResult)
      requires ValidConfig(c) && queue.Valid() && UploadsReceived(queue.uploads, c, scheduler.requests.received)
      requires Gate(scheduler.requests.received, Covered(c, u.rect), u.generation)
      modifies queue
      ensures queue.Valid() && result != PushResult.Superseded
      ensures queue.history == if result.Queued? then old(queue.history) + [u] else old(queue.history)
      ensures if result.Queued? then PushedTo(old(queue.uploads), queue.uploads, u) else queue.uploads == old(queue.uploads)
    {
      NeverSuperseded(queue.uploads, u, c, scheduler.requests.received);
      result := queue.Push(u);
    }

    /** Mark a completed generation on base tiles. */
    method Mark(tiles: seq<int>, generation: nat)
      requires scheduler.Valid() && Fenced(log) && Tracks(log, scheduler.requests.received)
      requires Gate(scheduler.requests.received, tiles, generation)
      modifies this`log, scheduler.pending, scheduler.requests
      ensures scheduler.Valid() && Fenced(log) && Tracks(log, scheduler.requests.received)
      ensures RepairScheduler.Grown(old(scheduler.requests.received), scheduler.requests.received)
      ensures forall b :: b in tiles ==> 0 <= b < |scheduler.requests.received| && scheduler.requests.received[b] >= generation
      ensures log == old(log) + [Completion(tiles, generation)]
      ensures Persists(old(scheduler.requests.received), old(scheduler.requests.queuedGen), scheduler.requests.received, scheduler.requests.queuedGen)
    {
      ghost var received := scheduler.requests.received;
      scheduler.Complete(tiles, generation);
      assert tiles[..|tiles|] == tiles;
      CompletionStep(log, Completion(tiles, generation), received, scheduler.requests.received);
      log := log + [Completion(tiles, generation)];
    }

    /** process_udp_datagram after the content-epoch check. The present queue never answers Superseded. A datagram that is
        not let through changes no partial tile; any other conserves them. With true datagrams each is recorded in the entry
        of its tile; a tile comes out exactly when its last missing fragment comes in, and is presented exactly if its
        content is current and complete. */
    method OnDatagram(packet: seq<Byte>, now: nat, timeout: nat, current: bool, ownershipEpoch: nat, blitted: bool,
                      ghost truth: Key -> Source)
      returns (outcome: Outcome)
      requires Valid()
      modifies this, reassembler, scheduler.pending, scheduler.requests, queue
      ensures Valid() && outcome != Presented(PushResult.Superseded)
      ensures Persists(old(scheduler.requests.received), old(scheduler.requests.queuedGen), scheduler.requests.received, scheduler.requests.queuedGen)
      ensures outcome != Presented(Queued) ==> queue.history == old(queue.history)
      ensures !old(LetThrough(packet)) ==> outcome == Absorbed && reassembler.active == old(reassembler.active)
      ensures old(LetThrough(packet)) ==>
                Conserved(old(reassembler.active), reassembler.active, Decode(packet).value, outcome != Absorbed, c,
                          scheduler.requests.received, scheduler.requests.queuedGen)
      ensures old(Faithful(reassembler.active, truth, PayloadTarget(c))) && TrueDatagram(packet, c, truth) ==>
                && Faithful(reassembler.active, truth, PayloadTarget(c))
                && (old(LetThrough(packet)) ==>
                      TrueOutcome(old(reassembler.active), reassembler.active, Decode(packet).value, now, timeout, current,
                                  ownershipEpoch, outcome, old(queue.history), queue.history, truth))
    {
      var tile := Reassemble(packet, now, timeout, truth);
      if tile == None { return Absorbed; }
      outcome := Present(tile.value, current, ownershipEpoch, blitted, old(reassembler.active), Decode(packet).value,
                         old(scheduler.requests.received), old(scheduler.requests.queuedGen));
    }

    /** With a true datagram: the tile comes out exactly when the packet brings its last missing fragment and the payload
        decodes, is presented exactly if its content is current and complete, and shows the payload. */
    ghost predicate TrueOutcome(before: seq<Entry>, active: seq<Entry>, h: Header, now: nat, timeout: nat, current: bool,
                                ownershipEpoch: nat, outcome: Outcome, history: seq<Upload>, history': seq<Upload>, truth: Key -> Source)
    {
      && Joins(before, active, h, now, timeout)
      && (outcome != Absorbed <==> Comes(before, h, now, timeout, truth))
      && (outcome.Presented? <==> outcome != Absorbed && current && Full(h, truth))
      && (outcome == Presented(Queued) ==> Full(h, truth) && history' == history + [TrueUpload(h, ownershipEpoch, truth)])
    }

    /** The packet is recorded in the entry of its tile, which stays unless it is whole now; no other entry changes. */
    ghost predicate Joins(before: seq<Entry>, active: seq<Entry>, h: Header, now: nat, timeout: nat)
    {
      && Records(before, active, h, now, ClampTimeout(timeout))
      && (HasKey(active, HeaderKey(h)) <==>
            !Completes(before, h, now, ClampTimeout(timeout), reassembler.maxBytes)
            && !Refused(before, h, now, ClampTimeout(timeout), reassembler.maxBytes))
    }

    ghost predicate TrueTile(before: seq<Entry>, active: seq<Entry>, h: Header, now: nat, timeout: nat, tile: Option<Tile>, truth: Key -> Source)
    {
      && Joins(before, active, h, now, timeout)
      && (tile.Some? <==> Comes(before, h, now, timeout, truth))
      && (tile.Some? ==> TileKey(tile.value) == HeaderKey(h) && Shows(tile.value, truth))
    }

    /** The datagram through the reassembler. */
    method Reassemble(packet: seq<Byte>, now: nat, timeout: nat, ghost truth: Key -> Source) returns (tile: Option<Tile>)
      requires Valid()
      modifies reassembler, scheduler.requests
      ensures Valid() && scheduler.requests.received == old(scheduler.requests.received)
      ensures Persists(old(scheduler.requests.received), old(scheduler.requests.queuedGen), scheduler.requests.received, scheduler.requests.queuedGen)
      ensures !old(LetThrough(packet)) ==> tile == None && reassembler.active == old(reassembler.active)
      ensures old(LetThrough(packet)) ==>
                Conserved(old(reassembler.active), reassembler.active, Decode(packet).value, tile.Some?, c,
                          scheduler.requests.received, scheduler.requests.queuedGen)
      ensures tile.Some? ==> Presentable(tile.value)
      ensures old(Faithful(reassembler.active, truth, PayloadTarget(c))) && TrueDatagram(packet, c, truth) ==>
                && Faithful(reassembler.active, truth, PayloadTarget(c))
                && (old(LetThrough(packet)) ==>
                      TrueTile(old(reassembler.active), reassembler.active, Decode(packet).value, now, timeout, tile, truth))
    {
      tile := Feed(packet, now, timeout, truth);
    }

    lemma OutcomeTile(before: seq<Entry>, active: seq<Entry>, h: Header, now: nat, timeout: nat, tile: Option<Tile>, truth: Key -> Source,
                      received: seq<nat>, queued: seq<nat>)
      requires ValidConfig(c) && (tile.Some? ==> TileKey(tile.value) == HeaderKey(h))
      requires reassembler.TrueOutcome(before, active, h, now, ClampTimeout(timeout), truth(HeaderKey(h)), tile, c, received, queued)
      ensures TrueTile(before, active, h, now, timeout, tile, truth)
    {
    }

    method Feed(packet: seq<Byte>, now: nat, timeout: nat, ghost truth: Key -> Source) returns (tile: Option<Tile>)
      requires ValidConfig(c) && reassembler.Valid() && reassembler.Fits(c) && reassembler.maxEntries > 0
      requires reassembler.RequestsFor(c, scheduler.requests)
      modifies reassembler, scheduler.requests
      ensures reassembler.Valid() && reassembler.Fits(c) && reassembler.RequestsFor(c, scheduler.requests)
      ensures scheduler.requests.received == old(scheduler.requests.received)
      ensures Persists(old(scheduler.requests.received), old(scheduler.requests.queuedGen), scheduler.requests.received, scheduler.requests.queuedGen)
      ensures !old(LetThrough(packet)) ==> tile == None && reassembler.active == old(reassembler.active)
      ensures old(LetThrough(packet)) ==>
                Conserved(old(reassembler.active), reassembler.active, Decode(packet).value, tile.Some?, c,
                          scheduler.requests.received, scheduler.requests.queuedGen)
      ensures tile.Some? ==> old(LetThrough(packet)) && TileKey(tile.value) == HeaderKey(Decode(packet).value)
      ensures old(Faithful(reassembler.active, truth, PayloadTarget(c))) && TrueDatagram(packet, c, truth) ==>
                && Faithful(reassembler.active, truth, PayloadTarget(c))
                && (old(LetThrough(packet)) ==>
                      TrueTile(old(reassembler.active), reassembler.active, Decode(packet).value, now, timeout, tile, truth))
    {
      ghost var before, through := reassembler.active, LetThrough(packet);
      ghost var sound := through && TrueDatagram(packet, c, truth) && Faithful(before, truth, PayloadTarget(c));
      tile := reassembler.Receive(packet, now, timeout, c, scheduler.requests, truth);
      if sound {
        OutcomeTile(before, reassembler.active, Decode(packet).value, now, timeout, tile, truth, scheduler.requests.received,
                    scheduler.requests.queuedGen);
      }
    }

    /** A tile of the grid that opens the generation gate. */
    ghost predicate Presentable(t: Tile)
      reads scheduler.requests
      requires ValidConfig(c)
    {
      && TileIdKnown(c, t.tileSize, t.tileId)
      && Gate(scheduler.requests.received, CoveredByTile(c, t.tileSize, t.tileId), t.generation)
    }

    /** A tile that came out is discarded unless its content is current and complete. */
    method Present(t: Tile, current: bool, ownershipEpoch: nat, blitted: bool, ghost before: seq<Entry>, ghost h: Header,
                   ghost received: seq<nat>, ghost queued: seq<nat>)
      returns (outcome: Outcome)
      requires Valid() && Presentable(t) && |received| == |queued|
      requires Persists(received, queued, scheduler.requests.received, scheduler.requests.queuedGen)
      requires Conserved(before, reassembler.active, h, true, c, scheduler.requests.received, scheduler.requests.queuedGen)
      modifies this, scheduler.pending, scheduler.requests, queue
      ensures Valid() && outcome != Absorbed && outcome != Presented(PushResult.Superseded)
      ensures Persists(received, queued, scheduler.requests.received, scheduler.requests.queuedGen)
      ensures Conserved(before, reassembler.active, h, true, c, scheduler.requests.received, scheduler.requests.queuedGen)
      ensures outcome.Presented? <==> current && |t.bytes| >= TileBytes(t.tileSize)
      ensures queue.history == if outcome == Presented(Queued) then old(queue.history) + [UploadOf(t, ownershipEpoch)] else old(queue.history)
    {
      if !current || |t.bytes| < TileBytes(t.tileSize) { return Discarded; }
      ghost var received', queued' := scheduler.requests.received, scheduler.requests.queuedGen;
      var result := Complete(t, ownershipEpoch, blitted);
      PersistsOn(received, queued, received', queued', scheduler.requests.received, scheduler.requests.queuedGen);
      ConservedPersists(before, reassembler.active, h, true, c, received', queued', scheduler.requests.received, scheduler.requests.queuedGen);
      return Presented(result);
    }

    /** The bytes of a tile are what its true payload decodes to. */
    ghost predicate Shows(t: Tile, truth: Key -> Source)
    {
      reassembler.Contents(t.tileSize, truth(TileKey(t)).compressed, truth(TileKey(t)).payload) == Some(t.bytes)
    }

    /** A datagram reaches reassembly: it is admitted, and the frame can be configured. */
    ghost predicate LetThrough(packet: seq<Byte>)
      reads reassembler, scheduler.requests
      requires ValidConfig(c)
    {
      reassembler.Admitted(packet, c, scheduler.requests.received) && reassembler.Configurable(c)
    }

    /** The packet brings the last missing fragment of a tile whose payload decodes. */
    ghost predicate Comes(before: seq<Entry>, h: Header, now: nat, timeout: nat, truth: Key -> Source)
    {
      Completes(before, h, now, ClampTimeout(timeout), reassembler.maxBytes) && Decodes(h, truth)
    }

    ghost predicate Decodes(h: Header, truth: Key -> Source)
    {
      reassembler.Contents(h.tileSize, truth(HeaderKey(h)).compressed, truth(HeaderKey(h)).payload).Some?
    }

    /** The payload decodes to all bytes of its tile. */
    ghost predicate Full(h: Header, truth: Key -> Source)
    {
      var contents := reassembler.Contents(h.tileSize, truth(HeaderKey(h)).compressed, truth(HeaderKey(h)).payload);
      contents.Some? && |contents.value| >= TileBytes(h.tileSize)
    }

    /** The upload of a tile with the pixels its true payload decodes to. */
    ghost function TrueUpload(h: Header, ownershipEpoch: nat, truth: Key -> Source): Upload
      requires Full(h, truth)
    {
      var source := truth(HeaderKey(h));
      Upload(TileRect(c, h.tileSize, h.tileId), ownershipEpoch, h.generation, TileWidth(h.tileSize) * BYTES_PER_PIXEL,
             reassembler.Contents(h.tileSize, source.compressed, source.payload).value)
    }
  }
}
