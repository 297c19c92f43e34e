/** Packet checks of src/client/tile_reassembly.cpp and what one fragment does to the entry of its tile: fragments
    of one payload, in any order and duplicated, assemble to that payload. */
module TileAssembly {
  import opened Wrappers
  import opened TileGeometry
  import opened TilePacket
  import opened ReassemblyTable

  const DEFAULT_PAYLOAD_TARGET: nat := 1400

  function PayloadTarget(c: Config): nat { if c.udpPayloadTarget == 0 then DEFAULT_PAYLOAD_TARGET else c.udpPayloadTarget }

  function TileBytes(size: nat): nat { TileWidth(size) * TileHeight(size) * BYTES_PER_PIXEL }

  // ----- packet validation

  datatype Validation = Valid | Identity | Geometry | Fragmentation

  /** packet_header_validation_result; bound is the compressor's worst-case size. */
  function Validate(h: Header, packetSize: nat, target: nat, c: Config, bound: nat -> nat): Validation
  {
    if h.sessionId != c.sessionId || h.token != c.token then Identity
    else if !TileIdKnown(c, h.tileSize, h.tileId) then Geometry
    else if h.pktCount == 0 || h.pktId >= h.pktCount || h.payloadSize == 0 || h.tilePayloadSize == 0 then Fragmentation
    else if IsCompressed(h) && h.tilePayloadSize > bound(TileBytes(h.tileSize)) then Fragmentation
    else if !IsCompressed(h) && h.tilePayloadSize != TileBytes(h.tileSize) then Fragmentation
    else if !LayoutValid(h, packetSize, target) then Fragmentation
    else Valid
  }

  /** The generation gate: over the covered base tiles nothing newer has been received, and something older has. */
  ghost predicate Gate(received: seq<nat>, tiles: seq<int>, generation: nat)
  {
    && (forall k :: 0 <= k < |tiles| ==> 0 <= tiles[k] < |received| && received[tiles[k]] <= generation)
    && (exists k :: 0 <= k < |tiles| && 0 <= tiles[k] < |received| && received[tiles[k]] < generation)
  }

  method CheckGate(received: seq<nat>, tiles: seq<int>, generation: nat) returns (open: bool)
    requires forall k :: 0 <= k < |tiles| ==> 0 <= tiles[k] < |received|
    ensures open <==> Gate(received, tiles, generation)
  {
    var newer, older := false, false;
    for n := 0 to |tiles|
      invariant newer <==> exists k :: 0 <= k < n && received[tiles[k]] > generation
      invariant older <==> exists k :: 0 <= k < n && received[tiles[k]] < generation
    {
      newer := newer || received[tiles[n]] > generation;
      older := older || received[tiles[n]] < generation;
    }
    open := !newer && older;
  }

  // ----- what the fragments of one tile come from

  datatype Key = Key(tileSize: nat, tileId: nat, epoch: nat, generation: nat)

  /** The payload a sender cut into fragments, with the metadata every fragment repeats. */
  datatype Source = Source(payload: seq<Byte>, compressed: bool, inputSequence: nat)

  function KeyOf(e: Entry): Key { Key(e.tileSize, e.tileId, e.epoch, e.generation) }

  function HeaderKey(h: Header): Key { Key(h.tileSize, h.tileId, h.epoch, h.generation) }

  /** A packet is a fragment of the source for its key. */
  ghost predicate FragmentOf(h: Header, body: seq<Byte>, source: Source, target: nat)
  {
    && target > 0 && h.tilePayloadSize == |source.payload| && IsCompressed(h) == source.compressed
    && (h.pktId == 0 ==> h.inputSequence == source.inputSequence)
    && h.pktId < PacketCount(|source.payload|, target) && body == Fragment(source.payload, h.pktId, target)
  }

  /** An entry holds fragments of one source. */
  ghost predicate HoldsFragmentsOf(e: Entry, source: Source, target: nat)
  {
    && target > 0 && |e.buffer| == |source.payload| && e.compressed == source.compressed
    && e.packetCount == PacketCount(|source.payload|, target) && e.packetCount <= |e.receipts|
    && (e.metadataSeen ==> e.inputSequence == source.inputSequence)
    && (forall j :: 0 <= j < e.packetCount && e.receipts[j] ==> Fragment(e.buffer, j, target) == Fragment(source.payload, j, target))
  }

  ghost predicate Faithful(active: seq<Entry>, truth: Key -> Source, target: nat)
  {
    forall i :: 0 <= i < |active| ==> HoldsFragmentsOf(active[i], truth(KeyOf(active[i])), target)
  }

  /** Every fragment is in: the buffer is the payload. */
  lemma AllReceivedIsPayload(e: Entry, source: Source, target: nat)
    requires HoldsFragmentsOf(e, source, target) && CountSet(e.receipts[..e.packetCount]) == e.packetCount
    ensures e.buffer == source.payload
  {
    CountAll(e.receipts[..e.packetCount]);
    forall i: nat | i < PacketCount(|e.buffer|, target)
      ensures Fragment(e.buffer, i, target) == Fragment(source.payload, i, target)
    {
      assert e.receipts[..e.packetCount][i];
    }
    FragmentsDetermine(e.buffer, source.payload, target);
  }

  // ----- storing one fragment in an entry

  function Store(e: Entry, h: Header, body: seq<Byte>, target: nat): Entry
    requires target > 0 && |e.buffer| == h.tilePayloadSize && h.pktId < PacketCount(|e.buffer|, target)
    requires |body| == FragmentLength(h.pktId, |e.buffer|, target) && h.pktId < |e.receipts|
  {
    FragmentInside(h.pktId, |e.buffer|, target);
    var start := FragmentStart(h.pktId, target);
    e.(buffer := e.buffer[..start] + body + e.buffer[start + |body|..],
       receipts := e.receipts[h.pktId := true],
       receivedCount := e.receivedCount + 1)
  }

  /** Storing a fragment of the source keeps holding fragments of the source, and counts the new receipt. */
  lemma StoreKeeps(e: Entry, h: Header, body: seq<Byte>, source: Source, target: nat)
    requires EntryOk(e) && HoldsFragmentsOf(e, source, target) && FragmentOf(h, body, source, target) && h.pktId < |e.receipts|
    requires |body| == FragmentLength(h.pktId, |e.buffer|, target)
    ensures HoldsFragmentsOf(Store(e, h, body, target), source, target)
  {
    var stored := Store(e, h, body, target);
    CopyFragment(e.buffer, h.pktId, body, target, h.pktId);
    forall j | 0 <= j < stored.packetCount && stored.receipts[j]
      ensures Fragment(stored.buffer, j, target) == Fragment(source.payload, j, target)
    {
      CopyFragment(e.buffer, h.pktId, body, target, j);
    }
  }

  lemma StoreCounts(e: Entry, h: Header, body: seq<Byte>, target: nat)
    requires EntryOk(e) && target > 0 && |e.buffer| == h.tilePayloadSize && e.packetCount == PacketCount(|e.buffer|, target)
    requires h.pktId < e.packetCount && |body| == FragmentLength(h.pktId, |e.buffer|, target) && !e.receipts[h.pktId]
    ensures var stored := Store(e, h, body, target);
            && |stored.buffer| == |e.buffer|
            && stored.receivedCount == CountSet(stored.receipts[..stored.packetCount]) <= stored.packetCount
  {
    CopyFragment(e.buffer, h.pktId, body, target, h.pktId);
    CountMark(e.receipts[..e.packetCount], h.pktId);
    assert e.receipts[h.pktId := true][..e.packetCount] == e.receipts[..e.packetCount][h.pktId := true];
  }

  datatype Absorbed = Conflict | Keep(entry: Entry) | Whole(entry: Entry)

  /** Lengths agree, so that the bytes of a fragment have a place in the entry. */
  ghost predicate Placed(e: Entry, h: Header, body: seq<Byte>, target: nat)
  {
    && LayoutValid(h, h.headerSize + |body|, target) && h.payloadSize == |body| && |e.receipts| == RECEIPT_BITS
  }

  predicate Mismatch(e: Entry, h: Header)
  {
    e.packetCount != h.pktCount || |e.buffer| != h.tilePayloadSize || e.compressed != IsCompressed(h)
  }

  function WithMetadata(e: Entry, h: Header): Entry
  {
    if h.pktId == 0 then e.(metadataSeen := true, inputSequence := h.inputSequence) else e
  }

  /** What one packet does to the entry of its tile. */
  function Absorb(e: Entry, h: Header, body: seq<Byte>, target: nat): Absorbed
    requires Placed(e, h, body, target)
  {
    if h.pktId == 0 && e.metadataSeen && e.inputSequence != h.inputSequence then Conflict
    else
      var m := WithMetadata(e, h);
      if Mismatch(m, h) then Keep(m)
      else if !m.receipts[h.pktId] then
        var stored := Store(m, h, body, target);
        if stored.receivedCount == stored.packetCount then Whole(stored) else Keep(stored)
      else if Fragment(m.buffer, h.pktId, target) != body then Conflict
      else Keep(m)
  }

  /** The packet contradicts what the entry holds: another input sequence, or other bytes of a fragment that is in. */
  ghost predicate Contradicts(e: Entry, h: Header, body: seq<Byte>, target: nat)
    requires Placed(e, h, body, target)
  {
    || (h.pktId == 0 && e.metadataSeen && e.inputSequence != h.inputSequence)
    || (!Mismatch(e, h) && e.receipts[h.pktId] && Fragment(e.buffer, h.pktId, target) != body)
  }

  /** Whatever the packet holds, the entry keeps its key and stays well formed, or is whole with every receipt set; it is given
      up exactly if the packet contradicts it. A fragment that is kept is recorded and no other receipt changes. */
  lemma AbsorbKeepsEntry(e: Entry, h: Header, body: seq<Byte>, target: nat)
    requires EntryOk(e) && Placed(e, h, body, target)
    ensures Absorb(e, h, body, target).Conflict? <==> Contradicts(e, h, body, target)
    ensures match Absorb(e, h, body, target)
            case Conflict => true
            case Keep(k) => && EntryOk(k) && KeyOf(k) == KeyOf(e) && |k.buffer| == |e.buffer| && k.packetCount == e.packetCount
                            && k.receipts == if Mismatch(e, h) then e.receipts else e.receipts[h.pktId := true]
            case Whole(w) => && KeyOf(w) == KeyOf(e) && |w.buffer| == |e.buffer| && w.metadataSeen
                             && CountSet(w.receipts[..w.packetCount]) == w.packetCount <= |w.receipts|
  {
    var m := WithMetadata(e, h);
    if !Absorb(e, h, body, target).Conflict? && !Mismatch(m, h) && !m.receipts[h.pktId] {
      StoreCounts(m, h, body, target);
      var stored := Store(m, h, body, target);
      if stored.receivedCount == stored.packetCount {
        CountAll(stored.receipts[..stored.packetCount]);
        assert stored.receipts[..stored.packetCount][0];
      }
    }
  }

  /** On fragments of one source there is no conflict; the entry records the fragment, becomes whole exactly when the packet
      brings its last missing fragment, and then its buffer is the payload. */
  lemma AbsorbFragment(e: Entry, h: Header, body: seq<Byte>, source: Source, target: nat)
    requires EntryOk(e) && Placed(e, h, body, target)
    requires HoldsFragmentsOf(e, source, target) && FragmentOf(h, body, source, target)
    ensures !Absorb(e, h, body, target).Conflict?
    ensures HoldsFragmentsOf(Absorb(e, h, body, target).entry, source, target)
    ensures Absorb(e, h, body, target).entry.receipts == e.receipts[h.pktId := true] && e.packetCount == h.pktCount
    ensures Absorb(e, h, body, target).Whole? <==> forall j :: 0 <= j < e.packetCount ==> (e.receipts[j] <==> j != h.pktId)
    ensures Absorb(e, h, body, target).Whole? ==>
              && Absorb(e, h, body, target).entry.buffer == source.payload
              && Absorb(e, h, body, target).entry.inputSequence == source.inputSequence
  {
    var m := WithMetadata(e, h);
    assert HoldsFragmentsOf(m, source, target);
    CountAll(e.receipts[..e.packetCount]);
    if !m.receipts[h.pktId] {
      StoreKeeps(m, h, body, source, target);
      StoreCounts(m, h, body, target);
      WholeWhenLast(e, h, body, target);
      if Absorb(e, h, body, target).Whole? {
        AbsorbKeepsEntry(e, h, body, target);
        AllReceivedIsPayload(Store(m, h, body, target), source, target);
      }
    } else {
      assert e.receipts[h.pktId];
    }
  }

  lemma WholeWhenLast(e: Entry, h: Header, body: seq<Byte>, target: nat)
    requires EntryOk(e) && Placed(e, h, body, target) && !Mismatch(WithMetadata(e, h), h) && !e.receipts[h.pktId]
    requires h.pktId == 0 && e.metadataSeen ==> e.inputSequence == h.inputSequence
    ensures Absorb(e, h, body, target).Whole? <==> forall j :: 0 <= j < e.packetCount ==> (e.receipts[j] <==> j != h.pktId)
  {
    var m := WithMetadata(e, h);
    StoreCounts(m, h, body, target);
    var bits := e.receipts[..e.packetCount][h.pktId := true];
    assert Store(m, h, body, target).receipts[..e.packetCount] == bits;
    CountAll(bits);
    assert forall j :: 0 <= j < e.packetCount ==> bits[j] == (e.receipts[j] || j == h.pktId);
  }
}
