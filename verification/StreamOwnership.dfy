/** The packed ownership word of src/client/stream_ownership.c: a 63-bit local epoch and an owner bit in one 64-bit word. */
module StreamOwnership {
  datatype Owner = Tiles | Video

  const EPOCHS: nat := 0x8000_0000_0000_0000     // 2^63
  const INITIAL_WORD: nat := 2

  function Bit(owner: Owner): nat { if owner == Video then 1 else 0 }

  /** wd_client_stream_ownership_pack, with the shift dropping the top bit of the epoch. */
  function Pack(epoch: nat, owner: Owner): (w: nat)
  {
    2 * (epoch % EPOCHS) + Bit(owner)
  }

  function Epoch(w: nat): nat { w / 2 }

  function OwnerOf(w: nat): Owner { if w % 2 == 1 then Video else Tiles }

  lemma PackRoundTrip(epoch: nat, owner: Owner)
    ensures Epoch(Pack(epoch, owner)) == epoch % EPOCHS && OwnerOf(Pack(epoch, owner)) == owner
    ensures Pack(epoch, owner) < 2 * EPOCHS
  {
  }

  /** The word after `changes` ownership changes. */
  ghost predicate Counts(w: nat, changes: nat)
  {
    Epoch(w) == (1 + changes) % EPOCHS
  }

  lemma CountsNext(w: nat, changes: nat, owner: Owner)
    requires Counts(w, changes)
    ensures Counts(Pack(Epoch(w) + 1, owner), changes + 1) && OwnerOf(Pack(Epoch(w) + 1, owner)) == owner
    ensures (Epoch(w) + 1) % EPOCHS == Epoch(Pack(Epoch(w) + 1, owner))
  {
    PackRoundTrip(Epoch(w) + 1, owner);
    assert ((1 + changes) % EPOCHS + 1) % EPOCHS == (2 + changes) % EPOCHS;
  }

  /** Epochs come round again after exactly 2^63 changes and not before. */
  lemma SameEpoch(a: nat, b: nat)
    requires a <= b
    ensures (1 + a) % EPOCHS == (1 + b) % EPOCHS <==> (b - a) % EPOCHS == 0
    ensures b - a < EPOCHS ==> ((1 + a) % EPOCHS == (1 + b) % EPOCHS <==> a == b)
  {
  }
}
