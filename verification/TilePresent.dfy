/** The queue of completed tiles waiting for the renderer (src/client/tile_present_queue.cpp) and the image they
    make when applied (src/client/tile_recovery_image.cpp). */
module TilePresent {
  import opened Wrappers
  import opened Arithmetic
  import opened TileGeometry

  /** Completed pixels of a rectangle, stamped with the local ownership epoch. */
  datatype Upload = Upload(rect: Rect, epoch: nat, generation: nat, pitch: nat, pixels: seq<Byte>)

  predicate ValidUpload(u: Upload)
  {
    0 <= u.rect.x && 0 <= u.rect.y && 0 < u.rect.w && 0 < u.rect.h && u.pitch >= u.rect.w * 4 && |u.pixels| >= Product(u.pitch, u.rect.h)
  }

  datatype PushResult = Queued | Superseded | Rejected

  function TotalBytes(us: seq<Upload>): nat
  {
    if us == [] then 0 else TotalBytes(us[..|us| - 1]) + |us[|us| - 1].pixels|
  }

  predicate SameTarget(a: Upload, b: Upload) { a.rect == b.rect && a.epoch == b.epoch }

  function RemoveAt<T>(s: seq<T>, i: nat): seq<T>
    requires i < |s|
  {
    s[..i] + s[i + 1..]
  }

  lemma {:induction false} TotalRemoved(us: seq<Upload>, i: nat)
    requires i < |us|
    ensures TotalBytes(RemoveAt(us, i)) == TotalBytes(us) - |us[i].pixels|
  {
    var n := |us| - 1;
    if i == n {
      assert RemoveAt(us, i) == us[..n];
    } else {
      TotalRemoved(us[..n], i);
      assert RemoveAt(us, i)[..n - 1] == RemoveAt(us[..n], i);
      assert RemoveAt(us, i)[n - 1] == us[n];
    }
  }

  // ----- what is shown

  /** A valid upload of the epoch covers the pixel. */
  predicate Covers(u: Upload, epoch: nat, x: int, y: int) { u.epoch == epoch && ValidUpload(u) && u.rect.Has(x, y) }

  /** The upload that decides a pixel: the last valid one of the epoch that covers it. */
  ghost function Shown(us: seq<Upload>, epoch: nat, x: int, y: int): (r: Option<Upload>)
    ensures r.Some? ==> Covers(r.value, epoch, x, y)
  {
    if us == [] then None
    else if Covers(us[|us| - 1], epoch, x, y) then Some(us[|us| - 1])
    else Shown(us[..|us| - 1], epoch, x, y)
  }

  lemma ShownAppend(us: seq<Upload>, u: Upload, epoch: nat, x: int, y: int)
    ensures Shown(us + [u], epoch, x, y) == if Covers(u, epoch, x, y) then Some(u) else Shown(us, epoch, x, y)
  {
    assert (us + [u])[..|us|] == us;
  }

  /** Removing an upload that does not decide a pixel changes nothing at that pixel. */
  lemma {:induction false} ShownRemoved(us: seq<Upload>, i: nat, epoch: nat, x: int, y: int)
    requires i < |us| && !Covers(us[i], epoch, x, y)
    ensures Shown(RemoveAt(us, i), epoch, x, y) == Shown(us, epoch, x, y)
  {
    var n := |us| - 1;
    if i == n {
      assert RemoveAt(us, i) == us[..n];
    } else {
      ShownRemoved(us[..n], i, epoch, x, y);
      assert RemoveAt(us, i)[..n - 1] == RemoveAt(us[..n], i);
      assert RemoveAt(us, i)[n - 1] == us[n];
    }
  }

  ghost predicate SameShown(a: seq<Upload>, b: seq<Upload>)
  {
    forall epoch, x, y :: Shown(a, epoch, x, y) == Shown(b, epoch, x, y)
  }

  /** Replacing an upload by a newer one of the same rectangle and epoch at the tail shows the same as appending it. */
  lemma ReplaceShowsAppend(us: seq<Upload>, history: seq<Upload>, i: nat, u: Upload)
    requires i < |us| && SameTarget(us[i], u) && ValidUpload(u) && SameShown(us, history)
    ensures SameShown(RemoveAt(us, i) + [u], history + [u])
  {
    forall epoch: nat, x, y ensures Shown(RemoveAt(us, i) + [u], epoch, x, y) == Shown(history + [u], epoch, x, y) {
      ShownAppend(RemoveAt(us, i), u, epoch, x, y);
      ShownAppend(history, u, epoch, x, y);
      if !Covers(u, epoch, x, y) { ShownRemoved(us, i, epoch, x, y); }
    }
  }

  lemma AppendShows(us: seq<Upload>, history: seq<Upload>, u: Upload)
    requires SameShown(us, history)
    ensures SameShown(us + [u], history + [u])
  {
    forall epoch: nat, x, y ensures Shown(us + [u], epoch, x, y) == Shown(history + [u], epoch, x, y) {
      ShownAppend(us, u, epoch, x, y);
      ShownAppend(history, u, epoch, x, y);
    }
  }

  lemma {:induction false} ShownConcat(a: seq<Upload>, b: seq<Upload>, epoch: nat, x: int, y: int)
    ensures Shown(a + b, epoch, x, y) == if Shown(b, epoch, x, y).Some? then Shown(b, epoch, x, y) else Shown(a, epoch, x, y)
  {
    if b == [] {
      assert a + b == a;
    } else {
      var n := |b| - 1;
      assert (a + b)[..|a + b| - 1] == a + b[..n];
      ShownConcat(a, b[..n], epoch, x, y);
    }
  }

  /** Uploads that show the same, followed by uploads that show the same, show the same. */
  lemma ConcatShows(a: seq<Upload>, a': seq<Upload>, b: seq<Upload>, b': seq<Upload>)
    requires SameShown(a, a') && SameShown(b, b')
    ensures SameShown(a + b, a' + b')
  {
    forall epoch: nat, x, y ensures Shown(a + b, epoch, x, y) == Shown(a' + b', epoch, x, y) {
      ShownConcat(a, b, epoch, x, y);
      ShownConcat(a', b', epoch, x, y);
    }
  }

  // ----- the queue

  ghost predicate HasNewer(us: seq<Upload>, u: Upload)
  {
    exists i :: 0 <= i < |us| && SameTarget(us[i], u) && u.generation < us[i].generation
  }

  /** u is at the tail, uploads of its target are gone, and all others are kept in order. */
  ghost predicate PushedTo(before: seq<Upload>, us: seq<Upload>, u: Upload)
  {
    || (us == before + [u] && forall i :: 0 <= i < |before| ==> !SameTarget(before[i], u))
    || (exists at :: 0 <= at < |before| && SameTarget(before[at], u) && us == RemoveAt(before, at) + [u])
  }

  /** Bytes that a push of u frees. */
  ghost function ReplacedBytes(us: seq<Upload>, u: Upload): nat
  {
    if us == [] then 0
    else if SameTarget(us[|us| - 1], u) then |us[|us| - 1].pixels|
    else ReplacedBytes(us[..|us| - 1], u)
  }

  ghost predicate HasTarget(us: seq<Upload>, u: Upload)
  {
    exists i :: 0 <= i < |us| && SameTarget(us[i], u)
  }

  /** A replacement must fit the bytes left by what it replaces; a new upload needs a free item as well. */
  ghost predicate NoRoom(us: seq<Upload>, u: Upload, maxItems: nat, maxBytes: nat)
  {
    || TotalBytes(us) - ReplacedBytes(us, u) + |u.pixels| > maxBytes
    || (!HasTarget(us, u) && |us| >= maxItems)
  }

  ghost predicate DistinctTargets(us: seq<Upload>)
  {
    forall i, j :: 0 <= i < j < |us| ==> !SameTarget(us[i], us[j])
  }

  ghost predicate AllValid(us: seq<Upload>)
  {
    forall i :: 0 <= i < |us| ==> ValidUpload(us[i])
  }

  lemma Replaced(us: seq<Upload>, at: nat, u: Upload)
    requires at < |us| && DistinctTargets(us) && SameTarget(us[at], u) && AllValid(us) && ValidUpload(u)
    ensures DistinctTargets(RemoveAt(us, at) + [u]) && AllValid(RemoveAt(us, at) + [u])
    ensures TotalBytes(RemoveAt(us, at) + [u]) == TotalBytes(us) - |us[at].pixels| + |u.pixels|
  {
    var left := RemoveAt(us, at);
    TotalRemoved(us, at);
    assert (left + [u])[..|left|] == left;
    forall i | 0 <= i < |left| ensures !SameTarget(left[i], u) {
      var k := if i < at then i else i + 1;
      assert left[i] == us[k];
    }
  }

  lemma {:induction false} TargetIsUnique(us: seq<Upload>, at: nat, u: Upload)
    requires at < |us| && DistinctTargets(us) && SameTarget(us[at], u)
    ensures ReplacedBytes(us, u) == |us[at].pixels|
    ensures HasNewer(us, u) <==> u.generation < us[at].generation
  {
    assert forall i :: 0 <= i < |us| && SameTarget(us[i], u) ==> i == at by {
      forall i | 0 <= i < |us| && SameTarget(us[i], u) ensures i == at {
        assert SameTarget(us[i], us[at]) && SameTarget(us[at], us[i]);
      }
    }
    var n := |us| - 1;
    if at < n { TargetIsUnique(us[..n], at, u); }
  }

  lemma {:induction false} NoTarget(us: seq<Upload>, u: Upload)
    requires forall i :: 0 <= i < |us| ==> !SameTarget(us[i], u)
    ensures ReplacedBytes(us, u) == 0 && !HasNewer(us, u)
  {
    if us != [] { NoTarget(us[..|us| - 1], u); }
  }

  class PresentQueue {
    const maxItems: nat
    const maxBytes: nat
    var bytes: nat
    var uploads: seq<Upload>
    ghost var history: seq<Upload>   // uploads answered Queued since the last drain or clear, in push order

    ghost predicate Valid()
      reads this
    {
      && bytes == TotalBytes(uploads) <= maxBytes && |uploads| <= maxItems
      && AllValid(uploads) && AllValid(history) && DistinctTargets(uploads) && (forall u :: u in uploads ==> u in history) && SameShown(uploads, history)
    }

    constructor (items: nat, size: nat)
      ensures Valid() && uploads == [] && history == []
      ensures maxItems == (if items == 0 then 1 else items) && maxBytes == (if size == 0 then 1 else size)
    {
      maxItems := if items == 0 then 1 else items;
      maxBytes := if size == 0 then 1 else size;
      bytes, uploads, history := 0, [], [];
    }

    /** Search from the tail for a queued upload of the same rectangle and epoch. */
    method FindTarget(u: Upload) returns (at: Option<nat>)
      ensures at.Some? ==> at.value < |uploads| && SameTarget(uploads[at.value], u)
      ensures at == None ==> forall i :: 0 <= i < |uploads| ==> !SameTarget(uploads[i], u)
    {
      var i := |uploads|;
      while i > 0
        invariant 0 <= i <= |uploads|
        invariant forall k :: i <= k < |uploads| ==> !SameTarget(uploads[k], u)
      {
        i := i - 1;
        if SameTarget(uploads[i], u) { return Some(i); }
      }
      return None;
    }

    /** Move a replacement to the tail, so that its position still reflects completion order. */
    method ReplaceAt(at: nat, u: Upload)
      requires Valid() && at < |uploads| && SameTarget(uploads[at], u) && ValidUpload(u)
      requires bytes - |uploads[at].pixels| + |u.pixels| <= maxBytes
      modifies this`bytes, this`uploads, this`history
      ensures Valid() && history == old(history) + [u] && uploads == RemoveAt(old(uploads), at) + [u]
    {
      Replaced(uploads, at, u);
      ReplaceShowsAppend(uploads, history, at, u);
      bytes := bytes - |uploads[at].pixels| + |u.pixels|;
      uploads := RemoveAt(uploads, at) + [u];
      history := history + [u];
    }

    method Append(u: Upload)
      requires Valid() && ValidUpload(u) && |uploads| < maxItems && bytes + |u.pixels| <= maxBytes
      requires forall i :: 0 <= i < |uploads| ==> !SameTarget(uploads[i], u)
      modifies this`bytes, this`uploads, this`history
      ensures Valid() && history == old(history) + [u] && uploads == old(uploads) + [u]
    {
      AppendShows(uploads, history, u);
      assert (uploads + [u])[..|uploads|] == uploads;
      bytes := bytes + |u.pixels|;
      uploads := uploads + [u];
      history := history + [u];
    }

    /** ClientTilePresentQueue::push. Superseded means that a newer upload of the same rectangle and epoch is queued. */
    method Push(u: Upload) returns (result: PushResult)
      requires Valid()
      modifies this`bytes, this`uploads, this`history
      ensures Valid()
      ensures result.Queued? ==> history == old(history) + [u] && PushedTo(old(uploads), uploads, u)
      ensures !result.Queued? ==> history == old(history) && uploads == old(uploads)
      ensures result.Superseded? <==> ValidUpload(u) && |u.pixels| <= maxBytes && HasNewer(old(uploads), u)
      ensures result.Rejected? <==>
                !ValidUpload(u) || |u.pixels| > maxBytes || (!HasNewer(old(uploads), u) && NoRoom(old(uploads), u, maxItems, maxBytes))
    {
      if !ValidUpload(u) || |u.pixels| > maxBytes { return Rejected; }
      var at := FindTarget(u);
      if at.Some? {
        TargetIsUnique(uploads, at.value, u);
        if u.generation < uploads[at.value].generation { return Superseded; }
        if bytes - |uploads[at.value].pixels| > maxBytes - |u.pixels| { return Rejected; }
        ReplaceAt(at.value, u);
        return Queued;
      }
      NoTarget(uploads, u);
      if |uploads| >= maxItems || bytes > maxBytes - |u.pixels| { return Rejected; }
      Append(u);
      return Queued;
    }

    /** Hand the queue to the renderer: what it shows is what all queued uploads would have shown in push order. */
    method Drain() returns (out: seq<Upload>)
      requires Valid()
      modifies this`bytes, this`uploads, this`history
      ensures Valid() && uploads == [] && history == [] && bytes == 0
      ensures out == old(uploads) && SameShown(out, old(history)) && AllValid(out) && old(AllValid(history))
      ensures forall u :: u in out ==> u in old(history)
    {
      out := [];
      while uploads != []
        invariant out + uploads == old(uploads)
        decreases |uploads|
      {
        out := out + [uploads[0]];
        uploads := uploads[1..];
      }
      bytes, history := 0, [];
    }

    method Clear()
      requires Valid()
      modifies this`bytes, this`uploads, this`history
      ensures Valid() && uploads == [] && history == [] && bytes == 0
    {
      bytes, uploads, history := 0, [], [];
    }
  }
}
