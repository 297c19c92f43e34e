/** The image made by tile uploads: the row copy of src/client/tile_recovery_image.cpp, the renderer's loop over
    drained uploads (src/client/sdl_direct_tile_upload.cpp), and that draining the present queue refines plain
    application in push order. */
module TileImage {
  import opened Arithmetic
  import opened LittleEndian
  import opened TilePresent

  predicate FitsFrame(u: Upload, width: nat, height: nat)
  {
    ValidUpload(u) && u.rect.x + u.rect.w <= width && u.rect.y + u.rect.h <= height
  }

  function PixelStart(u: Upload, row: int, col: int): int { Product(row, u.pitch) + col * 4 }

  lemma PixelInside(u: Upload, row: int, col: int)
    requires ValidUpload(u) && 0 <= row < u.rect.h && 0 <= col < u.rect.w
    ensures 0 <= PixelStart(u, row, col) && PixelStart(u, row, col) + 4 <= |u.pixels|
  {
    MulBound(0, 0, row, u.pitch);
    ProductMonotone(row + 1, u.rect.h, u.pitch);
    ProductAdd(row, 1, u.pitch);
    assert Product(u.rect.h, u.pitch) == Product(u.pitch, u.rect.h);
  }

  /** The pixel of an upload at a row and column of its rectangle. */
  function PixelAt(u: Upload, row: int, col: int): nat
    requires ValidUpload(u) && 0 <= row < u.rect.h && 0 <= col < u.rect.w
  {
    PixelInside(u, row, col);
    FromLE(u.pixels[PixelStart(u, row, col)..PixelStart(u, row, col) + 4])
  }

  /** One pixel of the frame after an upload was applied. */
  function After(u: Upload, px: int, py: int, before: nat): nat
    requires ValidUpload(u)
  {
    if u.rect.Has(px, py) then PixelAt(u, py - u.rect.y, px - u.rect.x) else before
  }

  function Painted(fb: seq<nat>, width: nat, u: Upload): (r: seq<nat>)
    requires width > 0 && ValidUpload(u)
    ensures |r| == |fb|
  {
    seq(|fb|, i requires 0 <= i < |fb| => After(u, Remainder(i, width), Quotient(i, width), fb[i]))
  }

  /** Pixels of rows above `row`, and of columns left of `col` in `row`, have been copied. */
  ghost predicate Copied(now: seq<nat>, before: seq<nat>, width: nat, u: Upload, row: int, col: int)
    requires width > 0 && ValidUpload(u)
  {
    && |now| == |before|
    && forall i :: 0 <= i < |now| ==>
         now[i] == if Done(u, row, col, Remainder(i, width), Quotient(i, width))
                   then After(u, Remainder(i, width), Quotient(i, width), before[i]) else before[i]
  }

  predicate Done(u: Upload, row: int, col: int, px: int, py: int)
  {
    py - u.rect.y < row || (py - u.rect.y == row && px - u.rect.x < col)
  }

  lemma CopyStep(now: seq<nat>, before: seq<nat>, width: nat, height: nat, u: Upload, row: int, col: int)
    requires width > 0 && FitsFrame(u, width, height) && Copied(now, before, width, u, row, col)
    requires 0 <= row < u.rect.h && 0 <= col < u.rect.w && Product(width, height) <= |now|
    ensures var at := Product(u.rect.y + row, width) + u.rect.x + col;
            && 0 <= at < |now|
            && Copied(now[at := PixelAt(u, row, col)], before, width, u, row, col + 1)
  {
    var y, x := u.rect.y + row, u.rect.x + col;
    var at := Product(y, width) + x;
    MulBound(0, 0, y, width);
    ProductMonotone(y + 1, height, width);
    ProductAdd(y, 1, width);
    assert Product(height, width) == Product(width, height);
    DivUnique(at, width, y, x);
    forall i | 0 <= i < |now| && i != at
      ensures Done(u, row, col + 1, Remainder(i, width), Quotient(i, width)) == Done(u, row, col, Remainder(i, width), Quotient(i, width))
    {
      Divide(i, width);
    }
  }

  lemma NextRow(now: seq<nat>, before: seq<nat>, width: nat, u: Upload, row: int)
    requires width > 0 && ValidUpload(u) && Copied(now, before, width, u, row, u.rect.w)
    ensures Copied(now, before, width, u, row + 1, 0)
  {
    forall i | 0 <= i < |now|
      ensures now[i] == if Done(u, row + 1, 0, Remainder(i, width), Quotient(i, width))
                        then After(u, Remainder(i, width), Quotient(i, width), before[i]) else before[i]
    {
      var px, py := Remainder(i, width), Quotient(i, width);
      assert Done(u, row, u.rect.w, px, py) ==> Done(u, row + 1, 0, px, py);
      assert Done(u, row + 1, 0, px, py) && !Done(u, row, u.rect.w, px, py) ==> !u.rect.Has(px, py);
    }
  }

  /** client_apply_tile_upload_to_recovery: copies exactly the rectangle, or changes nothing. */
  method Apply(fb: array<nat>, width: nat, height: nat, u: Upload) returns (ok: bool)
    modifies fb
    ensures ok <==> width > 0 && height > 0 && FitsFrame(u, width, height) && fb.Length >= Product(width, height)
    ensures ok ==> fb[..] == Painted(old(fb[..]), width, u)
    ensures !ok ==> fb[..] == old(fb[..])
  {
    if !ValidUpload(u) || width == 0 || height == 0 { return false; }
    if u.rect.x + u.rect.w > width || u.rect.y + u.rect.h > height { return false; }
    if fb.Length < Product(width, height) { return false; }
    ghost var before := fb[..];
    NothingCopied(before, width, u);
    for row := 0 to u.rect.h
      invariant Copied(fb[..], before, width, u, row, 0)
    {
      for col := 0 to u.rect.w
        invariant Copied(fb[..], before, width, u, row, col)
      {
        CopyStep(fb[..], before, width, height, u, row, col);
        var at := Product(u.rect.y + row, width) + u.rect.x + col;
        ghost var now := fb[..];
        fb[at] := PixelAt(u, row, col);
        assert fb[..] == now[at := PixelAt(u, row, col)];
      }
      NextRow(fb[..], before, width, u, row);
    }
    AllCopied(fb[..], before, width, u);
    return true;
  }

  lemma NothingCopied(fb: seq<nat>, width: nat, u: Upload)
    requires width > 0 && ValidUpload(u)
    ensures Copied(fb, fb, width, u, 0, 0)
  {
    assert forall px, py :: Done(u, 0, 0, px, py) ==> !u.rect.Has(px, py);
  }

  lemma AllCopied(now: seq<nat>, before: seq<nat>, width: nat, u: Upload)
    requires width > 0 && ValidUpload(u) && Copied(now, before, width, u, u.rect.h, 0)
    ensures now == Painted(before, width, u)
  {
    assert forall px, py :: !Done(u, u.rect.h, 0, px, py) ==> !u.rect.Has(px, py);
  }

  // ----- applying a drained batch

  /** The valid uploads of the epoch applied in order. */
  ghost function PaintEpoch(fb: seq<nat>, width: nat, us: seq<Upload>, epoch: nat): (r: seq<nat>)
    ensures |r| == |fb|
  {
    if us == [] then fb else
      var front, u := PaintEpoch(fb, width, us[..|us| - 1], epoch), us[|us| - 1];
      if width > 0 && u.epoch == epoch && ValidUpload(u) then Painted(front, width, u) else front
  }

  /** Each pixel is decided by the last valid upload of the epoch that covers it. */
  lemma {:induction false} PaintShows(fb: seq<nat>, width: nat, us: seq<Upload>, epoch: nat, i: nat)
    requires width > 0 && i < |fb|
    ensures var px, py := Remainder(i, width), Quotient(i, width);
            PaintEpoch(fb, width, us, epoch)[i] ==
              match Shown(us, epoch, px, py)
              case None => fb[i]
              case Some(u) => After(u, px, py, 0)
  {
    if us != [] {
      PaintShows(fb, width, us[..|us| - 1], epoch, i);
    }
  }

  lemma {:induction false} PaintNothing(fb: seq<nat>, us: seq<Upload>, epoch: nat)
    ensures PaintEpoch(fb, 0, us, epoch) == fb
  {
    if us != [] { PaintNothing(fb, us[..|us| - 1], epoch); }
  }

  /** The queue refines plain application: for every epoch, applying what a drain returns gives the framebuffer that
      applying every upload answered Queued, in push order, would have given. */
  lemma DrainRefinesPushOrder(fb: seq<nat>, width: nat, out: seq<Upload>, history: seq<Upload>, epoch: nat)
    requires SameShown(out, history)
    ensures PaintEpoch(fb, width, out, epoch) == PaintEpoch(fb, width, history, epoch)
  {
    if width == 0 {
      PaintNothing(fb, out, epoch);
      PaintNothing(fb, history, epoch);
    } else {
      forall i | 0 <= i < |fb| ensures PaintEpoch(fb, width, out, epoch)[i] == PaintEpoch(fb, width, history, epoch)[i] {
        PaintShows(fb, width, out, epoch, i);
        PaintShows(fb, width, history, epoch, i);
      }
    }
  }

  /** The upload is to be painted, and the frame has no room for it. */
  ghost predicate Blocks(u: Upload, epoch: nat, width: nat, height: nat, size: nat)
  {
    u.epoch == epoch && ValidUpload(u) && !(width > 0 && height > 0 && FitsFrame(u, width, height) && size >= Product(width, height))
  }

  ghost predicate Blocked(us: seq<Upload>, epoch: nat, width: nat, height: nat, size: nat)
  {
    exists k :: 0 <= k < |us| && Blocks(us[k], epoch, width, height, size)
  }

  /** The first upload without room: what comes before it was painted. */
  ghost predicate StoppedAt(us: seq<Upload>, k: int, epoch: nat, width: nat, height: nat, before: seq<nat>, now: seq<nat>)
  {
    && 0 <= k < |us| && Blocks(us[k], epoch, width, height, |before|) && !Blocked(us[..k], epoch, width, height, |before|)
    && now == PaintEpoch(before, width, us[..k], epoch)
  }

  /** The renderer paints the valid uploads whose stamp matches the ownership it read, in order, up to the first for which
      the frame has no room; tiles must own the content. */
  method ApplyDrained(fb: array<nat>, width: nat, height: nat, us: seq<Upload>, tilesOwn: bool, epoch: nat) returns (ok: bool)
    modifies fb
    ensures ok <==> !tilesOwn || !Blocked(us, epoch, width, height, fb.Length)
    ensures ok ==> fb[..] == if tilesOwn then PaintEpoch(old(fb[..]), width, us, epoch) else old(fb[..])
    ensures !ok ==> exists k :: StoppedAt(us, k, epoch, width, height, old(fb[..]), fb[..])
  {
    for n := 0 to |us|
      invariant tilesOwn ==> fb[..] == PaintEpoch(old(fb[..]), width, us[..n], epoch) && !Blocked(us[..n], epoch, width, height, fb.Length)
      invariant !tilesOwn ==> fb[..] == old(fb[..])
    {
      assert us[..n + 1][..n] == us[..n];
      BlockedStep(us, n, epoch, width, height, fb.Length);
      if ValidUpload(us[n]) && tilesOwn && us[n].epoch == epoch {
        var done := Apply(fb, width, height, us[n]);
        if !done {
          assert StoppedAt(us, n, epoch, width, height, old(fb[..]), fb[..]);
          return false;
        }
      }
    }
    assert us[..|us|] == us;
    return true;
  }

  lemma BlockedStep(us: seq<Upload>, n: nat, epoch: nat, width: nat, height: nat, size: nat)
    requires n < |us|
    ensures Blocked(us[..n + 1], epoch, width, height, size) <==> Blocked(us[..n], epoch, width, height, size) || Blocks(us[n], epoch, width, height, size)
    ensures Blocks(us[n], epoch, width, height, size) ==> Blocked(us, epoch, width, height, size)
  {
    assert us[..n + 1] == us[..n] + [us[n]];
    if Blocks(us[n], epoch, width, height, size) { assert us[..n + 1][n] == us[n]; }
    if Blocked(us[..n], epoch, width, height, size) {
      var k :| 0 <= k < n && Blocks(us[..n][k], epoch, width, height, size);
      assert us[..n + 1][k] == us[..n][k];
    }
  }

  /** A frame of the renderer: drain the queue and paint what came out. If no queued upload is without room, the frame
      shows what painting every upload answered Queued since the last drain, in push order, would show. */
  method Render(queue: PresentQueue, fb: array<nat>, width: nat, height: nat, tilesOwn: bool, epoch: nat) returns (ok: bool)
    requires queue.Valid()
    modifies queue, fb
    ensures queue.Valid() && queue.uploads == [] && queue.history == []
    ensures !tilesOwn || !old(Blocked(queue.history, epoch, width, height, fb.Length)) ==> ok
    ensures ok ==> fb[..] == if tilesOwn then PaintEpoch(old(fb[..]), width, old(queue.history), epoch) else old(fb[..])
  {
    ghost var history := queue.history;
    var out := queue.Drain();
    NoneBlocked(out, history, epoch, width, height, fb.Length);
    ok := ApplyDrained(fb, width, height, out, tilesOwn, epoch);
    DrainRefinesPushOrder(old(fb[..]), width, out, history, epoch);
  }

  lemma NoneBlocked(out: seq<Upload>, history: seq<Upload>, epoch: nat, width: nat, height: nat, size: nat)
    requires forall u :: u in out ==> u in history
    ensures Blocked(out, epoch, width, height, size) ==> Blocked(history, epoch, width, height, size)
  {
    if Blocked(out, epoch, width, height, size) {
      var k :| 0 <= k < |out| && Blocks(out[k], epoch, width, height, size);
      assert out[k] in history;
    }
  }
}
