/** The dirty tile grid of src/client/render_planning.cpp. The row-major vector of tile flags is a two-dimensional array here. */
module DirtyGrid {
  import opened Arithmetic
  import opened TileGeometry
  import opened DirtyRects
  import opened TileRuns

  /** Tiles x0 <= x < x1 of rows y0 <= y < y1, as a set. */
  ghost function Block(x0: int, x1: int, y0: int, y1: int): set<(int, int)>
  {
    set x, y | x0 <= x < x1 && y0 <= y < y1 :: (x, y)
  }

  lemma BlockSnoc(s: set<(int, int)>, x0: int, x: int, y: int)
    requires x0 <= x
    ensures s + Block(x0, x, y, y + 1) + {(x, y)} == s + Block(x0, x + 1, y, y + 1)
    ensures s - Block(x0, x, y, y + 1) - {(x, y)} == s - Block(x0, x + 1, y, y + 1)
    ensures Block(x0, x, y, y + 1) <= s && (x, y) in s ==> Block(x0, x + 1, y, y + 1) <= s
  {
    assert Block(x0, x + 1, y, y + 1) == Block(x0, x, y, y + 1) + {(x, y)};
  }

  lemma BlockEmpty(s: set<(int, int)>, x0: int, y: int)
    ensures s + Block(x0, x0, y, y + 1) == s
  {
  }

  lemma BlockRow(s: set<(int, int)>, x0: int, x1: int, y0: int, y: int)
    requires y0 <= y
    ensures s + Block(x0, x1, y0, y) + Block(x0, x1, y, y + 1) == s + Block(x0, x1, y0, y + 1)
  {
    assert Block(x0, x1, y0, y + 1) == Block(x0, x1, y0, y) + Block(x0, x1, y, y + 1);
  }

  lemma BlockIsRun(s: set<(int, int)>, x0: int, x: int, y: int)
    requires x0 < x && Block(x0, x, y, y + 1) <= s
    ensures RunOf(s, y, x0, x)
  {
    forall t | x0 <= t < x ensures (t, y) in s {
      assert (t, y) in Block(x0, x, y, y + 1);
    }
  }

  /** Tiles of an extent: the source's rounded-up division. */
  function TileCount(extent: nat, tile: nat): nat
    requires tile > 0
  {
    Divide(extent + tile - 1, tile);
    Quotient(extent + tile - 1, tile)
  }

  class Grid {
    var width: nat
    var height: nat
    var tileW: nat
    var tileH: nat
    var tilesX: nat
    var tilesY: nat
    var count: nat
    var dirty: array2<bool>
    ghost var marked: set<(int, int)>

    /** The flags say which tiles are marked, and the count how many. */
    ghost predicate Flags()
      reads this, dirty
    {
      && dirty.Length0 == tilesY && dirty.Length1 == tilesX
      && (forall p :: p in marked ==> 0 <= p.0 < tilesX && 0 <= p.1 < tilesY)
      && (forall x, y :: 0 <= x < tilesX && 0 <= y < tilesY ==> (dirty[y, x] <==> (x, y) in marked))
      && count == |marked|
    }

    ghost predicate Shaped()
      reads `width, `height, `tileW, `tileH, `tilesX, `tilesY
    {
      if tilesX == 0 || tilesY == 0 then tilesX == tilesY == 0
      else
        && 0 < width <= U16_MAX && 0 < height <= U16_MAX && tileW > 0 && tileH > 0
        && tilesX == TileCount(width, tileW) && tilesY == TileCount(height, tileH)
    }

    ghost predicate Valid()
      reads this, dirty
    {
      Flags() && Shaped()
    }

    constructor ()
      ensures Valid() && marked == {} && fresh(dirty)
    {
      width, height, tileW, tileH, tilesX, tilesY, count := 0, 0, 0, 0, 0, 0, 0;
      dirty := new bool[0, 0];
      marked := {};
    }

    /** reset: a new frame starts clean; a frame that cannot be tiled leaves an empty grid. */
    method Reset(frameWidth: nat, frameHeight: nat, tileWidth: nat, tileHeight: nat) returns (ok: bool)
      requires Valid() && tileWidth <= U16_MAX && tileHeight <= U16_MAX
      modifies this
      ensures Valid() && marked == {} && fresh(dirty)
      ensures ok <==> 0 < frameWidth <= U16_MAX && 0 < frameHeight <= U16_MAX && tileWidth > 0 && tileHeight > 0
      ensures ok ==> width == frameWidth && height == frameHeight && tileW == tileWidth && tileH == tileHeight && tilesX > 0
      ensures !ok ==> tilesX == 0
    {
      marked, count := {}, 0;
      if frameWidth == 0 || frameHeight == 0 || frameWidth > U16_MAX || frameHeight > U16_MAX || tileWidth == 0 || tileHeight == 0 {
        width, height, tileW, tileH, tilesX, tilesY := 0, 0, 0, 0, 0, 0;
        dirty := new bool[0, 0];
        return false;
      }
      width, height, tileW, tileH := frameWidth, frameHeight, tileWidth, tileHeight;
      tilesX, tilesY := TileCount(frameWidth, tileWidth), TileCount(frameHeight, tileHeight);
      QuotientBlock(frameWidth + tileWidth - 1, tileWidth, 1);
      QuotientBlock(frameHeight + tileHeight - 1, tileHeight, 1);
      dirty := new bool[tilesY, tilesX]((y, x) => false);
      return true;
    }

    /** clear. */
    method Clear()
      requires Valid()
      modifies this`count, this`marked, dirty
      ensures Valid() && marked == {}
    {
      forall y, x | 0 <= y < dirty.Length0 && 0 <= x < dirty.Length1 {
        dirty[y, x] := false;
      }
      count, marked := 0, {};
    }

    method Mark(x: nat, y: nat)
      requires Flags() && x < tilesX && y < tilesY
      modifies this`count, this`marked, dirty
      ensures Flags() && marked == old(marked) + {(x, y)}
    {
      if !dirty[y, x] {
        dirty[y, x] := true;
        count := count + 1;
      }
      marked := marked + {(x, y)};
    }

    method MarkRow(y: nat, x0: nat, x1: nat)
      requires Flags() && x0 <= x1 <= tilesX && y < tilesY
      modifies this`count, this`marked, dirty
      ensures Flags() && marked == old(marked) + Block(x0, x1, y, y + 1)
    {
      ghost var before := marked;
      BlockEmpty(before, x0, y);
      var x := x0;
      while x < x1
        invariant x0 <= x <= x1 && Flags() && marked == before + Block(x0, x, y, y + 1)
      {
        BlockSnoc(before, x0, x, y);
        Mark(x, y);
        x := x + 1;
      }
    }

    method MarkBlock(x0: nat, x1: nat, y0: nat, y1: nat)
      requires Flags() && x0 <= x1 <= tilesX && y0 <= y1 <= tilesY
      modifies this`count, this`marked, dirty
      ensures Flags() && marked == old(marked) + Block(x0, x1, y0, y1)
    {
      var y := y0;
      while y < y1
        invariant y0 <= y <= y1 && Flags() && marked == old(marked) + Block(x0, x1, y0, y)
      {
        MarkRow(y, x0, x1);
        BlockRow(old(marked), x0, x1, y0, y);
        y := y + 1;
      }
    }

    /** mark_rect: exactly the tiles that share a pixel with the visible part become dirty too. */
    method MarkRect(r: Rect) returns (ok: bool)
      requires Valid() && Fits16(r)
      modifies this`count, this`marked, dirty
      ensures Valid()
      ensures ok <==> tilesX > 0 && Clamp(r, width, height).Some?
      ensures !ok ==> marked == old(marked)
      ensures ok ==> forall x, y :: (x, y) in marked <==> (x, y) in old(marked) || Touches(Clamp(r, width, height).value, tileW, tileH, x, y)
    {
      if tilesX == 0 {
        return false;
      }
      var visible := Clamp(r, width, height);
      if visible.None? {
        return false;
      }
      ClampIntersects(r, width, height, 0, 0);
      var v := visible.value;
      var x0, x1 := Quotient(v.x, tileW), Quotient(v.x + v.w - 1, tileW);
      var y0, y1 := Quotient(v.y, tileH), Quotient(v.y + v.h - 1, tileH);
      TilesInRange(v.x, v.x + v.w - 1, width, tileW);
      TilesInRange(v.y, v.y + v.h - 1, height, tileH);
      BlockTouches(v, tileW, tileH);
      MarkBlock(x0, x1 + 1, y0, y1 + 1);
      return true;
    }

    method Unmark(x: nat, y: nat)
      requires Flags() && x < tilesX && y < tilesY && (x, y) in marked
      modifies this`count, this`marked, dirty
      ensures Flags() && marked == old(marked) - {(x, y)}
    {
      dirty[y, x] := false;
      count := count - 1;
      marked := marked - {(x, y)};
    }

    method UnmarkNext(ty: nat, ghost start: nat, x: nat, ghost was: set<(int, int)>)
      requires Flags() && ty < tilesY && start <= x < tilesX && dirty[ty, x]
      requires marked == was - Block(start, x, ty, ty + 1) && Block(start, x, ty, ty + 1) <= was
      modifies this`count, this`marked, dirty
      ensures Flags() && marked == was - Block(start, x + 1, ty, ty + 1) && Block(start, x + 1, ty, ty + 1) <= was
    {
      assert (x, ty) in marked;
      Unmark(x, ty);
      BlockSnoc(was, start, x, ty);
    }

    /** The inner loop of take_rects: the run of dirty tiles from `start` is cleared. */
    method ClearRun(ty: nat, start: nat) returns (end: nat)
      requires Flags() && ty < tilesY && start < tilesX && (start, ty) in marked
      modifies this`count, this`marked, dirty
      ensures Flags() && start < end <= tilesX && marked == old(marked) - Block(start, end, ty, ty + 1)
      ensures RunOf(old(marked), ty, start, end)
    {
      end := start;
      while end < tilesX && dirty[ty, end]
        invariant start <= end <= tilesX && Flags() && marked == old(marked) - Block(start, end, ty, ty + 1)
        invariant Block(start, end, ty, ty + 1) <= old(marked)
      {
        UnmarkNext(ty, start, end, old(marked));
        end := end + 1;
      }
      BlockIsRun(old(marked), start, end, ty);
    }

    /** The tile at (tx, ty) is clean, or starts a run, which is cleared. */
    method NextRun(ty: nat, tx: nat, ghost was: set<(int, int)>) returns (end: nat, run: bool)
      requires Flags() && ty < tilesY && tx < tilesX && Left(marked, was, ty, tx)
      modifies this`count, this`marked, dirty
      ensures Flags() && tx < end <= tilesX && Left(marked, was, ty, end)
      ensures if run then RunOf(was, ty, tx, end) else end == tx + 1 && (tx, ty) !in was
    {
      ghost var before := marked;
      LeftNext(marked, was, ty, tx);
      run := dirty[ty, tx];
      if run {
        end := ClearRun(ty, tx);
        LeftRun(before, was, ty, tx, end);
      } else {
        end := tx + 1;
      }
    }

    ghost predicate Drawn(rects: seq<Rect>, boxes: seq<Box>)
      reads `width, `height, `tileW, `tileH
    {
      Draws(rects, boxes, width, height, tileW, tileH)
    }

    method SkipRuns(ghost ty: nat, a: nat, prev: seq<Run>, from0: nat, ghost cur: seq<Run>, ghost boxes: seq<Box>, ghost was: set<(int, int)>)
      returns (from: nat)
      requires Scan(boxes, prev, from0, cur, was, ty, a)
      ensures Scan(boxes, prev, from, cur, was, ty, a) && (from >= |prev| || prev[from].start >= a)
    {
      from := from0;
      while from < |prev| && prev[from].start < a
        invariant Scan(boxes, prev, from, cur, was, ty, a)
      {
        SkipRun(boxes, prev, from, cur, was, ty, a);
        from := from + 1;
      }
    }

    /** A run becomes the continuation of a rectangle above it or a rectangle of its own. */
    method PlaceRun(ty: nat, a: nat, b: nat, prev: seq<Run>, from0: nat, cur0: seq<Run>, rects0: seq<Rect>, ghost boxes0: seq<Box>,
                    ghost was: set<(int, int)>)
      returns (from: nat, cur: seq<Run>, rects: seq<Rect>, ghost boxes: seq<Box>)
      requires Scan(boxes0, prev, from0, cur0, was, ty, a) && RunOf(was, ty, a, b) && Drawn(rects0, boxes0)
      ensures Scan(boxes, prev, from, cur, was, ty, b) && Drawn(rects, boxes)
    {
      from := SkipRuns(ty, a, prev, from0, cur0, boxes0, was);
      if from < |prev| && prev[from].start == a && prev[from].end == b {
        rects, cur, boxes := Lengthen(ty, a, b, prev, from, cur0, rects0, boxes0, was);
      } else {
        rects, cur, boxes := Open(ty, a, b, prev, from, cur0, rects0, boxes0, was);
      }
    }

    method Lengthen(ty: nat, a: nat, b: nat, prev: seq<Run>, from: nat, cur0: seq<Run>, rects0: seq<Rect>, ghost boxes0: seq<Box>,
                    ghost was: set<(int, int)>)
      returns (rects: seq<Rect>, cur: seq<Run>, ghost boxes: seq<Box>)
      requires Scan(boxes0, prev, from, cur0, was, ty, a) && RunOf(was, ty, a, b) && Drawn(rects0, boxes0)
      requires from < |prev| && prev[from].start == a && prev[from].end == b
      ensures Scan(boxes, prev, from, cur, was, ty, b) && Drawn(rects, boxes)
    {
      var k := prev[from].index;
      GrowBox(boxes0, prev, from, cur0, was, ty, a, b);
      DrawsGrown(rects0, boxes0, width, height, tileW, tileH, k, ty + 1);
      var bottom := Min(height, Product(ty + 1, tileH));
      rects := rects0[k := rects0[k].(h := bottom - rects0[k].y)];
      cur := cur0 + [Run(a, b, k)];
      boxes := boxes0[k := boxes0[k].(y1 := ty + 1)];
    }

    method Open(ty: nat, a: nat, b: nat, ghost prev: seq<Run>, ghost from: nat, cur0: seq<Run>, rects0: seq<Rect>, ghost boxes0: seq<Box>,
                ghost was: set<(int, int)>)
      returns (rects: seq<Rect>, cur: seq<Run>, ghost boxes: seq<Box>)
      requires Scan(boxes0, prev, from, cur0, was, ty, a) && RunOf(was, ty, a, b) && Drawn(rects0, boxes0)
      requires from >= |prev| || (prev[from].start >= a && !(prev[from].start == a && prev[from].end == b))
      ensures Scan(boxes, prev, from, cur, was, ty, b) && Drawn(rects, boxes)
    {
      NewBox(boxes0, prev, from, cur0, was, ty, a, b);
      DrawsNew(rects0, boxes0, width, height, tileW, tileH, a, b, ty);
      var x, y := Product(a, tileW), Product(ty, tileH);
      rects := rects0 + [Rect(x, y, Min(width, Product(b, tileW)) - x, Min(height, y + tileH) - y)];
      cur := cur0 + [Run(a, b, |rects0|)];
      boxes := boxes0 + [Box(a, b, ty, ty + 1)];
    }

    method ScanRow(ty: nat, prev: seq<Run>, rects0: seq<Rect>, ghost boxes0: seq<Box>, ghost was: set<(int, int)>)
      returns (rects: seq<Rect>, cur: seq<Run>, ghost boxes: seq<Box>)
      requires Flags() && ty < tilesY && Scan(boxes0, prev, 0, [], was, ty, 0) && Drawn(rects0, boxes0) && Left(marked, was, ty, 0)
      requires forall p :: p in was ==> 0 <= p.0 < tilesX
      modifies this`count, this`marked, dirty
      ensures Flags() && Scan(boxes, cur, 0, [], was, ty + 1, 0) && Drawn(rects, boxes) && Left(marked, was, ty + 1, 0)
    {
      rects, cur, boxes := rects0, [], boxes0;
      var from, tx := 0, 0;
      while tx < tilesX
        invariant 0 <= tx <= tilesX && Flags() && Scan(boxes, prev, from, cur, was, ty, tx) && Drawn(rects, boxes)
        invariant Left(marked, was, ty, tx)
      {
        var end, run := NextRun(ty, tx, was);
        if !run {
          SkipClean(boxes, prev, from, cur, was, ty, tx);
        } else {
          from, cur, rects, boxes := PlaceRun(ty, tx, end, prev, from, cur, rects, boxes, was);
        }
        tx := end;
      }
      NextRow(boxes, prev, from, cur, was, ty, tilesX);
    }

    /** take_rects: rectangles on the frame that draw every pixel of a marked tile exactly once and no other pixel, none right on top
        of another of the same width; the grid is left clean. */
    method TakeRects() returns (rects: seq<Rect>, ghost boxes: seq<Box>)
      requires Valid()
      modifies this`count, this`marked, dirty
      ensures Valid() && marked == {} && count == 0
      ensures AllOnFrame(rects, width, height) && Drawn(rects, boxes) && NoStack(boxes)
      ensures tilesX > 0 ==> forall px, py :: 0 <= px < width && 0 <= py < height ==>
                PixelHits(rects, px, py) == if (Quotient(px, tileW), Quotient(py, tileH)) in old(marked) then 1 else 0
    {
      rects, boxes := [], [];
      if count == 0 || tilesX == 0 {
        assert marked == {};
        return;
      }
      ghost var was := marked;
      var prev: seq<Run> := [];
      var ty := 0;
      while ty < tilesY
        invariant 0 <= ty <= tilesY && Flags() && Scan(boxes, prev, 0, [], was, ty, 0) && Drawn(rects, boxes) && Left(marked, was, ty, 0)
      {
        rects, prev, boxes := ScanRow(ty, prev, rects, boxes, was);
        ty := ty + 1;
      }
      assert marked == {};
      RectsOnFrame(rects, boxes, was, ty, width, height, tileW, tileH, tilesX, tilesY);
      forall px, py | 0 <= px < width && 0 <= py < height
        ensures PixelHits(rects, px, py) == if (Quotient(px, tileW), Quotient(py, tileH)) in was then 1 else 0
      {
        PixelsFollowTiles(rects, boxes, width, height, tileW, tileH, px, py);
      }
    }
  }

  /** The tiles of `was` not yet scanned. */
  ghost predicate Left(marked: set<(int, int)>, was: set<(int, int)>, ty: int, tx: int)
  {
    forall x, y {:trigger (x, y) in marked} {:trigger (x, y) in was} ::
      (x, y) in marked <==> (x, y) in was && !Scanned(x, y, ty, tx)
  }

  lemma LeftNext(marked: set<(int, int)>, was: set<(int, int)>, ty: int, tx: int)
    requires Left(marked, was, ty, tx)
    ensures (tx, ty) in marked <==> (tx, ty) in was
    ensures (tx, ty) !in marked ==> Left(marked, was, ty, tx + 1)
  {
  }

  lemma LeftRun(marked: set<(int, int)>, was: set<(int, int)>, ty: int, a: int, b: int)
    requires Left(marked, was, ty, a) && RunOf(marked, ty, a, b)
    ensures Left(marked - Block(a, b, ty, ty + 1), was, ty, b) && RunOf(was, ty, a, b)
  {
  }

  lemma RectsOnFrame(rects: seq<Rect>, boxes: seq<Box>, was: set<(int, int)>, ty: int, width: nat, height: nat, tileW: nat, tileH: nat,
                     tilesX: nat, tilesY: nat)
    requires Draws(rects, boxes, width, height, tileW, tileH) && CoversExactly(boxes, was, ty, 0) && Above(boxes, ty + 1)
    requires forall p :: p in was ==> 0 <= p.0 < tilesX && 0 <= p.1 < tilesY
    requires tileW > 0 && tileH > 0 && tilesX == TileCount(width, tileW) && tilesY == TileCount(height, tileH)
    requires width <= U16_MAX && height <= U16_MAX
    ensures AllOnFrame(rects, width, height)
  {
    forall i | 0 <= i < |rects|
      ensures OnFrame(rects[i], width, height)
    {
      var b := boxes[i];
      HitsMember(boxes, i, b.x0, b.y0);
      assert (b.x0, b.y0) in was;
      SpanOnFrame(b.x0, b.x1, width, tileW);
      SpanOnFrame(b.y0, b.y1, height, tileH);
    }
  }

  lemma SpanOnFrame(t0: int, t1: int, extent: nat, tile: nat)
    requires 0 <= t0 < t1 && tile > 0 && t0 < TileCount(extent, tile)
    ensures 0 <= Product(t0, tile) < Min(extent, Product(t1, tile)) <= extent
  {
    QuotientBlock(extent + tile - 1, tile, t0 + 1);
    ProductAdd(t0, 1, tile);
    ProductMonotone(t0 + 1, t1, tile);
    MulBound(0, tile, t0, tile);
  }

  /** Tile (x, y) shares a pixel with the rectangle. */
  ghost predicate Touches(r: Rect, tileW: int, tileH: int, x: int, y: int)
    requires tileW > 0 && tileH > 0
  {
    && Product(x, tileW) < r.x + r.w && r.x < Product(x + 1, tileW)
    && Product(y, tileH) < r.y + r.h && r.y < Product(y + 1, tileH)
  }

  lemma TilesInRange(first: int, last: int, extent: nat, tile: nat)
    requires 0 <= first <= last < extent && tile > 0
    ensures 0 <= Quotient(first, tile) <= Quotient(last, tile) < TileCount(extent, tile)
  {
    QuotientMonotone(first, last, tile);
    var n := TileCount(extent, tile);
    QuotientBlock(extent + tile - 1, tile, n);
    QuotientBlock(last, tile, n);
  }

  lemma BlockTouches(r: Rect, tileW: int, tileH: int)
    requires r.w > 0 && r.h > 0 && tileW > 0 && tileH > 0
    ensures forall x, y ::
      (x, y) in Block(Quotient(r.x, tileW), Quotient(r.x + r.w - 1, tileW) + 1, Quotient(r.y, tileH), Quotient(r.y + r.h - 1, tileH) + 1)
      <==> Touches(r, tileW, tileH, x, y)
  {
    forall x, y
      ensures
        (x, y) in Block(Quotient(r.x, tileW), Quotient(r.x + r.w - 1, tileW) + 1, Quotient(r.y, tileH), Quotient(r.y + r.h - 1, tileH) + 1)
        <==> Touches(r, tileW, tileH, x, y)
    {
      TouchedTiles(r.x, r.w, tileW, x);
      TouchedTiles(r.y, r.h, tileH, y);
    }
  }

  lemma TouchedTiles(start: int, len: int, tile: int, t: int)
    requires len > 0 && tile > 0
    ensures Quotient(start, tile) <= t <= Quotient(start + len - 1, tile)
       <==> Product(t, tile) < start + len && start < Product(t + 1, tile)
  {
    QuotientBlock(start, tile, t + 1);
    QuotientBlock(start + len - 1, tile, t);
  }
}
