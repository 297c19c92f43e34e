/** Rectangles of whole tiles and what they cover, for the dirty tile grid of src/client/render_planning.cpp. */
module TileRuns {
  import opened Arithmetic
  import opened TileGeometry

  /** Tiles x0 <= x < x1 of rows y0 <= y < y1. */
  datatype Box = Box(x0: int, x1: int, y0: int, y1: int) {
    predicate Has(x: int, y: int) { x0 <= x < x1 && y0 <= y < y1 }
  }

  /** How many boxes hold tile (x, y). */
  ghost function Hits(boxes: seq<Box>, x: int, y: int): nat
  {
    if boxes == [] then 0
    else Hits(boxes[..|boxes| - 1], x, y) + if boxes[|boxes| - 1].Has(x, y) then 1 else 0
  }

  lemma HitsSnoc(boxes: seq<Box>, b: Box, x: int, y: int)
    ensures Hits(boxes + [b], x, y) == Hits(boxes, x, y) + if b.Has(x, y) then 1 else 0
  {
    assert (boxes + [b])[..|boxes|] == boxes;
  }

  lemma {:induction false} HitsUpdate(boxes: seq<Box>, k: nat, b: Box, x: int, y: int)
    requires k < |boxes|
    ensures Hits(boxes[k := b], x, y)
         == Hits(boxes, x, y) - (if boxes[k].Has(x, y) then 1 else 0) + if b.Has(x, y) then 1 else 0
  {
    var n := |boxes| - 1;
    if k < n {
      HitsUpdate(boxes[..n], k, b, x, y);
      assert boxes[k := b][..n] == boxes[..n][k := b];
    } else {
      assert boxes[k := b][..n] == boxes[..n];
    }
  }

  lemma {:induction false} HitsMember(boxes: seq<Box>, i: nat, x: int, y: int)
    requires i < |boxes| && boxes[i].Has(x, y)
    ensures Hits(boxes, x, y) > 0
  {
    if i < |boxes| - 1 {
      HitsMember(boxes[..|boxes| - 1], i, x, y);
    }
  }

  // ----- tiles and pixels

  /** The pixels of a box of tiles on the frame. */
  function Pixels(b: Box, width: int, height: int, tileW: int, tileH: int): Rect
  {
    var x, y := Product(b.x0, tileW), Product(b.y0, tileH);
    Rect(x, y, Min(width, Product(b.x1, tileW)) - x, Min(height, Product(b.y1, tileH)) - y)
  }

  lemma PixelInBox(b: Box, width: int, height: int, tileW: int, tileH: int, px: int, py: int)
    requires tileW > 0 && tileH > 0
    ensures Pixels(b, width, height, tileW, tileH).Has(px, py)
       <==> px < width && py < height && b.Has(Quotient(px, tileW), Quotient(py, tileH))
  {
    QuotientBlock(px, tileW, b.x0);
    QuotientBlock(px, tileW, b.x1);
    QuotientBlock(py, tileH, b.y0);
    QuotientBlock(py, tileH, b.y1);
  }

  ghost function PixelHits(rects: seq<Rect>, px: int, py: int): nat
  {
    if rects == [] then 0
    else PixelHits(rects[..|rects| - 1], px, py) + if rects[|rects| - 1].Has(px, py) then 1 else 0
  }

  ghost predicate Draws(rects: seq<Rect>, boxes: seq<Box>, width: int, height: int, tileW: int, tileH: int)
  {
    |rects| == |boxes| && forall i :: 0 <= i < |rects| ==> rects[i] == Pixels(boxes[i], width, height, tileW, tileH)
  }

  lemma DrawsNew(rects: seq<Rect>, boxes: seq<Box>, width: int, height: int, tileW: int, tileH: int, a: int, b: int, ty: int)
    requires Draws(rects, boxes, width, height, tileW, tileH)
    ensures var x, y := Product(a, tileW), Product(ty, tileH);
            var r := Rect(x, y, Min(width, Product(b, tileW)) - x, Min(height, y + tileH) - y);
            Draws(rects + [r], boxes + [Box(a, b, ty, ty + 1)], width, height, tileW, tileH)
  {
    ProductAdd(ty, 1, tileH);
    assert Product(1, tileH) == tileH;
  }

  lemma DrawsGrown(rects: seq<Rect>, boxes: seq<Box>, width: int, height: int, tileW: int, tileH: int, k: nat, bottom: int)
    requires Draws(rects, boxes, width, height, tileW, tileH) && k < |rects|
    ensures Draws(rects[k := rects[k].(h := Min(height, Product(bottom, tileH)) - rects[k].y)], boxes[k := boxes[k].(y1 := bottom)],
                  width, height, tileW, tileH)
  {
  }

  /** A pixel of the frame is drawn as often as its tile is covered. */
  lemma {:induction false} PixelsFollowTiles(rects: seq<Rect>, boxes: seq<Box>, width: int, height: int, tileW: int, tileH: int,
                                             px: int, py: int)
    requires tileW > 0 && tileH > 0 && Draws(rects, boxes, width, height, tileW, tileH)
    ensures PixelHits(rects, px, py)
         == if px < width && py < height then Hits(boxes, Quotient(px, tileW), Quotient(py, tileH)) else 0
    decreases |rects|
  {
    if rects != [] {
      var n := |rects| - 1;
      PixelsFollowTiles(rects[..n], boxes[..n], width, height, tileW, tileH, px, py);
      PixelInBox(boxes[n], width, height, tileW, tileH, px, py);
    }
  }

  // ----- the row scan

  /** A run of dirty tiles in a row and the box it ends. */
  datatype Run = Run(start: int, end: int, index: nat)

  predicate Scanned(x: int, y: int, ty: int, tx: int) { y < ty || (y == ty && x < tx) }

  /** Every scanned dirty tile is in exactly one box and no other tile is in any. */
  ghost predicate CoversExactly(boxes: seq<Box>, was: set<(int, int)>, ty: int, tx: int)
  {
    forall x, y {:trigger Hits(boxes, x, y)} :: Hits(boxes, x, y) == if (x, y) in was && Scanned(x, y, ty, tx) then 1 else 0
  }

  /** Boxes are not empty and none reaches below row `bottom`. */
  ghost predicate Above(boxes: seq<Box>, bottom: int)
  {
    forall i :: 0 <= i < |boxes| ==> 0 <= boxes[i].x0 < boxes[i].x1 && 0 <= boxes[i].y0 < boxes[i].y1 <= bottom
  }

  /** The runs from `from` on, in order, are the boxes that end at row `y` and start at `left` or later. */
  ghost predicate Ending(runs: seq<Run>, from: nat, boxes: seq<Box>, y: int, left: int)
  {
    && (forall j :: 0 <= j < |runs| ==> runs[j].index < |boxes|)
    && (forall j :: 0 <= j < |runs| ==> boxes[runs[j].index].x0 == runs[j].start && boxes[runs[j].index].x1 == runs[j].end)
    && (forall j :: 0 <= j < |runs| && runs[j].start >= left ==> boxes[runs[j].index].y1 == y)
    && (forall i, j :: 0 <= i < j < |runs| ==> runs[i].start < runs[j].start)
    && (forall i :: 0 <= i < |boxes| && boxes[i].y1 == y && boxes[i].x0 >= left ==> Indexed(runs, from, i))
  }

  ghost predicate Indexed(runs: seq<Run>, from: nat, i: int)
  {
    exists j :: from <= j < |runs| && runs[j].index == i
  }

  /** No box sits right on top of another of the same width. */
  ghost predicate NoStack(boxes: seq<Box>)
  {
    forall i, j :: 0 <= i < |boxes| && 0 <= j < |boxes| ==>
      !(boxes[i].x0 == boxes[j].x0 && boxes[i].x1 == boxes[j].x1 && boxes[i].y1 == boxes[j].y0)
  }

  ghost predicate Scan(boxes: seq<Box>, prev: seq<Run>, from: nat, cur: seq<Run>, was: set<(int, int)>, ty: int, tx: int)
  {
    && 0 <= tx && 0 <= ty
    && CoversExactly(boxes, was, ty, tx)
    && Above(boxes, ty + 1)
    && Ending(prev, from, boxes, ty, tx)
    && Ending(cur, 0, boxes, ty + 1, 0)
    && (forall j :: 0 <= j < |cur| ==> cur[j].start < tx)
    && NoStack(boxes)
  }

  lemma SkipClean(boxes: seq<Box>, prev: seq<Run>, from: nat, cur: seq<Run>, was: set<(int, int)>, ty: int, tx: int)
    requires Scan(boxes, prev, from, cur, was, ty, tx) && (tx, ty) !in was
    ensures Scan(boxes, prev, from, cur, was, ty, tx + 1)
  {
  }

  lemma SkipRun(boxes: seq<Box>, prev: seq<Run>, from: nat, cur: seq<Run>, was: set<(int, int)>, ty: int, tx: int)
    requires Scan(boxes, prev, from, cur, was, ty, tx) && from < |prev| && prev[from].start < tx
    ensures Scan(boxes, prev, from + 1, cur, was, ty, tx)
  {
    forall i | 0 <= i < |boxes| && boxes[i].y1 == ty && boxes[i].x0 >= tx
      ensures Indexed(prev, from + 1, i)
    {
      assert Indexed(prev, from, i);
      var j :| from <= j < |prev| && prev[j].index == i;
      assert j != from;
    }
  }

  ghost predicate RunOf(was: set<(int, int)>, ty: int, a: int, b: int)
  {
    a < b && forall x :: a <= x < b ==> (x, ty) in was
  }

  lemma NextRow(boxes: seq<Box>, prev: seq<Run>, from: nat, cur: seq<Run>, was: set<(int, int)>, ty: int, tilesX: int)
    requires Scan(boxes, prev, from, cur, was, ty, tilesX) && forall p :: p in was ==> 0 <= p.0 < tilesX
    ensures Scan(boxes, cur, 0, [], was, ty + 1, 0)
  {
    forall x, y
      ensures Hits(boxes, x, y) == if (x, y) in was && Scanned(x, y, ty + 1, 0) then 1 else 0
    {
      assert Hits(boxes, x, y) == if (x, y) in was && Scanned(x, y, ty, tilesX) then 1 else 0;
      if (x, y) in was {
        assert (x, y).0 < tilesX;
      }
    }
  }

  lemma NewCovers(boxes: seq<Box>, was: set<(int, int)>, ty: int, a: int, b: int)
    requires CoversExactly(boxes, was, ty, a) && RunOf(was, ty, a, b)
    ensures CoversExactly(boxes + [Box(a, b, ty, ty + 1)], was, ty, b)
  {
    forall x, y
      ensures Hits(boxes + [Box(a, b, ty, ty + 1)], x, y) == if (x, y) in was && Scanned(x, y, ty, b) then 1 else 0
    {
      HitsSnoc(boxes, Box(a, b, ty, ty + 1), x, y);
    }
  }

  lemma NewEnding(runs: seq<Run>, boxes: seq<Box>, y: int, box: Box)
    requires Ending(runs, 0, boxes, y, 0) && Above(boxes, y) && box.y1 == y && forall j :: 0 <= j < |runs| ==> runs[j].start < box.x0
    ensures Ending(runs + [Run(box.x0, box.x1, |boxes|)], 0, boxes + [box], y, 0)
  {
    var more, all := runs + [Run(box.x0, box.x1, |boxes|)], boxes + [box];
    forall i | 0 <= i < |all| && all[i].y1 == y && all[i].x0 >= 0
      ensures Indexed(more, 0, i)
    {
      if i == |boxes| {
        assert more[|runs|].index == i;
      } else {
        assert Indexed(runs, 0, i);
        var j :| 0 <= j < |runs| && runs[j].index == i;
        assert more[j].index == i;
      }
    }
  }

  lemma NewNoStack(boxes: seq<Box>, prev: seq<Run>, from: nat, ty: int, a: int, b: int)
    requires NoStack(boxes) && Above(boxes, ty + 1) && Ending(prev, from, boxes, ty, a) && a < b
    requires from >= |prev| || (prev[from].start >= a && !(prev[from].start == a && prev[from].end == b))
    ensures NoStack(boxes + [Box(a, b, ty, ty + 1)])
  {
    forall i | 0 <= i < |boxes| && boxes[i].x0 == a && boxes[i].y1 == ty
      ensures boxes[i].x1 != b
    {
      assert Indexed(prev, from, i);
      var j :| from <= j < |prev| && prev[j].index == i;
      assert prev[j].start == a;
    }
  }

  /** A run that continues no box of the row above starts one. */
  lemma NewBox(boxes: seq<Box>, prev: seq<Run>, from: nat, cur: seq<Run>, was: set<(int, int)>, ty: int, a: int, b: int)
    requires Scan(boxes, prev, from, cur, was, ty, a) && RunOf(was, ty, a, b)
    requires from >= |prev| || (prev[from].start >= a && !(prev[from].start == a && prev[from].end == b))
    ensures Scan(boxes + [Box(a, b, ty, ty + 1)], prev, from, cur + [Run(a, b, |boxes|)], was, ty, b)
  {
    NewCovers(boxes, was, ty, a, b);
    NewEnding(cur, boxes, ty + 1, Box(a, b, ty, ty + 1));
    NewNoStack(boxes, prev, from, ty, a, b);
  }

  lemma GrownCovers(boxes: seq<Box>, was: set<(int, int)>, ty: int, a: int, b: int, k: nat)
    requires CoversExactly(boxes, was, ty, a) && RunOf(was, ty, a, b)
    requires k < |boxes| && boxes[k].x0 == a && boxes[k].x1 == b && boxes[k].y0 < boxes[k].y1 == ty
    ensures CoversExactly(boxes[k := boxes[k].(y1 := ty + 1)], was, ty, b)
  {
    forall x, y
      ensures Hits(boxes[k := boxes[k].(y1 := ty + 1)], x, y) == if (x, y) in was && Scanned(x, y, ty, b) then 1 else 0
    {
      HitsUpdate(boxes, k, boxes[k].(y1 := ty + 1), x, y);
    }
  }

  lemma GrownEnding(runs: seq<Run>, boxes: seq<Box>, y: int, k: nat)
    requires Ending(runs, 0, boxes, y, 0) && k < |boxes| && 0 <= boxes[k].x0 && forall j :: 0 <= j < |runs| ==> runs[j].start < boxes[k].x0
    ensures Ending(runs + [Run(boxes[k].x0, boxes[k].x1, k)], 0, boxes[k := boxes[k].(y1 := y)], y, 0)
  {
    var more, all := runs + [Run(boxes[k].x0, boxes[k].x1, k)], boxes[k := boxes[k].(y1 := y)];
    forall i | 0 <= i < |all| && all[i].y1 == y && all[i].x0 >= 0
      ensures Indexed(more, 0, i)
    {
      if i == k {
        assert more[|runs|].index == i;
      } else {
        assert Indexed(runs, 0, i);
        var j :| 0 <= j < |runs| && runs[j].index == i;
        assert more[j].index == i;
      }
    }
  }

  lemma GrownPrev(prev: seq<Run>, from: nat, boxes: seq<Box>, ty: int, a: int, b: int, k: nat)
    requires Ending(prev, from, boxes, ty, a) && k < |boxes| && boxes[k].x0 == a < b
    ensures Ending(prev, from, boxes[k := boxes[k].(y1 := ty + 1)], ty, b)
  {
    var all := boxes[k := boxes[k].(y1 := ty + 1)];
    forall i | 0 <= i < |all| && all[i].y1 == ty && all[i].x0 >= b
      ensures Indexed(prev, from, i)
    {
      assert boxes[i].y1 == ty && boxes[i].x0 >= a;
    }
  }

  /** A run with the extent of one right above it lengthens that box. */
  lemma GrowBox(boxes: seq<Box>, prev: seq<Run>, from: nat, cur: seq<Run>, was: set<(int, int)>, ty: int, a: int, b: int)
    requires Scan(boxes, prev, from, cur, was, ty, a) && RunOf(was, ty, a, b)
    requires from < |prev| && prev[from].start == a && prev[from].end == b
    ensures var k := prev[from].index;
            Scan(boxes[k := boxes[k].(y1 := ty + 1)], prev, from, cur + [Run(a, b, k)], was, ty, b)
  {
    var k := prev[from].index;
    GrownCovers(boxes, was, ty, a, b, k);
    GrownEnding(cur, boxes, ty + 1, k);
    GrownPrev(prev, from, boxes, ty, a, b, k);
  }
}
