/** Dirty rectangles of src/client/render_planning.cpp: clamping to the frame and merging before a texture upload. */
module DirtyRects {
  import opened Wrappers
  import opened Arithmetic
  import opened Sorting
  import opened TileGeometry

  predicate Fits16(r: Rect)
  {
    0 <= r.x <= U16_MAX && 0 <= r.y <= U16_MAX && 0 <= r.w <= U16_MAX && 0 <= r.h <= U16_MAX
  }

  predicate OnFrame(r: Rect, width: nat, height: nat)
  {
    0 <= r.x && 0 <= r.y && 0 < r.w && 0 < r.h && r.x + r.w <= width <= U16_MAX && r.y + r.h <= height <= U16_MAX
  }

  ghost predicate AllOnFrame(rects: seq<Rect>, width: nat, height: nat)
  {
    forall i :: 0 <= i < |rects| ==> OnFrame(rects[i], width, height)
  }

  /** clamp_dirty_rect. */
  function Clamp(r: Rect, width: nat, height: nat): Option<Rect>
  {
    if r.w == 0 || r.h == 0 || width > U16_MAX || height > U16_MAX || r.x >= width || r.y >= height then None
    else
      var w, h := Min(r.w, width - r.x), Min(r.h, height - r.y);
      if w == 0 || h == 0 || w > U16_MAX || h > U16_MAX then None else Some(Rect(r.x, r.y, w, h))
  }

  /** Clamping intersects with a 16-bit frame; only an empty intersection is refused. */
  lemma ClampIntersects(r: Rect, width: nat, height: nat, px: int, py: int)
    requires Fits16(r)
    ensures var c := Clamp(r, width, height);
            && (c.Some? ==> OnFrame(c.value, width, height))
            && ((c.Some? && c.value.Has(px, py)) <==> r.Has(px, py) && 0 <= px < width <= U16_MAX && 0 <= py < height <= U16_MAX)
  {
  }

  ghost predicate Lit(rects: seq<Rect>, px: int, py: int)
  {
    exists i :: 0 <= i < |rects| && rects[i].Has(px, py)
  }

  /** Two lists light the same pixels. */
  ghost predicate SameLight(a: seq<Rect>, b: seq<Rect>)
  {
    forall px, py :: Lit(a, px, py) <==> Lit(b, px, py)
  }

  lemma LitSnoc(rects: seq<Rect>, r: Rect, px: int, py: int)
    ensures Lit(rects + [r], px, py) <==> Lit(rects, px, py) || r.Has(px, py)
  {
    var all := rects + [r];
    if r.Has(px, py) {
      assert all[|rects|].Has(px, py);
    }
    if Lit(rects, px, py) {
      var i :| 0 <= i < |rects| && rects[i].Has(px, py);
      assert all[i].Has(px, py);
    }
  }

  /** Order of the horizontal pass: top, height, left. */
  predicate RowOrder(a: Rect, b: Rect)
  {
    if a.y != b.y then a.y < b.y else if a.h != b.h then a.h < b.h else a.x <= b.x
  }

  lemma RowOrderIsTotal()
    ensures TotalOrder(RowOrder)
  {
  }

  predicate Joins(prev: Rect, r: Rect)
  {
    prev.y == r.y && prev.h == r.h && r.x <= prev.x + prev.w
  }

  function Joined(prev: Rect, r: Rect): Rect
  {
    prev.(w := Min((if prev.x + prev.w > r.x + r.w then prev.x + prev.w else r.x + r.w) - prev.x, U16_MAX))
  }

  lemma StepKeepsLight(out: seq<Rect>, seen: seq<Rect>, r: Rect, width: nat, height: nat)
    requires SameLight(out, seen) && AllOnFrame(out, width, height) && OnFrame(r, width, height)
    ensures SameLight(out + [r], seen + [r])
    ensures out != [] && Joins(out[|out| - 1], r) && out[|out| - 1].x <= r.x ==>
              SameLight(out[..|out| - 1] + [Joined(out[|out| - 1], r)], seen + [r])
  {
    forall px, py
      ensures Lit(out + [r], px, py) <==> Lit(seen + [r], px, py)
      ensures out != [] && Joins(out[|out| - 1], r) && out[|out| - 1].x <= r.x ==>
                (Lit(out[..|out| - 1] + [Joined(out[|out| - 1], r)], px, py) <==> Lit(seen + [r], px, py))
    {
      LitSnoc(out, r, px, py);
      LitSnoc(seen, r, px, py);
      assert Lit(out, px, py) <==> Lit(seen, px, py);
      if out != [] && Joins(out[|out| - 1], r) && out[|out| - 1].x <= r.x {
        var front, prev := out[..|out| - 1], out[|out| - 1];
        LitSnoc(front, prev, px, py);
        LitSnoc(front, Joined(prev, r), px, py);
        assert front + [prev] == out;
      }
    }
  }

  /** One merging pass over rectangles in row order. */
  method MergeRows(sorted: seq<Rect>, ghost width: nat, ghost height: nat) returns (out: seq<Rect>)
    requires SortedBy(sorted, RowOrder) && AllOnFrame(sorted, width, height)
    ensures SameLight(out, sorted) && AllOnFrame(out, width, height) && |out| <= |sorted| && (sorted != [] ==> out != [])
  {
    out := [];
    for i := 0 to |sorted|
      invariant SameLight(out, sorted[..i]) && AllOnFrame(out, width, height) && |out| <= i && (i > 0 ==> out != [])
      invariant out != [] ==> forall j :: i <= j < |sorted| && Joins(out[|out| - 1], sorted[j]) ==> out[|out| - 1].x <= sorted[j].x
    {
      var r := sorted[i];
      StepKeepsLight(out, sorted[..i], r, width, height);
      assert sorted[..i + 1] == sorted[..i] + [r];
      assert forall j :: i < j < |sorted| ==> RowOrder(r, sorted[j]);
      if out != [] && Joins(out[|out| - 1], r) {
        out := out[..|out| - 1] + [Joined(out[|out| - 1], r)];
      } else {
        out := out + [r];
      }
    }
    assert sorted[..|sorted|] == sorted;
  }

  // ----- the vertical pass is the horizontal one with the axes exchanged

  function Flip(r: Rect): Rect { Rect(r.y, r.x, r.h, r.w) }

  function FlipAll(rects: seq<Rect>): (f: seq<Rect>)
    ensures |f| == |rects| && forall i :: 0 <= i < |f| ==> f[i] == Flip(rects[i])
  {
    seq(|rects|, i requires 0 <= i < |rects| => Flip(rects[i]))
  }

  lemma FlipLight(rects: seq<Rect>, px: int, py: int)
    ensures Lit(FlipAll(rects), py, px) <==> Lit(rects, px, py)
  {
    var f := FlipAll(rects);
    if Lit(rects, px, py) {
      var i :| 0 <= i < |rects| && rects[i].Has(px, py);
      assert f[i].Has(py, px);
    }
    if Lit(f, py, px) {
      var i :| 0 <= i < |f| && f[i].Has(py, px);
      assert rects[i].Has(px, py);
    }
  }

  lemma FlipSame(a: seq<Rect>, b: seq<Rect>)
    requires SameLight(a, FlipAll(b))
    ensures SameLight(FlipAll(a), b)
  {
    forall px, py
      ensures Lit(FlipAll(a), px, py) <==> Lit(b, px, py)
    {
      FlipLight(a, py, px);
      FlipLight(b, px, py);
    }
  }

  lemma SameMembersSameLight(a: seq<Rect>, b: seq<Rect>)
    requires forall r :: r in a <==> r in b
    ensures SameLight(a, b)
  {
    forall px, py
      ensures Lit(a, px, py) <==> Lit(b, px, py)
    {
      if Lit(a, px, py) {
        var i :| 0 <= i < |a| && a[i].Has(px, py);
        assert a[i] in b;
      }
      if Lit(b, px, py) {
        var i :| 0 <= i < |b| && b[i].Has(px, py);
        assert b[i] in a;
      }
    }
  }

  method SortAndMerge(rects: seq<Rect>, ghost width: nat, ghost height: nat) returns (out: seq<Rect>)
    requires AllOnFrame(rects, width, height)
    ensures SameLight(out, rects) && AllOnFrame(out, width, height) && |out| <= |rects| && (rects != [] ==> out != [])
  {
    var sorted := Sort(rects, RowOrder);
    RowOrderIsTotal();
    SortSorts(rects, RowOrder);
    SortKeepsMembers(rects, RowOrder);
    SameMembersSameLight(sorted, rects);
    forall i | 0 <= i < |sorted| ensures OnFrame(sorted[i], width, height) {
      assert sorted[i] in rects;
    }
    out := MergeRows(sorted, width, height);
  }

  ghost predicate LitOnFrame(rects: seq<Rect>, width: nat, height: nat, px: int, py: int)
  {
    Lit(rects, px, py) && 0 <= px < width <= U16_MAX && 0 <= py < height <= U16_MAX
  }

  method ClampAll(rects: seq<Rect>, width: nat, height: nat) returns (out: seq<Rect>)
    requires forall i :: 0 <= i < |rects| ==> Fits16(rects[i])
    ensures AllOnFrame(out, width, height) && |out| <= |rects|
    ensures forall px, py :: Lit(out, px, py) <==> LitOnFrame(rects, width, height, px, py)
  {
    out := [];
    for i := 0 to |rects|
      invariant AllOnFrame(out, width, height) && |out| <= i
      invariant forall px, py :: Lit(out, px, py) <==> LitOnFrame(rects[..i], width, height, px, py)
    {
      var c := Clamp(rects[i], width, height);
      assert rects[..i + 1] == rects[..i] + [rects[i]];
      ghost var before := out;
      if c.Some? {
        out := out + [c.value];
      }
      forall px, py
        ensures Lit(out, px, py) <==> LitOnFrame(rects[..i + 1], width, height, px, py)
      {
        ClampIntersects(rects[i], width, height, px, py);
        LitSnoc(rects[..i], rects[i], px, py);
        assert Lit(before, px, py) <==> LitOnFrame(rects[..i], width, height, px, py);
        if c.Some? {
          LitSnoc(before, c.value, px, py);
        }
      }
      ClampIntersects(rects[i], width, height, 0, 0);
    }
    assert rects[..|rects|] == rects;
  }

  /** coalesce_dirty_texture_rects: no more rectangles than before, and exactly the pixels of the frame that were lit. */
  method Coalesce(rects: seq<Rect>, width: nat, height: nat) returns (out: seq<Rect>)
    requires forall i :: 0 <= i < |rects| ==> Fits16(rects[i])
    ensures AllOnFrame(out, width, height) && |out| <= |rects|
    ensures forall px, py :: Lit(out, px, py) <==> LitOnFrame(rects, width, height, px, py)
  {
    if rects == [] {
      return [];
    }
    var clamped := ClampAll(rects, width, height);
    if clamped == [] {
      return [];
    }
    out := SortAndMerge(clamped, width, height);
    if |out| > 1 {
      var flipped := FlipAll(out);
      var merged := SortAndMerge(flipped, height, width);
      FlipSame(merged, out);
      out := FlipAll(merged);
    }
  }
}
