/** Tile geometry: the tile sizes of the wire protocol, the rectangle of a tile on the frame and the
    base tiles of the configured grid that a rectangle touches (src/common/wd_tile.c and the two
    for_each_*_base_tile_* walks of the client). */
module TileGeometry {
  import opened Arithmetic

  const U16_MAX: nat := 0xFFFF
  const BYTES_PER_PIXEL: nat := 4

  datatype Rect = Rect(x: int, y: int, w: int, h: int) {
    predicate Has(px: int, py: int) { x <= px < x + w && y <= py < y + h }
  }

  /** The part of the server configuration that tile handling reads. */
  datatype Config = Config(sessionId: nat, token: nat, width: nat, height: nat, tileWidth: nat, tileHeight: nat,
                           tilesX: nat, tilesY: nat, totalTiles: nat, udpPayloadTarget: nat)

  function TileWidth(size: nat): nat { if size == 0 then 128 else if size == 1 then 64 else if size == 2 then 32 else 16 }

  function TileHeight(size: nat): nat { if size <= 1 then 64 else if size == 2 then 32 else 16 }

  predicate TileSizeKnown(size: nat) { size < 4 }

  /** Tiles needed for an extent, 0 where there is no 16-bit count. */
  function TilesFor(extent: nat, tile: nat): nat
  {
    if extent == 0 || tile == 0 then 0 else
      var count := Quotient(extent + tile - 1, tile);
      if count <= 0 || count > U16_MAX then 0 else count
  }

  /** What client_config_validation.cpp checks before a configuration is used. */
  predicate ValidConfig(c: Config)
  {
    && 0 < c.width <= U16_MAX && 0 < c.height <= U16_MAX
    && (exists size: nat | size < 4 :: c.tileWidth == TileWidth(size) && c.tileHeight == TileHeight(size))
    && c.tilesX == TilesFor(c.width, c.tileWidth) > 0
    && c.tilesY == TilesFor(c.height, c.tileHeight) > 0
    && c.totalTiles == Product(c.tilesX, c.tilesY) <= U16_MAX
  }

  function Visible(extent: int, start: int, tile: int): int
  {
    if start >= extent then 0 else Min(extent - start, tile)
  }

  /** The visible rectangle of tile id in the grid of tiles of the given size. */
  function TileRect(c: Config, size: nat, id: nat): Rect
  {
    var tilesX := TilesFor(c.width, TileWidth(size));
    if tilesX == 0 then Rect(0, 0, 0, 0) else
      var x := Product(Remainder(id, tilesX), TileWidth(size));
      var y := Product(Quotient(id, tilesX), TileHeight(size));
      Rect(x, y, Visible(c.width, x, TileWidth(size)), Visible(c.height, y, TileHeight(size)))
  }

  predicate TileIdKnown(c: Config, size: nat, id: nat)
  {
    && TileSizeKnown(size)
    && var tilesX, tilesY := TilesFor(c.width, TileWidth(size)), TilesFor(c.height, TileHeight(size));
       tilesX > 0 && tilesY > 0 && id < Product(tilesX, tilesY) <= U16_MAX
  }

  // ----- the walk over base tiles

  function RowIds(row: int, bx0: int, bx1: int, tilesX: int): seq<int>
    requires bx0 <= bx1 + 1
  {
    seq(bx1 + 1 - bx0, i => Product(row, tilesX) + bx0 + i)
  }

  function GridIds(by0: int, by1: int, bx0: int, bx1: int, tilesX: int): seq<int>
    requires bx0 <= bx1 + 1
    decreases by1 - by0
  {
    if by0 > by1 then [] else RowIds(by0, bx0, bx1, tilesX) + GridIds(by0 + 1, by1, bx0, bx1, tilesX)
  }

  /** Base tiles visited for a rectangle, in the order of the source's two loops. */
  function Covered(c: Config, r: Rect): (ids: seq<int>)
    requires ValidConfig(c)
  {
    if r.w <= 0 || r.h <= 0 then [] else
      var bx0, by0 := Quotient(r.x, c.tileWidth), Quotient(r.y, c.tileHeight);
      var bx1 := Min(Quotient(r.x + r.w - 1, c.tileWidth), c.tilesX - 1);
      var by1 := Min(Quotient(r.y + r.h - 1, c.tileHeight), c.tilesY - 1);
      if bx0 > bx1 then [] else GridIds(by0, by1, bx0, bx1, c.tilesX)
  }

  function CoveredByTile(c: Config, size: nat, id: nat): (ids: seq<int>)
    requires ValidConfig(c)
  {
    Covered(c, TileRect(c, size, id))
  }

  // ----- which base tiles those are

  function BaseTileOf(c: Config, px: int, py: int): int
    requires ValidConfig(c)
  {
    Product(Quotient(py, c.tileHeight), c.tilesX) + Quotient(px, c.tileWidth)
  }

  predicate InFrame(c: Config, r: Rect)
  {
    0 <= r.x && 0 <= r.y && 0 <= r.w && 0 <= r.h && r.x + r.w <= c.width && r.y + r.h <= c.height
  }

  lemma {:induction false} GridIdsAre(by0: int, by1: int, bx0: int, bx1: int, tilesX: int, b: int)
    requires 0 <= bx0 <= bx1 < tilesX
    ensures b in GridIds(by0, by1, bx0, bx1, tilesX)
       <==> by0 <= Quotient(b, tilesX) <= by1 && bx0 <= Remainder(b, tilesX) <= bx1
    decreases by1 - by0
  {
    if by0 <= by1 {
      GridIdsAre(by0 + 1, by1, bx0, bx1, tilesX, b);
      var row := RowIds(by0, bx0, bx1, tilesX);
      Divide(b, tilesX);
      if b in row {
        var i :| 0 <= i < |row| && row[i] == b;
        DivUnique(b, tilesX, by0, bx0 + i);
      }
      if Quotient(b, tilesX) == by0 && bx0 <= Remainder(b, tilesX) <= bx1 {
        assert row[Remainder(b, tilesX) - bx0] == b;
      }
    }
  }

  /** A coordinate range touches block q of length d exactly when q lies between its end quotients. */
  lemma RangeTouches(start: int, len: int, d: int, q: int) returns (p: int)
    requires len > 0 && d > 0
    ensures Quotient(start, d) <= q <= Quotient(start + len - 1, d) ==> start <= p < start + len && Quotient(p, d) == q
  {
    p := if start < Product(q, d) then Product(q, d) else start;
    QuotientBlock(start, d, q);
    QuotientBlock(start + len - 1, d, q);
    QuotientBlock(p, d, q);
  }

  lemma QuotientsOrdered(a: int, b: int, d: int)
    requires a <= b && d > 0
    ensures Quotient(a, d) <= Quotient(b, d)
  {
    QuotientBlock(a, d, Quotient(a, d));
    QuotientBlock(b, d, Quotient(a, d));
  }

  /** The last pixel of the frame lies in the last column (row) of the grid. */
  lemma LastTile(extent: nat, tile: nat, p: int)
    requires 0 <= p < extent && TilesFor(extent, tile) > 0
    ensures 0 <= Quotient(p, tile) < TilesFor(extent, tile)
  {
    var n := TilesFor(extent, tile);
    QuotientBlock(extent + tile - 1, tile, n);
    QuotientBlock(p, tile, n);
    QuotientBlock(p, tile, 0);
  }

  /** Covered is exact: the base tiles of a rectangle on the frame are those owning one of its pixels. */
  lemma CoveredOwnsAPixel(c: Config, r: Rect, b: int)
    requires ValidConfig(c) && InFrame(c, r)
    ensures b in Covered(c, r) <==> exists px, py :: r.Has(px, py) && BaseTileOf(c, px, py) == b
  {
    if r.w > 0 && r.h > 0 {
      var bx0, by0 := Quotient(r.x, c.tileWidth), Quotient(r.y, c.tileHeight);
      var bx1, by1 := Quotient(r.x + r.w - 1, c.tileWidth), Quotient(r.y + r.h - 1, c.tileHeight);
      LastTile(c.width, c.tileWidth, r.x);
      LastTile(c.width, c.tileWidth, r.x + r.w - 1);
      LastTile(c.height, c.tileHeight, r.y + r.h - 1);
      QuotientsOrdered(r.x, r.x + r.w - 1, c.tileWidth);
      GridIdsAre(by0, by1, bx0, bx1, c.tilesX, b);
      Divide(b, c.tilesX);
      if b in Covered(c, r) {
        var px := RangeTouches(r.x, r.w, c.tileWidth, Remainder(b, c.tilesX));
        var py := RangeTouches(r.y, r.h, c.tileHeight, Quotient(b, c.tilesX));
        assert r.Has(px, py) && BaseTileOf(c, px, py) == b;
      }
      forall px, py | r.Has(px, py) && BaseTileOf(c, px, py) == b
        ensures b in Covered(c, r)
      {
        PixelInGrid(c, r, px, py);
      }
    }
  }

  lemma PixelInGrid(c: Config, r: Rect, px: int, py: int)
    requires ValidConfig(c) && InFrame(c, r) && r.Has(px, py)
    ensures Quotient(r.x, c.tileWidth) <= Quotient(px, c.tileWidth) <= Quotient(r.x + r.w - 1, c.tileWidth)
    ensures Quotient(r.y, c.tileHeight) <= Quotient(py, c.tileHeight) <= Quotient(r.y + r.h - 1, c.tileHeight)
    ensures Quotient(BaseTileOf(c, px, py), c.tilesX) == Quotient(py, c.tileHeight)
    ensures Remainder(BaseTileOf(c, px, py), c.tilesX) == Quotient(px, c.tileWidth)
  {
    QuotientsOrdered(r.x, px, c.tileWidth);
    QuotientsOrdered(px, r.x + r.w - 1, c.tileWidth);
    QuotientsOrdered(r.y, py, c.tileHeight);
    QuotientsOrdered(py, r.y + r.h - 1, c.tileHeight);
    LastTile(c.width, c.tileWidth, px);
    DivUnique(BaseTileOf(c, px, py), c.tilesX, Quotient(py, c.tileHeight), Quotient(px, c.tileWidth));
  }

  /** Covered base tiles are tiles of the base grid. */
  lemma CoveredInGrid(c: Config, r: Rect, b: int)
    requires ValidConfig(c) && InFrame(c, r) && b in Covered(c, r)
    ensures 0 <= b < c.totalTiles
  {
    CoveredOwnsAPixel(c, r, b);
    var px, py :| r.Has(px, py) && BaseTileOf(c, px, py) == b;
    LastTile(c.width, c.tileWidth, px);
    LastTile(c.height, c.tileHeight, py);
    var row := Quotient(py, c.tileHeight);
    ProductAdd(row, 1, c.tilesX);
    ProductMonotone(row + 1, c.tilesY, c.tilesX);
    MulBound(0, 0, row, c.tilesX);
    assert Product(c.tilesY, c.tilesX) == Product(c.tilesX, c.tilesY);
  }

  /** A tile of any size lies on the frame and shows at least one pixel. */
  lemma TileRectOnFrame(c: Config, size: nat, id: nat)
    requires ValidConfig(c) && TileIdKnown(c, size, id)
    ensures InFrame(c, TileRect(c, size, id)) && TileRect(c, size, id).w > 0 && TileRect(c, size, id).h > 0
  {
    var tilesX, tilesY := TilesFor(c.width, TileWidth(size)), TilesFor(c.height, TileHeight(size));
    Divide(id, tilesX);
    var col, row := Remainder(id, tilesX), Quotient(id, tilesX);
    QuotientBlock(id, tilesX, tilesY);
    assert Product(tilesY, tilesX) == Product(tilesX, tilesY);
    TileStart(c.width, TileWidth(size), col);
    TileStart(c.height, TileHeight(size), row);
  }

  lemma TileStart(extent: nat, tile: nat, i: int)
    requires 0 <= i < TilesFor(extent, tile)
    ensures 0 <= Product(i, tile) < extent
  {
    QuotientBlock(extent + tile - 1, tile, i + 1);
    ProductAdd(i, 1, tile);
    MulBound(0, 0, i, tile);
  }

  lemma TileCovers(c: Config, size: nat, id: nat)
    requires ValidConfig(c) && TileIdKnown(c, size, id)
    ensures CoveredByTile(c, size, id) != []
    ensures forall k :: 0 <= k < |CoveredByTile(c, size, id)| ==> 0 <= CoveredByTile(c, size, id)[k] < c.totalTiles
  {
    var r := TileRect(c, size, id);
    TileRectOnFrame(c, size, id);
    CoveredOwnsAPixel(c, r, BaseTileOf(c, r.x, r.y));
    assert r.Has(r.x, r.y);
    forall k | 0 <= k < |Covered(c, r)| ensures 0 <= Covered(c, r)[k] < c.totalTiles {
      CoveredInGrid(c, r, Covered(c, r)[k]);
    }
  }
}
