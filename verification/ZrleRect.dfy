/** A whole ZRLE rectangle: its tiles in row-major order, 64 pixels a side. */
module ZrleRect {
  import opened Arith
  import opened Bytes
  import opened Grid
  import opened Tiles
  import opened CPixels
  import opened ZrleTile
  import opened ZrleRoundTrip

  const TILE: nat := 64

  /** The tiles from `(r, c)` on, painted as they are read. */
  function ReadTiles(l: Layout, s: Shape, r: nat, c: nat, data: seq<byte>, g: seq<byte>): (d: Decoded<seq<byte>>)
    requires ValidLayout(l) && s.bypp == l.bypp && |g| == s.Size()
    ensures d.Ok? ==> |d.value| == s.Size()
    decreases s.height - r * TILE, s.width - c * TILE
  {
    if r * TILE >= s.height then Ok(g, data)
    else if c * TILE >= s.width then ReadTiles(l, s, r + 1, 0, data, g)
    else
      match ReadTile(l, Extent(s.width, TILE, c), Extent(s.height, TILE, r), data)
      case Bad(w) => Bad(w)
      case Ok(ps, rest) => ReadTiles(l, s, r, c + 1, rest, PaintTile(g, s, TILE, r, c, ps))
  }

  /** A rectangle painted onto `g`: its tiles must use up the data exactly. */
  function ReadOnto(l: Layout, s: Shape, data: seq<byte>, g: seq<byte>): (d: Decoded<seq<byte>>)
    requires ValidLayout(l) && s.bypp == l.bypp && |g| == s.Size()
    ensures d.Ok? ==> |d.value| == s.Size() && d.rest == []
  {
    match ReadTiles(l, s, 0, 0, data, g)
    case Bad(w) => Bad(w)
    case Ok(painted, rest) => if rest == [] then Ok(painted, []) else Bad(Leftover)
  }

  function ReadRect(l: Layout, s: Shape, data: seq<byte>): Decoded<seq<byte>>
    requires ValidLayout(l) && s.bypp == l.bypp
  {
    ReadOnto(l, s, data, Zeros(s.Size()))
  }

  // ---------------------------------------------------------------- describing a rectangle

  /** Tile `(r, c)` is there and valid for its extent. */
  predicate DescribesAt(l: Layout, s: Shape, tiles: seq<Tile>, r: nat, c: nat)
    requires ValidLayout(l)
  {
    r * TILE < s.height && c * TILE < s.width ==>
      TileNo(s, TILE, r, c) < |tiles|
      && ValidTile(l, tiles[TileNo(s, TILE, r, c)], Extent(s.width, TILE, c), Extent(s.height, TILE, r))
  }

  /** A valid tile description for every tile of the rectangle, row by row. */
  ghost predicate Describes(l: Layout, s: Shape, tiles: seq<Tile>)
    requires ValidLayout(l)
  {
    && |tiles| == Count(s.height, TILE) * Count(s.width, TILE)
    && forall r: nat, c: nat :: DescribesAt(l, s, tiles, r, c)
  }

  /** Row and column of tile number `k`. */
  lemma Place(s: Shape, k: nat)
    requires k < Count(s.height, TILE) * Count(s.width, TILE)
    ensures 0 < Count(s.width, TILE)
    ensures var r, c := k / Count(s.width, TILE), k % Count(s.width, TILE);
            r * TILE < s.height && c * TILE < s.width && TileNo(s, TILE, r, c) == k
  {
    RowInRange(k, Count(s.width, TILE), Count(s.height, TILE));
    CountIff(s.height, TILE, k / Count(s.width, TILE));
    CountIff(s.width, TILE, k % Count(s.width, TILE));
  }

  ghost function TileFor(l: Layout, s: Shape, tiles: seq<Tile>, r: nat, c: nat): (t: Tile)
    requires ValidLayout(l) && Describes(l, s, tiles) && r * TILE < s.height && c * TILE < s.width
    ensures ValidTile(l, t, Extent(s.width, TILE, c), Extent(s.height, TILE, r))
    ensures TileNo(s, TILE, r, c) < |tiles| && t == tiles[TileNo(s, TILE, r, c)]
  {
    assert DescribesAt(l, s, tiles, r, c);
    tiles[TileNo(s, TILE, r, c)]
  }

  ghost function PixelsFor(l: Layout, s: Shape, tiles: seq<Tile>, r: nat, c: nat): Pixels
    requires ValidLayout(l) && Describes(l, s, tiles) && r * TILE < s.height && c * TILE < s.width
  {
    TilePixels(l, TileFor(l, s, tiles, r, c), Extent(s.width, TILE, c), Extent(s.height, TILE, r))
  }

  /** The pixels of every tile. */
  ghost function PictureOf(l: Layout, s: Shape, tiles: seq<Tile>, k: nat): Pixels
    requires ValidLayout(l) && Describes(l, s, tiles) && k < |tiles|
  {
    Place(s, k);
    PixelsFor(l, s, tiles, k / Count(s.width, TILE), k % Count(s.width, TILE))
  }

  ghost function Pictures(l: Layout, s: Shape, tiles: seq<Tile>): (ps: seq<Pixels>)
    requires ValidLayout(l) && Describes(l, s, tiles)
    ensures |ps| == |tiles|
  {
    seq(|tiles|, k requires 0 <= k < |tiles| => PictureOf(l, s, tiles, k))
  }

  /** The encoding of the tiles from `(r, c)` on. */
  ghost function EncodeFrom(l: Layout, s: Shape, tiles: seq<Tile>, r: nat, c: nat): seq<byte>
    requires ValidLayout(l) && Describes(l, s, tiles)
    decreases s.height - r * TILE, s.width - c * TILE
  {
    if r * TILE >= s.height then []
    else if c * TILE >= s.width then EncodeFrom(l, s, tiles, r + 1, 0)
    else EncodeTile(l, TileFor(l, s, tiles, r, c), Extent(s.width, TILE, c), Extent(s.height, TILE, r))
         + EncodeFrom(l, s, tiles, r, c + 1)
  }

  lemma PicturesFit(l: Layout, s: Shape, tiles: seq<Tile>, r: nat, c: nat)
    requires ValidLayout(l) && s.bypp == l.bypp && Describes(l, s, tiles)
    requires r * TILE < s.height && c * TILE < s.width
    ensures TileNo(s, TILE, r, c) < |tiles|
    ensures Pictures(l, s, tiles)[TileNo(s, TILE, r, c)] == PixelsFor(l, s, tiles, r, c)
    ensures TileFits(s, TILE, r, c, PixelsFor(l, s, tiles, r, c))
  {
    var t := TileFor(l, s, tiles, r, c);
    CountIff(s.width, TILE, c);
    DivMod(TileNo(s, TILE, r, c), Count(s.width, TILE), r, c);
    TileReadsBack(l, t, Extent(s.width, TILE, c), Extent(s.height, TILE, r), []);
  }

  lemma PicturesComplete(l: Layout, s: Shape, tiles: seq<Tile>)
    requires ValidLayout(l) && s.bypp == l.bypp && Describes(l, s, tiles)
    ensures Complete(s, TILE, Pictures(l, s, tiles))
  {
    hide Pictures, PixelsFor, TileFits;
    forall r: nat, c: nat
      ensures FitsAt(s, TILE, Pictures(l, s, tiles), r, c)
    {
      if r * TILE < s.height && c * TILE < s.width { PicturesFit(l, s, tiles, r, c); }
    }
  }

  lemma {:induction false} TilesReadBack(l: Layout, s: Shape, tiles: seq<Tile>, r: nat, c: nat, rest: seq<byte>,
                                         g: seq<byte>)
    requires ValidLayout(l) && s.bypp == l.bypp && Describes(l, s, tiles) && |g| == s.Size()
    requires Complete(s, TILE, Pictures(l, s, tiles))
    ensures ReadTiles(l, s, r, c, EncodeFrom(l, s, tiles, r, c) + rest, g)
            == Ok(Mosaic(s, TILE, Pictures(l, s, tiles), r, c, g), rest)
    decreases s.height - r * TILE, s.width - c * TILE
  {
    hide Describes, Complete, Pictures, ReadTiles, EncodeFrom, Mosaic, ReadTile, EncodeTile, PaintTile, TileFits,
         PixelsFor;
    if r * TILE >= s.height || c * TILE >= s.width {
      RowEnd(l, s, tiles, r, c, rest, g);
      if r * TILE < s.height { TilesReadBack(l, s, tiles, r + 1, 0, rest, g); }
    } else {
      var ps := PixelsFor(l, s, tiles, r, c);
      var more := EncodeFrom(l, s, tiles, r, c + 1) + rest;
      TileStep(l, s, tiles, r, c, more);
      TilesReadBack(l, s, tiles, r, c + 1, rest, PaintTile(g, s, TILE, r, c, ps));
      EncodeStep(l, s, tiles, r, c, rest);
      ReadStep(l, s, r, c, EncodeFrom(l, s, tiles, r, c) + rest, g, ps, more);
      MosaicStep(l, s, tiles, r, c, g);
    }
  }

  lemma RowEnd(l: Layout, s: Shape, tiles: seq<Tile>, r: nat, c: nat, rest: seq<byte>, g: seq<byte>)
    requires ValidLayout(l) && s.bypp == l.bypp && Describes(l, s, tiles) && |g| == s.Size()
    requires Complete(s, TILE, Pictures(l, s, tiles)) && (r * TILE >= s.height || c * TILE >= s.width)
    ensures if r * TILE >= s.height
            then ReadTiles(l, s, r, c, EncodeFrom(l, s, tiles, r, c) + rest, g) == Ok(g, rest)
                 && Mosaic(s, TILE, Pictures(l, s, tiles), r, c, g) == g
            else EncodeFrom(l, s, tiles, r, c) == EncodeFrom(l, s, tiles, r + 1, 0)
                 && ReadTiles(l, s, r, c, EncodeFrom(l, s, tiles, r, c) + rest, g)
                    == ReadTiles(l, s, r + 1, 0, EncodeFrom(l, s, tiles, r, c) + rest, g)
                 && Mosaic(s, TILE, Pictures(l, s, tiles), r, c, g)
                    == Mosaic(s, TILE, Pictures(l, s, tiles), r + 1, 0, g)
  {
    hide Describes, Complete, Pictures, ReadTile, EncodeTile, PaintTile;
    assert [] + rest == rest;
  }

  lemma EncodeStep(l: Layout, s: Shape, tiles: seq<Tile>, r: nat, c: nat, rest: seq<byte>)
    requires ValidLayout(l) && Describes(l, s, tiles) && r * TILE < s.height && c * TILE < s.width
    ensures EncodeFrom(l, s, tiles, r, c) + rest
            == EncodeTile(l, TileFor(l, s, tiles, r, c), Extent(s.width, TILE, c), Extent(s.height, TILE, r))
               + (EncodeFrom(l, s, tiles, r, c + 1) + rest)
  {
    hide EncodeTile, Describes;
    ConcatAssociates(EncodeTile(l, TileFor(l, s, tiles, r, c), Extent(s.width, TILE, c), Extent(s.height, TILE, r)),
                     EncodeFrom(l, s, tiles, r, c + 1), rest);
  }

  lemma ReadStep(l: Layout, s: Shape, r: nat, c: nat, data: seq<byte>, g: seq<byte>, ps: Pixels, more: seq<byte>)
    requires ValidLayout(l) && s.bypp == l.bypp && |g| == s.Size() && r * TILE < s.height && c * TILE < s.width
    requires ReadTile(l, Extent(s.width, TILE, c), Extent(s.height, TILE, r), data) == Ok(ps, more)
    ensures TileFits(s, TILE, r, c, ps)
    ensures ReadTiles(l, s, r, c, data, g) == ReadTiles(l, s, r, c + 1, more, PaintTile(g, s, TILE, r, c, ps))
  {
    hide ReadTile, PaintTile;
  }

  lemma MosaicStep(l: Layout, s: Shape, tiles: seq<Tile>, r: nat, c: nat, g: seq<byte>)
    requires ValidLayout(l) && s.bypp == l.bypp && Describes(l, s, tiles) && |g| == s.Size()
    requires Complete(s, TILE, Pictures(l, s, tiles)) && r * TILE < s.height && c * TILE < s.width
    ensures TileFits(s, TILE, r, c, PixelsFor(l, s, tiles, r, c))
    ensures Mosaic(s, TILE, Pictures(l, s, tiles), r, c, g)
            == Mosaic(s, TILE, Pictures(l, s, tiles), r, c + 1, PaintTile(g, s, TILE, r, c,
                PixelsFor(l, s, tiles, r, c)))
  {
    hide PaintTile, Pictures, PixelsFor, Describes, Complete;
    PicturesFit(l, s, tiles, r, c);
  }

  lemma TileStep(l: Layout, s: Shape, tiles: seq<Tile>, r: nat, c: nat, more: seq<byte>)
    requires ValidLayout(l) && s.bypp == l.bypp && Describes(l, s, tiles) && Complete(s, TILE, Pictures(l, s, tiles))
    requires r * TILE < s.height && c * TILE < s.width
    ensures var w, h := Extent(s.width, TILE, c), Extent(s.height, TILE, r);
            ReadTile(l, w, h, EncodeTile(l, TileFor(l, s, tiles, r, c), w, h) + more)
            == Ok(PixelsFor(l, s, tiles, r, c), more)
    ensures TileFits(s, TILE, r, c, PixelsFor(l, s, tiles, r, c))
    ensures TileAt(s, TILE, Pictures(l, s, tiles), r, c) == PixelsFor(l, s, tiles, r, c)
  {
    hide ReadTile, EncodeTile, TilePixels, Pictures;
    TileReadsBack(l, TileFor(l, s, tiles, r, c), Extent(s.width, TILE, c), Extent(s.height, TILE, r), more);
    PicturesFit(l, s, tiles, r, c);
  }

  /**
    ZRLE round trip: for any rectangle and any valid tile descriptions, decoding their encoding uses up the
    data exactly, and every pixel is the one its tile describes.
   */
  lemma RectReadsBack(l: Layout, s: Shape, tiles: seq<Tile>, px: nat, py: nat)
    requires ValidLayout(l) && s.bypp == l.bypp && Describes(l, s, tiles)
    requires px < s.width && py < s.height
    ensures Complete(s, TILE, Pictures(l, s, tiles))
    ensures var d := ReadRect(l, s, EncodeFrom(l, s, tiles, 0, 0));
            d.Ok? && Pixel(d.value, s, px, py) == Described(s, TILE, Pictures(l, s, tiles), px, py)
  {
    hide Describes, Complete, Pictures, ReadTiles, EncodeFrom, Mosaic, Pixel, Described;
    var data := EncodeFrom(l, s, tiles, 0, 0);
    PicturesComplete(l, s, tiles);
    TilesReadBack(l, s, tiles, 0, 0, [], Zeros(s.Size()));
    assert data + [] == data;
    MosaicPixel(s, TILE, Pictures(l, s, tiles), 0, 0, Zeros(s.Size()), px, py);
  }
}
