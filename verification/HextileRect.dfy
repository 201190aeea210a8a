/** A whole Hextile rectangle: what the fills and blits of its tiles add up to, pixel by pixel. */
module HextileRect {
  import opened Arith
  import opened Bytes
  import opened Grid
  import opened Tiles
  import opened HextileTile

  /** Subrectangles filled one after another over a tile at (tx, ty). */
  function FillSubs(g: seq<byte>, s: Shape, tx: nat, ty: nat, subs: seq<Sub>): (g': seq<byte>)
    requires |g| == s.Size()
    requires forall i :: 0 <= i < |subs| ==>
               |subs[i].colour| == s.bypp && Fits(s, tx + subs[i].x, ty + subs[i].y, subs[i].w, subs[i].h)
    ensures |g'| == |g|
  {
    if subs == [] then g
    else
      var last := subs[|subs| - 1];
      Fill(FillSubs(g, s, tx, ty, subs[..|subs| - 1]), s, tx + last.x, ty + last.y, last.w, last.h, last.colour)
  }

  lemma SubsFit(s: Shape, r: nat, c: nat, t: Tile)
    requires r * TILE < s.height && c * TILE < s.width && t.Painted?
    requires ValidTile(t, s.bypp, Extent(s.width, TILE, c), Extent(s.height, TILE, r))
    ensures forall i :: 0 <= i < |t.subs| ==>
              |t.subs[i].colour| == s.bypp
              && Fits(s, c * TILE + t.subs[i].x, r * TILE + t.subs[i].y, t.subs[i].w, t.subs[i].h)
  {
    forall i | 0 <= i < |t.subs|
      ensures Fits(s, c * TILE + t.subs[i].x, r * TILE + t.subs[i].y, t.subs[i].w, t.subs[i].h)
    {
      assert SubFits(t.subs[i], Extent(s.width, TILE, c), Extent(s.height, TILE, r));
    }
  }

  /** What the decoder does to the buffer for one tile. */
  function ApplyTile(g: seq<byte>, s: Shape, r: nat, c: nat, t: Tile): (g': seq<byte>)
    requires |g| == s.Size() && r * TILE < s.height && c * TILE < s.width
    requires ValidTile(t, s.bypp, Extent(s.width, TILE, c), Extent(s.height, TILE, r))
    ensures |g'| == |g|
  {
    var w, h := Extent(s.width, TILE, c), Extent(s.height, TILE, r);
    match t
    case RawTile(pixels) => Blit(g, s, c * TILE, r * TILE, w, h, pixels)
    case Painted(background, subs) =>
      SubsFit(s, r, c, t);
      FillSubs(Fill(g, s, c * TILE, r * TILE, w, h, background), s, c * TILE, r * TILE, subs)
  }

  /** Inside a tile the last subrectangle covering a pixel decides it; subrectangles reach nothing else. */
  lemma {:induction false} FillSubsPixel(g: seq<byte>, s: Shape, tx: nat, ty: nat, subs: seq<Sub>, w: nat, h: nat,
                                         background: seq<byte>, px: nat, py: nat)
    requires |g| == s.Size() && Fits(s, tx, ty, w, h) && px < s.width && py < s.height
    requires forall i :: 0 <= i < |subs| ==> |subs[i].colour| == s.bypp && SubFits(subs[i], w, h)
    requires Inside(px, py, tx, ty, w, h) ==> Pixel(g, s, px, py) == background
    ensures forall i :: 0 <= i < |subs| ==> Fits(s, tx + subs[i].x, ty + subs[i].y, subs[i].w, subs[i].h)
    ensures Pixel(FillSubs(g, s, tx, ty, subs), s, px, py)
            == if Inside(px, py, tx, ty, w, h) then ColourAt(background, subs, px - tx, py - ty)
               else Pixel(g, s, px, py)
    decreases |subs|
  {
    hide Fill, Pixel;
    if subs != [] {
      var init, last := subs[..|subs| - 1], subs[|subs| - 1];
      assert SubFits(last, w, h);
      FillSubsPixel(g, s, tx, ty, init, w, h, background, px, py);
      FillPixel(FillSubs(g, s, tx, ty, init), s, tx + last.x, ty + last.y, last.w, last.h, last.colour, px, py);
    }
  }

  /** The fills and blits of a tile put its picture in its place and touch nothing else. */
  lemma ApplyTilePixel(g: seq<byte>, s: Shape, r: nat, c: nat, t: Tile, px: nat, py: nat)
    requires |g| == s.Size() && r * TILE < s.height && c * TILE < s.width && px < s.width && py < s.height
    requires ValidTile(t, s.bypp, Extent(s.width, TILE, c), Extent(s.height, TILE, r))
    ensures var w, h := Extent(s.width, TILE, c), Extent(s.height, TILE, r);
            py / TILE == r && px / TILE == c ==> PixelNo(s, TILE, px, py) < w * h
    ensures Pixel(ApplyTile(g, s, r, c, t), s, px, py)
            == if py / TILE == r && px / TILE == c
               then PixelOf(t, s.bypp, Extent(s.width, TILE, c), Extent(s.height, TILE, r), PixelNo(s, TILE, px, py))
               else Pixel(g, s, px, py)
  {
    hide Blit, Fill, Pixel, FillSubs;
    var w, h := Extent(s.width, TILE, c), Extent(s.height, TILE, r);
    TileOfPixel(px, s.width, TILE, c);
    TileOfPixel(py, s.height, TILE, r);
    match t
    case RawTile(pixels) =>
      BlitPixel(g, s, c * TILE, r * TILE, w, h, pixels, px, py);
    case Painted(background, subs) =>
      SubsFit(s, r, c, t);
      FillPixel(g, s, c * TILE, r * TILE, w, h, background, px, py);
      FillSubsPixel(Fill(g, s, c * TILE, r * TILE, w, h, background), s, c * TILE, r * TILE, subs, w, h,
                    background, px, py);
      if py / TILE == r && px / TILE == c {
        WithinTile(px, py, s, TILE);
        DivMod(PixelNo(s, TILE, px, py), w, py % TILE, px % TILE);
      }
  }

  // ---------------------------------------------------------------- the whole rectangle

  /** More: the stream ends inside the rectangle. */
  datatype RectRead = More | Bad(why: Reason) | Done(grid: seq<byte>, rest: seq<byte>)

  function ReadTiles(s: Shape, r: nat, c: nat, carried: Carried, data: seq<byte>, g: seq<byte>): (d: RectRead)
    requires |g| == s.Size() && ValidCarried(carried, s.bypp)
    ensures d.Done? ==> |d.grid| == s.Size()
    decreases s.height - r * TILE, s.width - c * TILE
  {
    if r * TILE >= s.height then Done(g, data)
    else if c * TILE >= s.width then ReadTiles(s, r + 1, 0, carried, data, g)
    else
      var w, h := Extent(s.width, TILE, c), Extent(s.height, TILE, r);
      TileIsValid(carried, s.bypp, w, h, data);
      match ReadTile(carried, s.bypp, w, h, data)
      case More => RectRead.More
      case Bad(why) => RectRead.Bad(why)
      case Got(t, next, rest) => ReadTiles(s, r, c + 1, next, rest, ApplyTile(g, s, r, c, t))
  }

  /** The tile read at `(r', c')` by the walk from `(r, c)` on. */
  function TileRead(s: Shape, r: nat, c: nat, carried: Carried, data: seq<byte>, r': nat, c': nat): Option<Tile>
    requires ValidCarried(carried, s.bypp)
    decreases s.height - r * TILE, s.width - c * TILE
  {
    if r * TILE >= s.height then None
    else if c * TILE >= s.width then TileRead(s, r + 1, 0, carried, data, r', c')
    else
      var w, h := Extent(s.width, TILE, c), Extent(s.height, TILE, r);
      TileIsValid(carried, s.bypp, w, h, data);
      match ReadTile(carried, s.bypp, w, h, data)
      case More => None
      case Bad(_) => None
      case Got(t, next, rest) => if r == r' && c == c' then Some(t) else TileRead(s, r, c + 1, next, rest, r', c')
  }

  /** Pixel (px, py) of tile `t` at its place in the rectangle. */
  function PixelIn(s: Shape, t: Tile, px: nat, py: nat): seq<byte>
    requires px < s.width && py < s.height
    requires (px / TILE) * TILE < s.width && (py / TILE) * TILE < s.height
    requires ValidTile(t, s.bypp, Extent(s.width, TILE, px / TILE), Extent(s.height, TILE, py / TILE))
  {
    PixelOf(t, s.bypp, Extent(s.width, TILE, px / TILE), Extent(s.height, TILE, py / TILE), PixelNo(s, TILE, px, py))
  }

  lemma {:induction false} TilesPixel(s: Shape, r: nat, c: nat, carried: Carried, data: seq<byte>, g: seq<byte>,
                                      px: nat, py: nat)
    requires |g| == s.Size() && ValidCarried(carried, s.bypp) && px < s.width && py < s.height
    requires ReadTiles(s, r, c, carried, data, g).Done?
    ensures (px / TILE) * TILE < s.width && (py / TILE) * TILE < s.height
    ensures var grid := ReadTiles(s, r, c, carried, data, g).grid;
            if py / TILE < r || (py / TILE == r && px / TILE < c) then Pixel(grid, s, px, py) == Pixel(g, s, px, py)
            else
              var t := TileRead(s, r, c, carried, data, py / TILE, px / TILE);
              t.Some?
              && ValidTile(t.value, s.bypp, Extent(s.width, TILE, px / TILE), Extent(s.height, TILE, py / TILE))
              && Pixel(grid, s, px, py) == PixelIn(s, t.value, px, py)
    decreases s.height - r * TILE, s.width - c * TILE
  {
    hide ReadTile, ApplyTile, Pixel, Extent, PixelOf, PixelNo, ValidTile, ValidCarried;
    TileOfPixel(px, s.width, TILE, px / TILE);
    TileOfPixel(py, s.height, TILE, py / TILE);
    if r * TILE >= s.height {
    } else if c * TILE >= s.width {
      TilesPixel(s, r + 1, 0, carried, data, g, px, py);
    } else {
      var w, h := Extent(s.width, TILE, c), Extent(s.height, TILE, r);
      TileIsValid(carried, s.bypp, w, h, data);
      var got := ReadTile(carried, s.bypp, w, h, data);
      ApplyTilePixel(g, s, r, c, got.tile, px, py);
      TilesPixel(s, r, c + 1, got.carried, got.rest, ApplyTile(g, s, r, c, got.tile), px, py);
    }
  }

  /**
    Hextile refinement: on every accepted stream each pixel is the one its own tile's description gives it,
    whatever the buffer held, with the colours carried from tile to tile as `ReadTile` says.
   */
  lemma HextileIsTileByTile(s: Shape, data: seq<byte>, g: seq<byte>, px: nat, py: nat)
    requires |g| == s.Size() && px < s.width && py < s.height
    requires ReadTiles(s, 0, 0, NOTHING_CARRIED, data, g).Done?
    ensures (px / TILE) * TILE < s.width && (py / TILE) * TILE < s.height
    ensures var t := TileRead(s, 0, 0, NOTHING_CARRIED, data, py / TILE, px / TILE);
            t.Some?
            && ValidTile(t.value, s.bypp, Extent(s.width, TILE, px / TILE), Extent(s.height, TILE, py / TILE))
            && Pixel(ReadTiles(s, 0, 0, NOTHING_CARRIED, data, g).grid, s, px, py) == PixelIn(s, t.value, px, py)
  {
    TilesPixel(s, 0, 0, NOTHING_CARRIED, data, g, px, py);
  }
}
