/**
  Runs of pixels, and rectangles cut into tiles row by row: the walk Hextile and ZRLE share (sections
  7.7.4 and 7.7.6 of RFC 6143), with every pixel of the result traced to its own tile.
 */
module Tiles {
  import opened Arith
  import opened Bytes
  import opened Grid

  type Pixels = seq<seq<byte>>

  predicate Uniform(ps: Pixels, n: nat) { forall i :: 0 <= i < |ps| ==> |ps[i]| == n }

  function Join(ps: Pixels): seq<byte> {
    if ps == [] then [] else ps[0] + Join(ps[1..])
  }

  function Repeat(p: seq<byte>, n: nat): Pixels { seq(n, i => p) }

  lemma {:induction false} JoinLength(ps: Pixels, n: nat)
    requires Uniform(ps, n)
    ensures |Join(ps)| == |ps| * n
    decreases |ps|
  {
    if ps != [] {
      assert |ps[0]| == n;
      JoinLength(ps[1..], n);
      MulAdd(1, |ps| - 1, n);
    }
  }

  lemma {:induction false} JoinConcat(a: Pixels, b: Pixels)
    ensures Join(a + b) == Join(a) + Join(b)
    decreases |a|
  {
    if a == [] {
      assert a + b == b;
    } else {
      assert (a + b)[1..] == a[1..] + b;
      JoinConcat(a[1..], b);
      assert a[0] + (Join(a[1..]) + Join(b)) == (a[0] + Join(a[1..])) + Join(b);
    }
  }

  lemma {:induction false} NthOfJoin(ps: Pixels, n: nat, i: nat)
    requires Uniform(ps, n) && i < |ps|
    ensures (i + 1) * n <= |Join(ps)|
    ensures Nth(Join(ps), n, i) == ps[i]
    decreases |ps|
  {
    JoinLength(ps, n);
    MulMono(i + 1, |ps|, n);
    MulAdd(i, 1, n);
    assert |ps[0]| == n;
    if i > 0 {
      NthOfJoin(ps[1..], n, i - 1);
      MulAdd(i - 1, 1, n);
      JoinLength(ps[1..], n);
      assert Join(ps)[i * n..(i + 1) * n] == Join(ps[1..])[(i - 1) * n..i * n];
    }
  }

  lemma {:induction false} JoinRepeat(p: seq<byte>, n: nat)
    ensures Join(Repeat(p, n)) == Times(p, n)
  {
    if n > 0 {
      assert Repeat(p, n)[1..] == Repeat(p, n - 1);
      JoinRepeat(p, n - 1);
    }
  }

  // ---------------------------------------------------------------- the tile walk

  /** How many tiles of side `t` cover `len` pixels. */
  function Count(len: nat, t: nat): nat
    requires 0 < t
  {
    (len + t - 1) / t
  }

  /** The extent of tile `k`: full, or what is left at the edge. */
  function Extent(len: nat, t: nat, k: nat): (e: nat)
    requires 0 < t && k * t < len
    ensures 0 < e <= t && k * t + e <= len
  {
    if k * t + t <= len then t else len - k * t
  }

  lemma CountIff(len: nat, t: nat, k: nat)
    requires 0 < t
    ensures k < Count(len, t) <==> k * t < len
  {
    var n := Count(len, t);
    assert n * t <= len + t - 1 < n * t + t;
    MulAdd(k, 1, t);
    if k < n { MulMono(k + 1, n, t); }
    if n <= k { MulMono(n, k, t); }
  }

  /** A pixel lies in exactly the tile its coordinates divide to: the tiles partition the rectangle. */
  lemma TileOfPixel(p: nat, len: nat, t: nat, k: nat)
    requires 0 < t && p < len && k * t < len
    ensures k * t <= p < k * t + Extent(len, t, k) <==> p / t == k
    ensures p / t == k ==> p - k * t == p % t
    ensures (p / t) * t < len
  {
    assert p == (p / t) * t + p % t;
    if k * t <= p < k * t + t { DivMod(p, t, k, p - k * t); }
  }

  /** The tiles of a rectangle, each a run of pixels in row order. */
  predicate TileFits(s: Shape, t: nat, r: nat, c: nat, ps: Pixels)
    requires 0 < t && r * t < s.height && c * t < s.width
  {
    |ps| == Extent(s.width, t, c) * Extent(s.height, t, r) && Uniform(ps, s.bypp)
  }

  /** Tile `(r, c)` blitted at its place. */
  function PaintTile(g: seq<byte>, s: Shape, t: nat, r: nat, c: nat, ps: Pixels): (g': seq<byte>)
    requires 0 < t && r * t < s.height && c * t < s.width
    requires |g| == s.Size() && TileFits(s, t, r, c, ps)
    ensures |g'| == |g|
  {
    JoinLength(ps, s.bypp);
    Blit(g, s, c * t, r * t, Extent(s.width, t, c), Extent(s.height, t, r), Join(ps))
  }

  function TileNo(s: Shape, t: nat, r: nat, c: nat): nat
    requires 0 < t
  {
    r * Count(s.width, t) + c
  }

  predicate FitsAt(s: Shape, t: nat, tiles: seq<Pixels>, r: nat, c: nat)
    requires 0 < t
  {
    r * t < s.height && c * t < s.width ==>
      TileNo(s, t, r, c) < |tiles| && TileFits(s, t, r, c, tiles[TileNo(s, t, r, c)])
  }

  /** All tiles of a rectangle, row by row. */
  ghost predicate Complete(s: Shape, t: nat, tiles: seq<Pixels>)
    requires 0 < t
  {
    forall r: nat, c: nat :: FitsAt(s, t, tiles, r, c)
  }

  /** Tile `(r, c)` of a complete list. */
  ghost function TileAt(s: Shape, t: nat, tiles: seq<Pixels>, r: nat, c: nat): (ps: Pixels)
    requires 0 < t && Complete(s, t, tiles) && r * t < s.height && c * t < s.width
    ensures TileFits(s, t, r, c, ps)
    ensures TileNo(s, t, r, c) < |tiles| && ps == tiles[TileNo(s, t, r, c)]
  {
    assert FitsAt(s, t, tiles, r, c);
    tiles[TileNo(s, t, r, c)]
  }

  /** The walk from tile `(r, c)` on, painting onto `g`. */
  ghost function Mosaic(s: Shape, t: nat, tiles: seq<Pixels>, r: nat, c: nat, g: seq<byte>): (g': seq<byte>)
    requires 0 < t && |g| == s.Size() && Complete(s, t, tiles)
    ensures |g'| == |g|
    decreases s.height - r * t, s.width - c * t
  {
    MulAdd(r, 1, t);
    MulAdd(c, 1, t);
    if r * t >= s.height then g
    else if c * t >= s.width then Mosaic(s, t, tiles, r + 1, 0, g)
    else Mosaic(s, t, tiles, r, c + 1, PaintTile(g, s, t, r, c, TileAt(s, t, tiles, r, c)))
  }

  /** Which of its tile's pixels (px, py) is. */
  function PixelNo(s: Shape, t: nat, px: nat, py: nat): (n: nat)
    requires 0 < t && px < s.width && py < s.height
    ensures (px / t) * t < s.width && (py / t) * t < s.height
    ensures n < Extent(s.width, t, px / t) * Extent(s.height, t, py / t)
  {
    TileOfPixel(px, s.width, t, px / t);
    TileOfPixel(py, s.height, t, py / t);
    IndexIn(px % t, py % t, Extent(s.width, t, px / t), Extent(s.height, t, py / t))
  }

  function IndexIn(x: nat, y: nat, w: nat, h: nat): (n: nat)
    requires x < w && y < h
    ensures n < w * h
  {
    InArea(y, x, w, h);
    MulSwap(1, h, w);
    y * w + x
  }

  /** The tile (px, py) is in. */
  ghost function TileHolding(s: Shape, t: nat, tiles: seq<Pixels>, px: nat, py: nat): (ps: Pixels)
    requires 0 < t && Complete(s, t, tiles) && px < s.width && py < s.height
    ensures (px / t) * t < s.width && (py / t) * t < s.height && ps == TileAt(s, t, tiles, py / t, px / t)
    ensures PixelNo(s, t, px, py) < |ps|
  {
    WithinTile(px, py, s, t);
    TileAt(s, t, tiles, py / t, px / t)
  }

  /** The pixel that tile data describes at (px, py). */
  ghost function Described(s: Shape, t: nat, tiles: seq<Pixels>, px: nat, py: nat): seq<byte>
    requires 0 < t && Complete(s, t, tiles) && px < s.width && py < s.height
  {
    TileHolding(s, t, tiles, px, py)[PixelNo(s, t, px, py)]
  }

  lemma WithinTile(px: nat, py: nat, s: Shape, t: nat)
    requires 0 < t && px < s.width && py < s.height
    ensures (px / t) * t < s.width && (py / t) * t < s.height
    ensures (py % t) * Extent(s.width, t, px / t) + px % t < Extent(s.width, t, px / t) * Extent(s.height, t, py / t)
  {
    TileOfPixel(px, s.width, t, px / t);
    TileOfPixel(py, s.height, t, py / t);
    var w, h := Extent(s.width, t, px / t), Extent(s.height, t, py / t);
    InArea(py % t, px % t, w, h);
    assert h * w == w * h;
  }

  lemma PaintTilePixel(g: seq<byte>, s: Shape, t: nat, r: nat, c: nat, ps: Pixels, px: nat, py: nat)
    requires 0 < t && r * t < s.height && c * t < s.width
    requires |g| == s.Size() && TileFits(s, t, r, c, ps) && px < s.width && py < s.height
    ensures py / t == r && px / t == c ==> PixelNo(s, t, px, py) < |ps|
    ensures Pixel(PaintTile(g, s, t, r, c, ps), s, px, py)
            == if py / t == r && px / t == c then ps[PixelNo(s, t, px, py)] else Pixel(g, s, px, py)
  {
    hide Blit, Pixel, Nth, Extent, Shape.Size;
    var w, h := Extent(s.width, t, c), Extent(s.height, t, r);
    TileOfPixel(px, s.width, t, c);
    TileOfPixel(py, s.height, t, r);
    WithinTile(px, py, s, t);
    JoinLength(ps, s.bypp);
    BlitPixel(g, s, c * t, r * t, w, h, Join(ps), px, py);
    if py / t == r && px / t == c {
      NthOfJoin(ps, s.bypp, (py % t) * w + px % t);
    }
  }

  /** The walk paints each pixel once, in its own tile's turn. */
  lemma {:induction false} MosaicPixel(s: Shape, t: nat, tiles: seq<Pixels>, r: nat, c: nat, g: seq<byte>, px: nat,
                                       py: nat)
    requires 0 < t && |g| == s.Size() && Complete(s, t, tiles) && px < s.width && py < s.height
    ensures Pixel(Mosaic(s, t, tiles, r, c, g), s, px, py)
            == if py / t < r || (py / t == r && px / t < c) then Pixel(g, s, px, py)
               else Described(s, t, tiles, px, py)
    decreases s.height - r * t, s.width - c * t
  {
    hide PaintTile, Pixel, Complete, TileFits, TileNo, TileAt, Described, PixelNo, Extent, Count, FitsAt, Shape.Size,
         Shape.Stride;
    MulAdd(r, 1, t);
    MulAdd(c, 1, t);
    TileBefore(px, s.width, t, c);
    TileBefore(py, s.height, t, r);
    if r * t >= s.height {
    } else if c * t >= s.width {
      MosaicPixel(s, t, tiles, r + 1, 0, g, px, py);
    } else {
      var ps := TileAt(s, t, tiles, r, c);
      MosaicPixel(s, t, tiles, r, c + 1, PaintTile(g, s, t, r, c, ps), px, py);
      PaintTilePixel(g, s, t, r, c, ps, px, py);
      if py / t == r && px / t == c { DescribedAt(s, t, tiles, r, c, px, py); }
    }
  }

  lemma DescribedAt(s: Shape, t: nat, tiles: seq<Pixels>, r: nat, c: nat, px: nat, py: nat)
    requires 0 < t && Complete(s, t, tiles) && px < s.width && py < s.height && py / t == r && px / t == c
    ensures r * t < s.height && c * t < s.width
    ensures PixelNo(s, t, px, py) < |TileAt(s, t, tiles, r, c)|
    ensures Described(s, t, tiles, px, py) == TileAt(s, t, tiles, r, c)[PixelNo(s, t, px, py)]
  {
    var n := PixelNo(s, t, px, py);
  }

  lemma TileBefore(p: nat, len: nat, t: nat, k: nat)
    requires 0 < t && p < len
    ensures len <= k * t ==> p / t < k
  {
    assert p == (p / t) * t + p % t;
    if k <= p / t { MulMono(k, p / t, t); }
  }
}
