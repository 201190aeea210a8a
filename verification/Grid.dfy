/**
  A rectangle of pixels as bytes, row-major, and what writing a smaller rectangle into it means - at
  the byte level the buffer works on and at the level of single pixels.
 */
module Grid {
  import opened Arith
  import opened Bytes

  /** The dimensions of a rectangle buffer. */
  datatype Shape = Shape(width: nat, height: nat, bypp: nat) {
    function Stride(): nat { width * bypp }
    function Size(): nat { width * height * bypp }
  }

  function Zeros(n: nat): seq<byte> { seq(n, i => 0) }

  /** Python's `b * n`. */
  function Times(b: seq<byte>, n: nat): (r: seq<byte>)
    ensures |r| == n * |b|
  {
    if n == 0 then [] else b + Times(b, n - 1)
  }

  lemma {:induction false} TimesAt(b: seq<byte>, n: nat, j: nat)
    requires j < n * |b|
    ensures |b| > 0 && Times(b, n)[j] == b[j % |b|]
  {
    if j >= |b| {
      MulAdd(1, n - 1, |b|);
      TimesAt(b, n - 1, j - |b|);
      ModShift(j, |b|);
    }
  }

  lemma ModShift(j: nat, m: nat)
    requires 0 < m <= j
    ensures (j - m) % m == j % m
  {
    MulAdd(j / m, -1, m);
    DivMod(j - m, m, j / m - 1, j % m);
  }

  /** A rectangle accepted by `_check_bounds`. */
  predicate Fits(s: Shape, x: int, y: int, w: int, h: int) {
    0 <= x && 0 <= y && 0 <= w && 0 <= h && x + w <= s.width && y + h <= s.height
  }

  predicate Inside(px: int, py: int, x: int, y: int, w: int, h: int) {
    x <= px < x + w && y <= py < y + h
  }

  /** Byte `i` of the grid lies in a box of byte columns `left..left+len` and rows `y..y+h`. */
  predicate InBox(i: nat, stride: nat, left: nat, y: nat, len: nat, h: nat)
    requires 0 < stride
  {
    left <= i % stride < left + len && y <= i / stride < y + h
  }

  lemma BoxIndex(i: nat, stride: nat, left: nat, y: nat, len: nat, h: nat)
    requires 0 < stride && InBox(i, stride, left, y, len, h)
    ensures 0 <= (i / stride - y) * len + (i % stride - left) < len * h
  {
    InArea(i / stride - y, i % stride - left, len, h);
    assert h * len == len * h;
  }

  /** The grid with `pixels` written over a box, byte by byte. */
  function Overwrite(g: seq<byte>, stride: nat, left: nat, y: nat, len: nat, h: nat, pixels: seq<byte>): (r: seq<byte>)
    requires |pixels| == len * h && (g != [] ==> 0 < stride)
    ensures |r| == |g|
  {
    seq(|g|, i requires 0 <= i < |g| =>
      if InBox(i, stride, left, y, len, h)
      then (BoxIndex(i, stride, left, y, len, h); pixels[(i / stride - y) * len + (i % stride - left)])
      else g[i])
  }

  /** `blit`, as a grid. */
  function Blit(g: seq<byte>, s: Shape, x: nat, y: nat, w: nat, h: nat, pixels: seq<byte>): (r: seq<byte>)
    requires |g| == s.Size() && Fits(s, x, y, w, h) && |pixels| == w * h * s.bypp
    ensures |r| == |g|
  {
    SizeNeedsStride(s);
    MulSwap(w, h, s.bypp);
    Overwrite(g, s.Stride(), x * s.bypp, y, w * s.bypp, h, pixels)
  }

  /** `fill`, as a grid: a blit of one repeated colour. */
  function Fill(g: seq<byte>, s: Shape, x: nat, y: nat, w: nat, h: nat, colour: seq<byte>): (r: seq<byte>)
    requires |g| == s.Size() && Fits(s, x, y, w, h) && |colour| == s.bypp
    ensures |r| == |g|
  {
    Blit(g, s, x, y, w, h, Times(colour, w * h))
  }

  lemma SizeNeedsStride(s: Shape)
    ensures s.Size() == s.height * s.Stride()
    ensures s.Size() > 0 ==> s.Stride() > 0
  {
    MulSwap(s.width, s.height, s.bypp);
  }

  // ---------------------------------------------------------------- single pixels

  function PixelOffset(s: Shape, px: nat, py: nat): nat { py * s.Stride() + px * s.bypp }

  lemma PixelInGrid(s: Shape, px: nat, py: nat)
    requires px < s.width && py < s.height
    ensures px * s.bypp + s.bypp <= s.Stride()
    ensures PixelOffset(s, px, py) + s.bypp <= s.Size()
  {
    SizeNeedsStride(s);
    MulMono(px + 1, s.width, s.bypp);
    MulAdd(px, 1, s.bypp);
    MulMono(py + 1, s.height, s.Stride());
    MulAdd(py, 1, s.Stride());
  }

  /** The bytes of the pixel in column `px` of row `py`. */
  function Pixel(g: seq<byte>, s: Shape, px: nat, py: nat): (r: seq<byte>)
    requires |g| == s.Size() && px < s.width && py < s.height
    ensures |r| == s.bypp
  {
    PixelInGrid(s, px, py);
    g[PixelOffset(s, px, py)..PixelOffset(s, px, py) + s.bypp]
  }

  /** Pixel `n` of a run of pixels. */
  function Nth(pixels: seq<byte>, bypp: nat, n: nat): (r: seq<byte>)
    requires (n + 1) * bypp <= |pixels|
    ensures |r| == bypp
  {
    pixels[n * bypp..(n + 1) * bypp]
  }

  lemma InsideIndex(px: nat, py: nat, x: nat, y: nat, w: nat, h: nat)
    requires Inside(px, py, x, y, w, h)
    ensures 0 <= (py - y) * w + (px - x) < w * h
  {
    InArea(py - y, px - x, w, h);
    assert h * w == w * h;
  }

  lemma NthInRange(n: nat, count: nat, bypp: nat)
    requires n < count
    ensures (n + 1) * bypp <= count * bypp
  {
    MulMono(n + 1, count, bypp);
  }

  /** Where a pixel's bytes are in byte columns, and which box columns hold them. */
  lemma PixelColumns(s: Shape, px: nat, py: nat, k: nat, x: nat, w: nat)
    requires px < s.width && py < s.height && k < s.bypp
    ensures var i := PixelOffset(s, px, py) + k;
            0 < s.Stride() && i / s.Stride() == py && i % s.Stride() == px * s.bypp + k
    ensures x * s.bypp <= px * s.bypp + k < x * s.bypp + w * s.bypp <==> x <= px < x + w
  {
    PixelInGrid(s, px, py);
    DivMod(PixelOffset(s, px, py) + k, s.Stride(), py, px * s.bypp + k);
    ColumnInSpan(px, k, s.bypp, x, w);
  }

  lemma ColumnInSpan(px: nat, k: nat, bypp: nat, x: nat, w: nat)
    requires k < bypp
    ensures x * bypp <= px * bypp + k < x * bypp + w * bypp <==> x <= px < x + w
  {
    MulAdd(x, w, bypp);
    MulAdd(px, 1, bypp);
    if px < x { MulMono(px + 1, x, bypp); }
    if x <= px { MulMono(x, px, bypp); }
    if px < x + w { MulMono(px + 1, x + w, bypp); }
    if x + w <= px { MulMono(x + w, px, bypp); }
  }

  /** A blit replaces exactly the pixels inside its rectangle, each by its own. */
  lemma BlitPixel(g: seq<byte>, s: Shape, x: nat, y: nat, w: nat, h: nat, pixels: seq<byte>, px: nat, py: nat)
    requires |g| == s.Size() && Fits(s, x, y, w, h) && |pixels| == w * h * s.bypp
    requires px < s.width && py < s.height
    ensures Inside(px, py, x, y, w, h) ==>
              0 <= (py - y) * w + (px - x) < w * h && ((py - y) * w + (px - x) + 1) * s.bypp <= |pixels|
    ensures Pixel(Blit(g, s, x, y, w, h, pixels), s, px, py)
            == if Inside(px, py, x, y, w, h) then Nth(pixels, s.bypp, (py - y) * w + (px - x))
               else Pixel(g, s, px, py)
  {
    var after := Blit(g, s, x, y, w, h, pixels);
    var inside, n := Inside(px, py, x, y, w, h), (py - y) * w + (px - x);
    if inside {
      InsideIndex(px, py, x, y, w, h);
      NthInRange(n, w * h, s.bypp);
    }
    hide Blit, Pixel, Nth, Shape.Size, Shape.Stride, Inside;
    forall k | 0 <= k < s.bypp
      ensures Pixel(after, s, px, py)[k] == (if inside then Nth(pixels, s.bypp, n) else Pixel(g, s, px, py))[k]
    {
      BlitByte(g, s, x, y, w, h, pixels, px, py, k);
      PixelByte(after, s, px, py, k);
      PixelByte(g, s, px, py, k);
      if inside { NthByte(pixels, s.bypp, n, k); }
    }
    if inside { assert Pixel(after, s, px, py) == Nth(pixels, s.bypp, n); }
    else { assert Pixel(after, s, px, py) == Pixel(g, s, px, py); }
  }

  lemma PixelByte(g: seq<byte>, s: Shape, px: nat, py: nat, k: nat)
    requires |g| == s.Size() && px < s.width && py < s.height && k < s.bypp
    ensures PixelOffset(s, px, py) + k < |g| && Pixel(g, s, px, py)[k] == g[PixelOffset(s, px, py) + k]
  {
    PixelInGrid(s, px, py);
    hide Shape.Size, Shape.Stride, PixelOffset;
  }

  lemma NthByte(pixels: seq<byte>, bypp: nat, n: nat, k: nat)
    requires (n + 1) * bypp <= |pixels| && k < bypp
    ensures 0 <= n * bypp + k < |pixels| && Nth(pixels, bypp, n)[k] == pixels[n * bypp + k]
  {
    MulAdd(n, 1, bypp);
  }

  lemma BlitByte(g: seq<byte>, s: Shape, x: nat, y: nat, w: nat, h: nat, pixels: seq<byte>, px: nat, py: nat, k: nat)
    requires |g| == s.Size() && Fits(s, x, y, w, h) && |pixels| == w * h * s.bypp
    requires px < s.width && py < s.height && k < s.bypp
    ensures PixelOffset(s, px, py) + k < |g|
    ensures var i := PixelOffset(s, px, py) + k;
            (!Inside(px, py, x, y, w, h) ==> Blit(g, s, x, y, w, h, pixels)[i] == g[i])
            && (Inside(px, py, x, y, w, h) ==>
                  var n := (py - y) * w + (px - x);
                  0 <= n * s.bypp + k < |pixels| && Blit(g, s, x, y, w, h, pixels)[i] == pixels[n * s.bypp + k])
  {
    BoxOfPixel(s, x, y, w, h, px, py, k);
    SizeNeedsStride(s);
    MulSwap(w, h, s.bypp);
    hide Shape.Size, Shape.Stride, PixelOffset, Overwrite, InBox;
    OverwriteByte(g, s.Stride(), x * s.bypp, y, w * s.bypp, h, pixels, PixelOffset(s, px, py) + k);
  }

  /** Where a pixel's bytes are in a box, and in the pixels to be written there. */
  lemma BoxOfPixel(s: Shape, x: nat, y: nat, w: nat, h: nat, px: nat, py: nat, k: nat)
    requires px < s.width && py < s.height && k < s.bypp
    ensures var i, stride := PixelOffset(s, px, py) + k, s.Stride();
            && i < s.Size() && 0 < stride
            && (InBox(i, stride, x * s.bypp, y, w * s.bypp, h) <==> Inside(px, py, x, y, w, h))
            && (i / stride - y) * (w * s.bypp) + (i % stride - x * s.bypp) == ((py - y) * w + (px - x)) * s.bypp + k
  {
    PixelInGrid(s, px, py);
    PixelColumns(s, px, py, k, x, w);
    hide Shape.Size, Shape.Stride, PixelOffset;
    SourceIndex(py - y, w, px, x, s.bypp, k);
  }

  lemma OverwriteByte(g: seq<byte>, stride: nat, left: nat, y: nat, len: nat, h: nat, pixels: seq<byte>, i: nat)
    requires |pixels| == len * h && 0 < stride && i < |g|
    ensures InBox(i, stride, left, y, len, h) ==>
              var j := (i / stride - y) * len + (i % stride - left);
              0 <= j < |pixels| && Overwrite(g, stride, left, y, len, h, pixels)[i] == pixels[j]
    ensures !InBox(i, stride, left, y, len, h) ==> Overwrite(g, stride, left, y, len, h, pixels)[i] == g[i]
  {
    if InBox(i, stride, left, y, len, h) { BoxIndex(i, stride, left, y, len, h); }
    hide InBox;
  }

  lemma SourceIndex(row: int, w: int, px: int, x: int, bypp: int, k: int)
    ensures row * (w * bypp) + (px * bypp + k - x * bypp) == (row * w + (px - x)) * bypp + k
  {
    MulSwap(row, w, bypp);
    MulAdd(px - x, x, bypp);
    MulAdd(row * w, px - x, bypp);
  }

  /** A fill makes every pixel inside its rectangle the colour, and leaves the others. */
  lemma FillPixel(g: seq<byte>, s: Shape, x: nat, y: nat, w: nat, h: nat, colour: seq<byte>, px: nat, py: nat)
    requires |g| == s.Size() && Fits(s, x, y, w, h) && |colour| == s.bypp
    requires px < s.width && py < s.height
    ensures Pixel(Fill(g, s, x, y, w, h, colour), s, px, py)
            == if Inside(px, py, x, y, w, h) then colour else Pixel(g, s, px, py)
  {
    hide Blit, Overwrite, Pixel, Nth;
    var pixels := Times(colour, w * h);
    BlitPixel(g, s, x, y, w, h, pixels, px, py);
    if Inside(px, py, x, y, w, h) {
      NthOfTimes(colour, w * h, (py - y) * w + (px - x));
    }
  }

  lemma NthOfTimes(colour: seq<byte>, count: nat, n: nat)
    requires n < count
    ensures (n + 1) * |colour| <= |Times(colour, count)|
    ensures Nth(Times(colour, count), |colour|, n) == colour
  {
    var bypp := |colour|;
    NthInRange(n, count, bypp);
    forall k | 0 <= k < bypp
      ensures Nth(Times(colour, count), bypp, n)[k] == colour[k]
    {
      MulAdd(n, 1, bypp);
      TimesAt(colour, count, n * bypp + k);
      DivMod(n * bypp + k, bypp, n, k);
    }
  }

  /** Two grids are equal when their pixels are. */
  lemma SamePixels(g: seq<byte>, g': seq<byte>, s: Shape)
    requires |g| == |g'| == s.Size()
    requires forall px, py :: 0 <= px < s.width && 0 <= py < s.height ==> Pixel(g, s, px, py) == Pixel(g', s, px, py)
    ensures g == g'
  {
    SizeNeedsStride(s);
    forall i | 0 <= i < |g|
      ensures g[i] == g'[i]
    {
      var px, py, k := ByteOfPixel(s, i);
      PixelInGrid(s, px, py);
      assert Pixel(g, s, px, py)[k] == g[i] && Pixel(g', s, px, py)[k] == g'[i];
    }
  }

  /** Every byte of a grid belongs to a pixel. */
  lemma ByteOfPixel(s: Shape, i: nat) returns (px: nat, py: nat, k: nat)
    requires i < s.Size()
    ensures px < s.width && py < s.height && k < s.bypp && i == PixelOffset(s, px, py) + k
  {
    SizeNeedsStride(s);
    RowInRange(i, s.Stride(), s.height);
    py := i / s.Stride();
    var off := i % s.Stride();
    if s.bypp == 0 { assert false; }
    RowInRange(off, s.bypp, s.width);
    px := off / s.bypp;
    k := off % s.bypp;
  }
}
