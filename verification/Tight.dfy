/**
  Tight's palette filter and length coding (rfbproto, "Tight Encoding") as vncdotool/decoders/tight.py has
  them: translation tables over whole byte strings, against one pixel at a time.
 */
module Tight {
  import opened Arith
  import opened Bytes
  import opened Tiles
  import opened CPixels
  import opened ZrleTile
  import opened ZrleDecoder

  // ---------------------------------------------------------------- pixel formats

  /** `tpixel_bytes`. */
  function TPixelBytes(f: PixelFormat): nat {
    if f.truecolour && f.bpp == 32 && f.depth == 24
       && BitLength(f.redmax) == 8 && BitLength(f.greenmax) == 8 && BitLength(f.bluemax) == 8 then 3
    else f.Bypp()
  }

  const TPIXEL_FORMAT := PixelFormat(24, 24, false, true, 255, 255, 255, 0, 8, 16)

  /** `_output_format`. */
  function OutputFormat(f: PixelFormat): PixelFormat { if TPixelBytes(f) == 3 then TPIXEL_FORMAT else f }

  /** The declared output format is as wide as the pixels that are read. */
  lemma OutputWidth(f: PixelFormat)
    ensures OutputFormat(f).Bypp() == TPixelBytes(f)
  {
  }

  // ---------------------------------------------------------------- compact lengths

  /** One to three bytes: seven bits, seven bits, eight bits. */
  function CompactLength(b: seq<byte>): Option<(nat, seq<byte>)> {
    if b == [] then None
    else
      var low: nat := b[0] % 128;
      if b[0] < 128 then Some((low, b[1..]))
      else if |b| == 1 then None
      else
        var mid: nat := b[1] % 128;
        if b[1] < 128 then Some((low + 128 * mid, b[2..]))
        else if |b| == 2 then None
        else
          var high: nat := b[2];
          Some((low + 128 * mid + 16384 * high, b[3..]))
  }

  function EncodeCompact(n: nat): seq<byte>
    requires n < 4194304
  {
    if n < 128 then [n]
    else if n < 16384 then [128 + n % 128, n / 128]
    else [128 + n % 128, 128 + n / 128 % 128, n / 16384]
  }

  /** The compact code is inverted for every length it can hold. */
  lemma CompactReadsBack(n: nat, rest: seq<byte>)
    requires n < 4194304
    ensures CompactLength(EncodeCompact(n) + rest) == Some((n, rest))
  {
    var code := EncodeCompact(n);
    assert (code + rest)[|code|..] == rest;
    assert n / 16384 == n / 128 / 128 by { CascadedDivision(n); }
  }

  lemma CascadedDivision(n: nat)
    ensures n / 16384 == n / 128 / 128
  {
    var a, b := n / 128, n / 128 / 128;
    DivMod(n, 16384, b, (a - 128 * b) * 128 + n % 128);
  }

  // ---------------------------------------------------------------- palettes, one pixel at a time

  /** Bytes per row of palette data: two colours pack eight pixels a byte, each row padded. */
  function RowBytes(colours: nat, width: nat): nat { if colours == 2 then (width + 7) / 8 else width }

  /** Rows of one-bit pixels, leftmost in the high bit. */
  function MonoRows(palette: Pixels, width: nat, height: nat, data: seq<byte>): (ps: Pixels)
    requires |palette| == 2 && |data| == height * RowBytes(2, width)
    ensures |ps| == height * width
    ensures forall n {:trigger Uniform(palette, n)} :: Uniform(palette, n) ==> Uniform(ps, n)
    decreases height
  {
    if height == 0 then []
    else
      MulAdd(1, height - 1, RowBytes(2, width));
      MulAdd(1, height - 1, width);
      var size := RowBytes(2, width);
      BitsDefined(data[..size], width);
      RowPixels(data[..size], 1, width, palette) + MonoRows(palette, width, height - 1, data[size..])
  }

  lemma BitsDefined(row: seq<byte>, width: nat)
    requires |row| == RowBytes(2, width)
    ensures |row| == RowSize(width, 1) && RowDefined(row, 1, width, 2)
  {
    Powers();
  }

  /** One palette entry per byte, None where a byte is past the end of the palette. */
  function IndexedPixels(palette: Pixels, data: seq<byte>): (r: Option<Pixels>)
    ensures r.Some? ==> |r.value| == |data|
    ensures forall n {:trigger Uniform(palette, n)} :: r.Some? && Uniform(palette, n) ==> Uniform(r.value, n)
  {
    if forall i :: 0 <= i < |data| ==> data[i] < |palette|
    then Some(seq(|data|, i requires 0 <= i < |data| => palette[data[i]]))
    else None
  }

  /** The pixels palette data stands for. */
  function PalettePixels(palette: Pixels, width: nat, height: nat, data: seq<byte>): (r: Option<Pixels>)
    requires |data| == height * RowBytes(|palette|, width)
    ensures r.Some? ==> |r.value| == height * width
    ensures forall n {:trigger Uniform(palette, n)} :: r.Some? && Uniform(palette, n) ==> Uniform(r.value, n)
  {
    if |palette| == 2 then Some(MonoRows(palette, width, height, data)) else IndexedPixels(palette, data)
  }

  // ---------------------------------------------------------------- palettes, by table

  /** `_mono_table`. */
  function MonoTable(zero: seq<byte>, one: seq<byte>): (table: Pixels)
    ensures |table| == 256
  {
    seq(256, b requires 0 <= b < 256 =>
      Join(seq(8, bit requires 0 <= bit < 8 => if IndexAt(b, 1, bit) == 1 then one else zero)))
  }

  /** `_palette_tables`: a 256-byte table per channel. */
  function Channel(palette: Pixels, n: nat, offset: nat): (table: seq<byte>)
    requires Uniform(palette, n) && offset < n
    ensures |table| == 256
  {
    seq(256, i requires 0 <= i < 256 => if i < |palette| then (assert |palette[i]| == n; palette[i][offset]) else 0)
  }

  /** `data.translate(table)`. */
  function Translate(data: seq<byte>, table: seq<byte>): (r: seq<byte>)
    requires |table| == 256
    ensures |r| == |data|
  {
    seq(|data|, i requires 0 <= i < |data| => table[data[i]])
  }

  /** `data.translate(None, defined)`: what is left once every defined index is deleted. */
  function Undefined(data: seq<byte>, size: nat): seq<byte> {
    if data == [] then []
    else (if data[0] < size then [] else [data[0]]) + Undefined(data[1..], size)
  }

  /** `Image.merge(...).tobytes()`: the channels interleaved. */
  function Merge(channels: Pixels, count: nat): (r: seq<byte>)
    requires 0 < |channels| && Uniform(channels, count)
    ensures |r| == count * |channels|
  {
    seq(count * |channels|, i requires 0 <= i < count * |channels| =>
      (RowInRange(i, |channels|, count); assert |channels[i % |channels|]| == count;
       channels[i % |channels|][i / |channels|]))
  }

  /** `_unpalette`. */
  function Unpalette(palette: Pixels, n: nat, width: nat, height: nat, data: seq<byte>): Option<seq<byte>>
    requires 1 <= n && 1 <= |palette| && Uniform(palette, n) && |data| == height * RowBytes(|palette|, width)
  {
    if data == [] then Some([])
    else if |palette| == 2 then
      var pixels := Join(Lookup(MonoTable(palette[0], palette[1]), data));
      var stride, padded := width * n, RowBytes(2, width) * 8 * n;
      if padded == stride then Some(pixels)
      else Some(CutRows(pixels, stride, padded, height))
    else if Undefined(data, |palette|) != [] then None
    else if n == 1 then Some(Translate(data, Channel(palette, n, 0)))
    else Some(Merge(seq(n, offset requires 0 <= offset < n => Translate(data, Channel(palette, n, offset))), |data|))
  }

  /** The first `stride` bytes of each `padded` (sliced as Python slices). */
  function CutRows(pixels: seq<byte>, stride: nat, padded: nat, height: nat): seq<byte>
    decreases height
  {
    if height == 0 then []
    else
      var first := if |pixels| < padded then pixels else pixels[..padded];
      var rest := if |pixels| < padded then [] else pixels[padded..];
      (if |first| < stride then first else first[..stride]) + CutRows(rest, stride, padded, height - 1)
  }

  // ---------------------------------------------------------------- the tables are right

  lemma {:induction false} UndefinedIff(data: seq<byte>, size: nat)
    ensures Undefined(data, size) == [] <==> forall i :: 0 <= i < |data| ==> data[i] < size
    decreases |data|
  {
    if data != [] {
      UndefinedIff(data[1..], size);
      assert forall i :: 0 < i < |data| ==> data[i] == data[1..][i - 1];
      if data[0] < size {
        assert [] + Undefined(data[1..], size) == Undefined(data[1..], size);
      }
    }
  }

  lemma ChannelsMerge(palette: Pixels, n: nat, data: seq<byte>)
    requires 1 <= n && Uniform(palette, n) && forall i :: 0 <= i < |data| ==> data[i] < |palette|
    ensures var channels := seq(n, offset requires 0 <= offset < n => Translate(data, Channel(palette, n, offset)));
            Uniform(channels, |data|)
            && Merge(channels, |data|) == Join(IndexedPixels(palette, data).value)
  {
    var channels := seq(n, offset requires 0 <= offset < n => Translate(data, Channel(palette, n, offset)));
    var ps := IndexedPixels(palette, data).value;
    assert Uniform(ps, n);
    JoinLength(ps, n);
    hide Join;
    var left, right := Merge(channels, |data|), Join(ps);
    forall i | 0 <= i < |left|
      ensures left[i] == right[i]
    {
      RowInRange(i, n, |data|);
      JoinAt(ps, n, i / n, i % n);
      assert |palette[data[i / n]]| == n;
    }
  }

  lemma OneChannel(palette: Pixels, data: seq<byte>)
    requires Uniform(palette, 1) && forall i :: 0 <= i < |data| ==> data[i] < |palette|
    ensures Translate(data, Channel(palette, 1, 0)) == Join(IndexedPixels(palette, data).value)
  {
    var ps := IndexedPixels(palette, data).value;
    assert Uniform(ps, 1);
    JoinLength(ps, 1);
    hide Join;
    var left, right := Translate(data, Channel(palette, 1, 0)), Join(ps);
    forall i | 0 <= i < |left|
      ensures left[i] == right[i]
    {
      JoinAt(ps, 1, i, 0);
    }
  }

  lemma MonoTableIs(palette: Pixels, n: nat)
    requires |palette| == 2 && Uniform(palette, n)
    ensures forall b: byte :: MonoTable(palette[0], palette[1])[b] == Join(ByteSlots(palette, 1, n, b))
  {
    Powers();
    forall b: byte
      ensures MonoTable(palette[0], palette[1])[b] == Join(ByteSlots(palette, 1, n, b))
    {
      assert seq(8, bit requires 0 <= bit < 8 => if IndexAt(b, 1, bit) == 1 then palette[1] else palette[0])
             == ByteSlots(palette, 1, n, b);
    }
  }

  /** Whole bytes expand to eight pixels each. */
  lemma ExpandedLength(palette: Pixels, n: nat, data: seq<byte>)
    requires |palette| == 2 && Uniform(palette, n)
    ensures |Join(Lookup(MonoTable(palette[0], palette[1]), data))| == |data| * (8 * n)
  {
    var table := MonoTable(palette[0], palette[1]);
    MonoTableIs(palette, n);
    LookupUniform(palette, 1, n, table, data);
    JoinLength(Lookup(table, data), 8 * n);
  }

  lemma RowExpands(palette: Pixels, n: nat, width: nat, row: seq<byte>)
    requires 1 <= n && |palette| == 2 && Uniform(palette, n) && |row| == RowBytes(2, width)
    ensures |row| == RowSize(width, 1) && RowDefined(row, 1, width, 2)
    ensures var pixels := Join(Lookup(MonoTable(palette[0], palette[1]), row));
            width * n <= |pixels| && |pixels| == RowBytes(2, width) * 8 * n
            && pixels[..width * n] == Join(RowPixels(row, 1, width, palette))
  {
    MonoTableIs(palette, n);
    BitsDefined(row, width);
    TableExpandsRow(palette, 1, n, MonoTable(palette[0], palette[1]), row, width);
    ExpandedLength(palette, n, row);
    MulSwap(RowBytes(2, width), 8, n);
  }

  lemma LookupJoins(table: Pixels, a: seq<byte>, b: seq<byte>)
    requires |table| == 256
    ensures Join(Lookup(table, a + b)) == Join(Lookup(table, a)) + Join(Lookup(table, b))
  {
    assert Lookup(table, a + b) == Lookup(table, a) + Lookup(table, b);
    JoinConcat(Lookup(table, a), Lookup(table, b));
  }

  lemma MonoRowsStep(palette: Pixels, width: nat, height: nat, row: seq<byte>, more: seq<byte>)
    requires |palette| == 2 && 0 < height && |row| == RowBytes(2, width) && |more| == (height - 1) * RowBytes(2, width)
    ensures |row + more| == height * RowBytes(2, width) && |row| == RowSize(width, 1) && RowDefined(row, 1, width, 2)
    ensures Join(MonoRows(palette, width, height, row + more))
            == Join(RowPixels(row, 1, width, palette)) + Join(MonoRows(palette, width, height - 1, more))
  {
    hide Join, RowPixels, RowDefined;
    MulAdd(1, height - 1, RowBytes(2, width));
    BitsDefined(row, width);
    assert (row + more)[..|row|] == row && (row + more)[|row|..] == more;
    JoinConcat(RowPixels(row, 1, width, palette), MonoRows(palette, width, height - 1, more));
  }

  /** Expanding all rows at once and cutting each row's padding off is expanding row by row. */
  lemma {:induction false} MonoRowsCut(palette: Pixels, n: nat, width: nat, height: nat, data: seq<byte>)
    requires 1 <= n && |palette| == 2 && Uniform(palette, n) && |data| == height * RowBytes(2, width)
    ensures CutRows(Join(Lookup(MonoTable(palette[0], palette[1]), data)), width * n, RowBytes(2, width) * 8 * n,
                    height)
            == Join(MonoRows(palette, width, height, data))
    decreases height
  {
    hide Lookup, MonoTable, RowPixels, RowDefined, Uniform;
    if height > 0 {
      MulAdd(1, height - 1, RowBytes(2, width));
      var row, more := data[..RowBytes(2, width)], data[RowBytes(2, width)..];
      assert data == row + more;
      var table := MonoTable(palette[0], palette[1]);
      hide Join, MonoRows, RowBytes;
      RowExpands(palette, n, width, row);
      LookupJoins(table, row, more);
      CutFirst(Join(Lookup(table, row)), Join(Lookup(table, more)), width * n, height);
      MonoRowsStep(palette, width, height, row, more);
      MonoRowsCut(palette, n, width, height - 1, more);
    }
  }

  lemma CutFirst(first: seq<byte>, rest: seq<byte>, stride: nat, height: nat)
    requires stride <= |first| && 0 < height
    ensures CutRows(first + rest, stride, |first|, height)
            == first[..stride] + CutRows(rest, stride, |first|, height - 1)
  {
    assert (first + rest)[..|first|] == first && (first + rest)[|first|..] == rest;
  }

  /** Cutting nothing off changes nothing. */
  lemma {:induction false} CutNothing(pixels: seq<byte>, stride: nat, height: nat)
    requires |pixels| == height * stride
    ensures CutRows(pixels, stride, stride, height) == pixels
    decreases height
  {
    if height > 0 {
      MulAdd(1, height - 1, stride);
      CutNothing(pixels[stride..], stride, height - 1);
      assert pixels[..stride][..stride] == pixels[..stride];
    }
  }

  /** The tables decode exactly the pixels the indices stand for, and refuse exactly undefined indices. */
  lemma UnpaletteIsPixelwise(palette: Pixels, n: nat, width: nat, height: nat, data: seq<byte>)
    requires 1 <= n && 1 <= |palette| && Uniform(palette, n) && |data| == height * RowBytes(|palette|, width)
    ensures match PalettePixels(palette, width, height, data)
            case None => Unpalette(palette, n, width, height, data) == None
            case Some(ps) => Unpalette(palette, n, width, height, data) == Some(Join(ps))
  {
    if data == [] {
      NothingToDecode(palette, width, height);
    } else if |palette| == 2 {
      MonoIsPixelwise(palette, n, width, height, data);
    } else {
      UndefinedIff(data, |palette|);
      if Undefined(data, |palette|) == [] {
        if n == 1 { OneChannel(palette, data); } else { ChannelsMerge(palette, n, data); }
      }
    }
  }

  lemma NothingToDecode(palette: Pixels, width: nat, height: nat)
    requires 1 <= |palette| && height * RowBytes(|palette|, width) == 0
    ensures PalettePixels(palette, width, height, []) == Some([])
  {
    var ps := PalettePixels(palette, width, height, []);
    if height > 0 {
      MulMono(1, height, RowBytes(|palette|, width));
      assert width == 0;
    }
    assert |ps.value| == 0;
  }

  lemma MonoIsPixelwise(palette: Pixels, n: nat, width: nat, height: nat, data: seq<byte>)
    requires 1 <= n && |palette| == 2 && Uniform(palette, n) && |data| == height * RowBytes(2, width) && data != []
    ensures Unpalette(palette, n, width, height, data) == Some(Join(MonoRows(palette, width, height, data)))
  {
    MonoRowsCut(palette, n, width, height, data);
    hide Join, MonoRows, Lookup, MonoTable, CutRows, Uniform;
    if RowBytes(2, width) * 8 * n == width * n {
      var pixels := Join(Lookup(MonoTable(palette[0], palette[1]), data));
      ExpandedLength(palette, n, data);
      WholeRows(height, RowBytes(2, width), n);
      CutNothing(pixels, width * n, height);
    }
  }

  lemma WholeRows(height: nat, size: nat, n: nat)
    ensures height * size * (8 * n) == height * (size * 8 * n)
  {
    MulSwap(size, 8, n);
    MulSwap(height, size, 8 * n);
  }
}
