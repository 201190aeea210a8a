/**
  What the ZRLE decoder accepts (vncdotool/decoders/zrle.py): whatever it reads, some tiles of section 7.7.6 of
  RFC 6143 encode to, so that it accepts exactly the encodings.
 */
module ZrleEncodings {
  import opened Arith
  import opened Bytes
  import opened Grid
  import opened Tiles
  import opened CPixels
  import opened ZrleTile
  import opened ZrleRoundTrip
  import opened ZrleRect

  // ---------------------------------------------------------------- pixels and runs

  function Pieces(raw: seq<byte>, count: nat, size: nat): (cs: Pixels)
    requires |raw| == count * size
    ensures |cs| == count && Uniform(cs, size)
  {
    seq(count, i requires 0 <= i < count => (NthInRange(i, count, size); Nth(raw, size, i)))
  }

  lemma {:induction false} PiecesJoin(raw: seq<byte>, count: nat, size: nat)
    requires |raw| == count * size
    ensures Join(Pieces(raw, count, size)) == raw
    decreases count
  {
    if count > 0 {
      MulAdd(1, count - 1, size);
      var cs, rest := Pieces(raw, count, size), raw[size..];
      PiecesJoin(rest, count - 1, size);
      assert cs[0] == raw[..size] by { assert 0 * size == 0 && (0 + 1) * size == size; }
      forall i | 0 <= i < count - 1 ensures cs[1..][i] == Pieces(rest, count - 1, size)[i] {
        PieceShifts(raw, count, size, i);
      }
      assert cs[1..] == Pieces(rest, count - 1, size);
    }
  }

  lemma PieceShifts(raw: seq<byte>, count: nat, size: nat, i: nat)
    requires |raw| == count * size && i + 1 < count
    ensures |raw| >= size && |raw[size..]| == (count - 1) * size
    ensures Pieces(raw, count, size)[i + 1] == Pieces(raw[size..], count - 1, size)[i]
  {
    MulAdd(1, count - 1, size);
    MulMono(1, count, size);
    NthInRange(i + 1, count, size);
    NthInRange(i, count - 1, size);
    NthShifts(raw, size, i);
    hide Nth;
  }

  lemma NthShifts(raw: seq<byte>, size: nat, i: nat)
    requires size <= |raw| && (i + 1 + 1) * size <= |raw|
    ensures (i + 1) * size <= |raw[size..]| && Nth(raw, size, i + 1) == Nth(raw[size..], size, i)
  {
    MulAdd(i, 1, size);
    MulAdd(i + 1, 1, size);
    var a, b := i * size, (i + 1) * size;
    assert raw[size..][a..b] == raw[a + size..b + size];
  }

  /** Pixels that were read are CPIXELs one after another. */
  lemma PixelsAre(l: Layout, count: nat, data: seq<byte>) returns (cs: Pixels)
    requires ValidLayout(l) && ReadPixels(l, count, data).Ok?
    ensures |cs| == count && Uniform(cs, l.cbytes)
    ensures data == Join(cs) + ReadPixels(l, count, data).rest && ReadPixels(l, count, data).value == WidenEach(cs, l)
  {
    var raw, rest := data[..count * l.cbytes], data[count * l.cbytes..];
    cs := Pieces(raw, count, l.cbytes);
    PiecesJoin(raw, count, l.cbytes);
    PixelsReadBack(l, cs, rest);
    hide Pieces, Join, WidenAll, WidenEach;
    assert data == raw + rest;
  }

  lemma {:induction false} RunIs(data: seq<byte>)
    requires ReadRun(data).Ok?
    ensures data == EncodeRun(ReadRun(data).value) + ReadRun(data).rest
    decreases |data|
  {
    if data[0] == 255 {
      RunIs(data[1..]);
      var r := ReadRun(data[1..]);
      assert data == [255] + data[1..] == [255] + (EncodeRun(r.value) + r.rest);
      assert EncodeRun(r.value + 255) == [255] + EncodeRun(r.value);
    } else {
      assert data == [data[0]] + data[1..];
    }
  }

  lemma {:induction false} PlainRunsAre(l: Layout, got: nat, total: nat, data: seq<byte>) returns (runs: seq<Run>)
    requires ValidLayout(l) && ReadPlainRuns(l, got, total, data).Ok?
    ensures ValidRuns(l, runs) && data == EncodeRuns(l, runs) + ReadPlainRuns(l, got, total, data).rest
    ensures RunPixels(l, runs) == ReadPlainRuns(l, got, total, data).value
    decreases |data|
  {
    hide ReadPixels, ReadRun, Widen, EncodeRun, Uniform, WidenEach, Join;
    if got >= total {
      runs := [];
      assert data == [] + data;
    } else {
      var px := ReadPixels(l, 1, data);
      var run := ReadRun(px.rest);
      var cs := PixelsAre(l, 1, data);
      RunIs(px.rest);
      var more := PlainRunsAre(l, got + run.value, total, run.rest);
      var rest := ReadPlainRuns(l, got + run.value, total, run.rest).rest;
      OnePixel(l, cs);
      runs := [Run(cs[0], run.value)] + more;
      assert runs[1..] == more;
      ConcatAssociates(EncodeRun(run.value), EncodeRuns(l, more), rest);
      ConcatAssociates(cs[0], EncodeRun(run.value) + EncodeRuns(l, more), rest);
    }
  }

  lemma OnePixel(l: Layout, cs: Pixels)
    requires ValidLayout(l) && |cs| == 1 && Uniform(cs, l.cbytes)
    ensures Join(cs) == cs[0] && |cs[0]| == l.cbytes && WidenEach(cs, l)[0] == Widen(cs[0], l)
  {
    assert cs[1..] == [] && cs[0] + [] == cs[0];
  }

  predicate ValidIndexRun(size: nat, r: IndexRun) {
    r.index < size && r.index < 128 && r.len >= 1 && (!r.long ==> r.len == 1)
  }

  lemma {:induction false} PaletteRunsAre(palette: Pixels, got: nat, total: nat, data: seq<byte>)
    returns (runs: seq<IndexRun>)
    requires ReadPaletteRuns(palette, got, total, data).Ok?
    ensures ValidIndexRuns(|palette|, runs)
    ensures data == EncodeIndexRuns(|palette|, runs) + ReadPaletteRuns(palette, got, total, data).rest
    ensures IndexRunPixels(palette, runs) == ReadPaletteRuns(palette, got, total, data).value
    decreases |data|
  {
    hide ReadPaletteRuns, EncodeIndexRuns, IndexRunPixels, ValidIndexRuns, EncodeIndexRun, Repeat, Uniform;
    if got >= total {
      runs := [];
      NoPaletteRuns(palette, got, total, data);
    } else {
      var r, after := PaletteStep(palette, got, total, data);
      var more := PaletteRunsAre(palette, got + r.len, total, after);
      runs := [r] + more;
      OneMoreIndexRun(palette, r, more);
      ConcatAssociates(EncodeIndexRun(r), EncodeIndexRuns(|palette|, more),
                       ReadPaletteRuns(palette, got + r.len, total, after).rest);
    }
  }

  lemma NoPaletteRuns(palette: Pixels, got: nat, total: nat, data: seq<byte>)
    requires got >= total && ReadPaletteRuns(palette, got, total, data).Ok?
    ensures ReadPaletteRuns(palette, got, total, data) == Ok([], data) && data == [] + data
    ensures ValidIndexRuns(|palette|, []) && EncodeIndexRuns(|palette|, []) == [] && IndexRunPixels(palette, []) == []
  {
  }

  lemma OneMoreIndexRun(palette: Pixels, r: IndexRun, more: seq<IndexRun>)
    requires ValidIndexRun(|palette|, r) && ValidIndexRuns(|palette|, more)
    ensures ValidIndexRuns(|palette|, [r] + more)
    ensures EncodeIndexRuns(|palette|, [r] + more) == EncodeIndexRun(r) + EncodeIndexRuns(|palette|, more)
    ensures IndexRunPixels(palette, [r] + more) == Repeat(palette[r.index], r.len) + IndexRunPixels(palette, more)
  {
    assert ([r] + more)[1..] == more;
    hide EncodeIndexRun, Repeat, Uniform;
  }

  /** One entry of a palette-RLE tile, and what is left. */
  lemma PaletteStep(palette: Pixels, got: nat, total: nat, data: seq<byte>) returns (r: IndexRun, after: seq<byte>)
    requires got < total && ReadPaletteRuns(palette, got, total, data).Ok?
    ensures ValidIndexRun(|palette|, r) && data == EncodeIndexRun(r) + after && |after| < |data|
    ensures var read := ReadPaletteRuns(palette, got + r.len, total, after);
            && read.Ok? && read.rest == ReadPaletteRuns(palette, got, total, data).rest
            && Repeat(palette[r.index], r.len) + read.value == ReadPaletteRuns(palette, got, total, data).value
  {
    hide ReadRun, EncodeRun, EncodeIndexRun, Uniform;
    var px, index := palette[data[0] % 128], data[0] % 128;
    if data[0] < 128 {
      r, after := IndexRun(index, 1, false), data[1..];
      assert Repeat(px, 1) == [px];
    } else {
      RunIs(data[1..]);
      r, after := IndexRun(index, ReadRun(data[1..]).value, true), ReadRun(data[1..]).rest;
    }
    IndexRunIs(data, r, after);
  }

  lemma IndexRunIs(data: seq<byte>, r: IndexRun, after: seq<byte>)
    requires data != [] && r.index == data[0] % 128 && r.len >= 1 && r.long == (data[0] >= 128)
    requires data[1..] == if r.long then EncodeRun(r.len) + after else after
    ensures data == EncodeIndexRun(r) + after
  {
    hide EncodeRun;
    assert data == [data[0]] + data[1..];
    assert data[0] == if r.long then 128 + r.index else r.index;
  }

  // ---------------------------------------------------------------- packed rows

  function Slots(b: byte, bits: nat): (ix: seq<nat>)
    requires bits == 1 || bits == 2 || bits == 4
    ensures |ix| == PerByte(bits) && ValidIndices(ix, bits)
  {
    seq(PerByte(bits), slot requires 0 <= slot < PerByte(bits) => IndexAt(b, bits, slot))
  }

  function High(v: nat, i: nat): int { v / Pow2(i) }

  /** The lowest bit of what is left above `i` bits. */
  lemma LowBit(v: nat, i: nat)
    ensures High(v, i) == 2 * High(v, i + 1) + Bit(v, i)
  {
    var p, q := Pow2(i), v / Pow2(i);
    var h, d := q / 2, q % 2;
    assert v == q * p + v % p && q == 2 * h + d;
    assert Pow2(i + 1) == 2 * p;
    hide Pow2;
    MulAdd(2 * h, d, p);
    MulSwap(2, h, p);
    MulSwap(h, 2, p);
    MulMono(d, 1, p);
    DivMod(v, 2 * p, h, d * p + v % p);
  }

  lemma BitsAddUp(v: nat)
    requires v < 256
    ensures v == 128 * Bit(v, 7) + 64 * Bit(v, 6) + 32 * Bit(v, 5) + 16 * Bit(v, 4) + 8 * Bit(v, 3) + 4 * Bit(v, 2)
                 + 2 * Bit(v, 1) + Bit(v, 0)
  {
    Powers();
    assert High(v, 0) == v && High(v, 8) == 0;
    hide Pow2, High, Bit;
    LowBit(v, 0);
    LowBit(v, 1);
    LowBit(v, 2);
    LowBit(v, 3);
    LowBit(v, 4);
    LowBit(v, 5);
    LowBit(v, 6);
    LowBit(v, 7);
  }

  lemma PairsAddUp(v: nat)
    requires v < 256
    ensures v == 64 * (v / 64 % 4) + 16 * (v / 16 % 4) + 4 * (v / 4 % 4) + v % 4
  {
    assert v / 4 / 4 == v / 16 && v / 16 / 4 == v / 64;
  }

  lemma FourBitsPack(b: byte)
    ensures PackByte(Slots(b, 4), 4) == b
  {
    Powers();
    var ix := Slots(b, 4);
    assert ix[0] == b / 16 % 16 && ix[1] == b / 1 % 16;
    NibblesAddUp(b);
    hide Slots, Pow2, IndexAt;
  }

  lemma NibblesAddUp(v: nat)
    requires v < 256
    ensures v == 16 * (v / 16 % 16) + v / 1 % 16
  {
  }

  lemma TwoBitsPack(b: byte)
    ensures PackByte(Slots(b, 2), 2) == b
  {
    Powers();
    var ix := Slots(b, 2);
    assert ix[0] == b / 64 % 4 && ix[1] == b / 16 % 4 && ix[2] == b / 4 % 4 && ix[3] == b / 1 % 4;
    PairsAddUp(b);
    hide Slots, Pow2;
  }

  lemma OneBitPacks(b: byte)
    ensures PackByte(Slots(b, 1), 1) == b
  {
    Powers();
    var ix := Slots(b, 1);
    assert ix[0] == Bit(b, 7) && ix[1] == Bit(b, 6) && ix[2] == Bit(b, 5) && ix[3] == Bit(b, 4);
    assert ix[4] == Bit(b, 3) && ix[5] == Bit(b, 2) && ix[6] == Bit(b, 1) && ix[7] == Bit(b, 0);
    BitsAddUp(b);
    hide Slots, Pow2, Bit, IndexAt;
  }

  lemma SlotsPack(b: byte, bits: nat)
    requires bits == 1 || bits == 2 || bits == 4
    ensures PackByte(Slots(b, bits), bits) == b
  {
    hide PackByte, Slots, PerByte, ValidIndices;
    if bits == 4 { FourBitsPack(b); } else if bits == 2 { TwoBitsPack(b); } else { OneBitPacks(b); }
  }

  /** The indices of a packed row, what pads it included. */
  function RowSlots(row: seq<byte>, bits: nat): (ix: seq<nat>)
    requires bits == 1 || bits == 2 || bits == 4
    ensures |ix| == |row| * PerByte(bits) && ValidIndices(ix, bits)
  {
    seq(|row| * PerByte(bits), x requires 0 <= x < |row| * PerByte(bits) =>
      (RowInRange(x, PerByte(bits), |row|); IndexAt(row[x / PerByte(bits)], bits, x % PerByte(bits))))
  }

  lemma RowIsPacked(row: seq<byte>, bits: nat)
    requires bits == 1 || bits == 2 || bits == 4
    ensures EncodeRow(RowSlots(row, bits), bits, |row|) == row
  {
    var ix := RowSlots(row, bits);
    hide RowSlots, PackByte, Slots, PerByte, ValidIndices;
    forall j | 0 <= j < |row| ensures EncodeRow(ix, bits, |row|)[j] == row[j] {
      EncodedByte(ix, bits, |row|, j);
      SlotsOfByte(row, bits, j);
      SlotsPack(row[j], bits);
    }
  }

  lemma SlotsOfByte(row: seq<byte>, bits: nat, j: nat)
    requires (bits == 1 || bits == 2 || bits == 4) && j < |row|
    ensures 0 <= j * PerByte(bits) <= (j + 1) * PerByte(bits) <= |RowSlots(row, bits)|
    ensures RowSlots(row, bits)[j * PerByte(bits)..(j + 1) * PerByte(bits)] == Slots(row[j], bits)
  {
    var per, ix := PerByte(bits), RowSlots(row, bits);
    MulAdd(j, 1, per);
    MulMono(j + 1, |row|, per);
    hide IndexAt, PerByte, ValidIndices, Pow2;
    var piece := ix[j * per..(j + 1) * per];
    forall slot | 0 <= slot < per ensures piece[slot] == Slots(row[j], bits)[slot] {
      DivMod(j * per + slot, per, j, slot);
      assert piece[slot] == ix[j * per + slot];
    }
  }

  lemma RowIsValid(row: seq<byte>, bits: nat, tw: nat, palette: Pixels)
    requires (bits == 1 || bits == 2 || bits == 4) && |row| == RowSize(tw, bits) && RowDefined(row, bits, tw, |palette|)
    ensures ValidRow(RowSlots(row, bits), bits, tw, |palette|)
    ensures RowPixels(row, bits, tw, palette) == seq(tw, x requires 0 <= x < tw => palette[RowSlots(row, bits)[x]])
  {
    var ix := RowSlots(row, bits);
    RowHolds(tw, bits);
    hide RowSize, PerByte, IndexAt, ValidIndices, Pow2;
    forall x | 0 <= x < tw ensures ix[x] == RowIndex(row, bits, tw, x) {}
  }

  lemma RowHolds(tw: nat, bits: nat)
    requires bits == 1 || bits == 2 || bits == 4
    ensures tw <= RowSize(tw, bits) * PerByte(bits)
  {
  }

  lemma {:induction false} RowsAre(palette: Pixels, bits: nat, tw: nat, th: nat, data: seq<byte>)
    returns (rows: seq<seq<nat>>)
    requires (bits == 1 || bits == 2 || bits == 4) && ReadRows(palette, bits, tw, th, data).Ok?
    ensures |rows| == th && forall y :: 0 <= y < th ==> ValidRow(rows[y], bits, tw, |palette|)
    ensures data == EncodeRows(rows, bits, tw, |palette|) + ReadRows(palette, bits, tw, th, data).rest
    ensures RowsPixels(rows, palette, tw) == ReadRows(palette, bits, tw, th, data).value
    decreases th
  {
    hide RowDefined, RowPixels, RowSlots, RowSize, PerByte, Uniform;
    if th == 0 {
      rows := [];
      assert data == [] + data;
    } else {
      var n := RowSize(tw, bits);
      var row, rest := data[..n], data[n..];
      RowIsValid(row, bits, tw, palette);
      RowIsPacked(row, bits);
      var more := RowsAre(palette, bits, tw, th - 1, rest);
      rows := [RowSlots(row, bits)] + more;
      assert rows[1..] == more && data == row + rest;
      ConcatAssociates(row, EncodeRows(more, bits, tw, |palette|), ReadRows(palette, bits, tw, th - 1, rest).rest);
    }
  }

  // ---------------------------------------------------------------- tiles

  lemma PlainRleIs(l: Layout, tw: nat, th: nat, data: seq<byte>) returns (t: Tile)
    requires ValidLayout(l) && ReadTile(l, tw, th, data).Ok? && data[0] == 128
    ensures ValidTile(l, t, tw, th) && data == EncodeTile(l, t, tw, th) + ReadTile(l, tw, th, data).rest
  {
    hide ReadPixels, ReadPlainRuns, ReadPaletteRuns, ReadRows, EncodeRows, EncodeRuns, EncodeIndexRuns, Join, WidenEach,
         RunPixels, IndexRunPixels, ValidRow, ValidRuns, ValidIndexRuns, Uniform, RowSize;
    NoPalette(l, data[1..]);
    var runs := PlainRunsAre(l, 0, tw * th, data[1..]);
    t := PlainRle(runs);
    assert data == [data[0]] + data[1..];
    ConcatAssociates([data[0]], EncodeRuns(l, runs), ReadTile(l, tw, th, data).rest);
  }

  lemma PaletteRleIs(l: Layout, tw: nat, th: nat, data: seq<byte>) returns (t: Tile)
    requires ValidLayout(l) && ReadTile(l, tw, th, data).Ok? && data[0] > 128
    ensures ValidTile(l, t, tw, th) && data == EncodeTile(l, t, tw, th) + ReadTile(l, tw, th, data).rest
  {
    hide ReadPixels, ReadPlainRuns, ReadPaletteRuns, ReadRows, EncodeRows, EncodeRuns, EncodeIndexRuns, Join, WidenEach,
         RunPixels, IndexRunPixels, ValidRow, ValidRuns, ValidIndexRuns, Uniform, RowSize;
    var size := data[0] % 128;
    var palette := ReadPixels(l, size, data[1..]);
    var cs := PixelsAre(l, size, data[1..]);
    var runs := PaletteRunsAre(palette.value, 0, tw * th, palette.rest);
    t := PaletteRle(cs, runs);
    assert data == [data[0]] + data[1..];
    HeadPaletteBody(data[0], cs, EncodeIndexRuns(size, runs), ReadTile(l, tw, th, data).rest);
  }

  lemma RawIs(l: Layout, tw: nat, th: nat, data: seq<byte>) returns (t: Tile)
    requires ValidLayout(l) && ReadTile(l, tw, th, data).Ok? && data[0] == 0
    ensures ValidTile(l, t, tw, th) && data == EncodeTile(l, t, tw, th) + ReadTile(l, tw, th, data).rest
  {
    hide ReadPixels, ReadPlainRuns, ReadPaletteRuns, ReadRows, EncodeRows, EncodeRuns, EncodeIndexRuns, Join, WidenEach,
         RunPixels, IndexRunPixels, ValidRow, ValidRuns, ValidIndexRuns, Uniform, RowSize;
    NoPalette(l, data[1..]);
    var pixels := PixelsAre(l, tw * th, data[1..]);
    t := Raw(pixels);
    assert data == [data[0]] + data[1..];
    ConcatAssociates([data[0]], Join(pixels), ReadTile(l, tw, th, data).rest);
  }

  lemma SolidIs(l: Layout, tw: nat, th: nat, data: seq<byte>) returns (t: Tile)
    requires ValidLayout(l) && ReadTile(l, tw, th, data).Ok? && data[0] == 1
    ensures ValidTile(l, t, tw, th) && data == EncodeTile(l, t, tw, th) + ReadTile(l, tw, th, data).rest
  {
    hide ReadPixels, ReadPlainRuns, ReadPaletteRuns, ReadRows, EncodeRows, EncodeRuns, EncodeIndexRuns, Join, WidenEach,
         RunPixels, IndexRunPixels, ValidRow, ValidRuns, ValidIndexRuns, Uniform, RowSize;
    var cs := PixelsAre(l, 1, data[1..]);
    OnePixel(l, cs);
    t := Solid(cs[0]);
    assert data == [data[0]] + data[1..];
    ConcatAssociates([data[0]], cs[0], ReadTile(l, tw, th, data).rest);
  }

  lemma PackedIs(l: Layout, tw: nat, th: nat, data: seq<byte>) returns (t: Tile)
    requires ValidLayout(l) && ReadTile(l, tw, th, data).Ok? && 1 < data[0] < 128
    ensures ValidTile(l, t, tw, th) && data == EncodeTile(l, t, tw, th) + ReadTile(l, tw, th, data).rest
  {
    hide ReadPixels, ReadPlainRuns, ReadPaletteRuns, ReadRows, EncodeRows, EncodeRuns, EncodeIndexRuns, Join, WidenEach,
         RunPixels, IndexRunPixels, ValidRow, ValidRuns, ValidIndexRuns, Uniform, RowSize;
    var size: nat := data[0];
    var palette := ReadPixels(l, size, data[1..]);
    var cs := PixelsAre(l, size, data[1..]);
    var rows := RowsAre(palette.value, IndexBits(size), tw, th, palette.rest);
    t := Packed(cs, rows);
    assert data == [data[0]] + data[1..];
    HeadPaletteBody(data[0], cs, EncodeRows(rows, IndexBits(size), tw, size), ReadTile(l, tw, th, data).rest);
  }

  /** Whatever is read as a tile is the encoding of one. */
  lemma TileIs(l: Layout, tw: nat, th: nat, data: seq<byte>) returns (t: Tile)
    requires ValidLayout(l) && ReadTile(l, tw, th, data).Ok?
    ensures ValidTile(l, t, tw, th) && data == EncodeTile(l, t, tw, th) + ReadTile(l, tw, th, data).rest
  {
    assert data != [];
    hide *;
    if data[0] == 128 {
      t := PlainRleIs(l, tw, th, data);
    } else if data[0] > 128 {
      t := PaletteRleIs(l, tw, th, data);
    } else if data[0] == 0 {
      t := RawIs(l, tw, th, data);
    } else if data[0] == 1 {
      t := SolidIs(l, tw, th, data);
    } else {
      t := PackedIs(l, tw, th, data);
    }
  }

  lemma HeadPaletteBody(head: byte, cs: Pixels, body: seq<byte>, rest: seq<byte>)
    ensures [head] + (Join(cs) + (body + rest)) == ([head] + (Join(cs) + body)) + rest
  {
    hide Join;
  }

  // ---------------------------------------------------------------- whole rectangles

  /** The tile at `(r, c)`, if it is among these first tiles, is valid for its extent. */
  ghost predicate ValidSoFar(l: Layout, s: Shape, tiles: seq<Tile>, r: nat, c: nat)
    requires ValidLayout(l)
  {
    r * TILE < s.height && c * TILE < s.width && TileNo(s, TILE, r, c) < |tiles| ==>
      ValidTile(l, tiles[TileNo(s, TILE, r, c)], Extent(s.width, TILE, c), Extent(s.height, TILE, r))
  }

  ghost predicate AllValidSoFar(l: Layout, s: Shape, tiles: seq<Tile>)
    requires ValidLayout(l)
  {
    forall r: nat, c: nat :: ValidSoFar(l, s, tiles, r, c)
  }

  lemma OneMoreValid(l: Layout, s: Shape, tiles: seq<Tile>, t: Tile, r: nat, c: nat)
    requires ValidLayout(l) && AllValidSoFar(l, s, tiles)
    requires r * TILE < s.height && c * TILE < s.width && |tiles| == TileNo(s, TILE, r, c)
    requires ValidTile(l, t, Extent(s.width, TILE, c), Extent(s.height, TILE, r))
    ensures AllValidSoFar(l, s, tiles + [t])
  {
    hide Extent, Count, ValidTile;
    forall r': nat, c': nat ensures ValidSoFar(l, s, tiles + [t], r', c') {
      assert ValidSoFar(l, s, tiles, r', c');
      if r' * TILE < s.height && c' * TILE < s.width && TileNo(s, TILE, r', c')
          == |tiles| { SamePlace(s, r, c, r', c'); }
    }
  }

  lemma SamePlace(s: Shape, r: nat, c: nat, r': nat, c': nat)
    requires c * TILE < s.width && c' * TILE < s.width && TileNo(s, TILE, r, c) == TileNo(s, TILE, r', c')
    ensures r == r' && c == c'
  {
    CountIff(s.width, TILE, c);
    CountIff(s.width, TILE, c');
    DivMod(TileNo(s, TILE, r, c), Count(s.width, TILE), r, c);
    DivMod(TileNo(s, TILE, r', c'), Count(s.width, TILE), r', c');
  }

  lemma AllThere(l: Layout, s: Shape, tiles: seq<Tile>)
    requires ValidLayout(l) && AllValidSoFar(l, s, tiles) && |tiles| == Count(s.height, TILE) * Count(s.width, TILE)
    ensures Describes(l, s, tiles)
  {
    hide Extent, Count, ValidTile;
    forall r: nat, c: nat ensures DescribesAt(l, s, tiles, r, c) {
      assert ValidSoFar(l, s, tiles, r, c);
      if r * TILE < s.height && c * TILE < s.width {
        CountIff(s.width, TILE, c);
        CountIff(s.height, TILE, r);
        InArea(r, c, Count(s.width, TILE), Count(s.height, TILE));
      }
    }
  }

  /** The tiles from `(r, c)` on of a rectangle that is read. */
  lemma {:induction false} TilesAre(l: Layout, s: Shape, seen: seq<Tile>, r: nat, c: nat, data: seq<byte>, g: seq<byte>)
    returns (tiles: seq<Tile>)
    requires ValidLayout(l) && s.bypp == l.bypp && |g| == s.Size() && ReadTiles(l, s, r, c, data, g).Ok?
    requires r <= Count(s.height, TILE) && c <= Count(s.width, TILE) && (r * TILE >= s.height ==> c == 0)
    requires |seen| == TileNo(s, TILE, r, c) && AllValidSoFar(l, s, seen)
    ensures Describes(l, s, tiles) && |seen| <= |tiles| && tiles[..|seen|] == seen
    ensures data == EncodeFrom(l, s, tiles, r, c) + ReadTiles(l, s, r, c, data, g).rest
    decreases s.height - r * TILE, s.width - c * TILE
  {
    hide ReadTile, EncodeTile, PaintTile, Describes, AllValidSoFar, Extent, Count, ValidTile, TileNo;
    if r * TILE >= s.height {
      LastRow(s, r);
      tiles := seen;
      AllThere(l, s, tiles);
      assert data == [] + data;
    } else if c * TILE >= s.width {
      RowWraps(s, r, c);
      tiles := TilesAre(l, s, seen, r + 1, 0, data, g);
    } else {
      var w, h := Extent(s.width, TILE, c), Extent(s.height, TILE, r);
      var t := TileIs(l, w, h, data);
      OneMoreValid(l, s, seen, t, r, c);
      NextInRow(s, r, c);
      var read := ReadTile(l, w, h, data);
      tiles := TilesAre(l, s, seen + [t], r, c + 1, read.rest, PaintTile(g, s, TILE, r, c, read.value));
      assert tiles[|seen|] == t && tiles[..|seen|] == (seen + [t])[..|seen|] == seen;
      ConcatAssociates(EncodeTile(l, t, w, h), EncodeFrom(l, s, tiles, r, c + 1), ReadTiles(l, s, r, c, data, g).rest);
    }
  }

  lemma LastRow(s: Shape, r: nat)
    requires r <= Count(s.height, TILE) && r * TILE >= s.height
    ensures TileNo(s, TILE, r, 0) == Count(s.height, TILE) * Count(s.width, TILE)
  {
    CountIff(s.height, TILE, r);
  }

  lemma RowWraps(s: Shape, r: nat, c: nat)
    requires c <= Count(s.width, TILE) && c * TILE >= s.width && r * TILE < s.height
    ensures TileNo(s, TILE, r, c) == TileNo(s, TILE, r + 1, 0) && r + 1 <= Count(s.height, TILE)
  {
    CountIff(s.width, TILE, c);
    CountIff(s.height, TILE, r);
    MulAdd(r, 1, Count(s.width, TILE));
  }

  lemma NextInRow(s: Shape, r: nat, c: nat)
    requires c * TILE < s.width
    ensures TileNo(s, TILE, r, c + 1) == TileNo(s, TILE, r, c) + 1 && c + 1 <= Count(s.width, TILE)
  {
    CountIff(s.width, TILE, c);
  }

  /** The decoder accepts exactly the encodings of rectangles. */
  lemma AcceptsExactlyEncodings(l: Layout, s: Shape, data: seq<byte>)
    requires ValidLayout(l) && s.bypp == l.bypp
    ensures ReadRect(l, s, data).Ok?
            <==> exists tiles :: Describes(l, s, tiles) && EncodeFrom(l, s, tiles, 0, 0) == data
  {
    hide ReadTiles, Describes, EncodeFrom, AllValidSoFar, Count, TileNo;
    if ReadRect(l, s, data).Ok? {
      assert AllValidSoFar(l, s, []) && TileNo(s, TILE, 0, 0) == 0 by { NoneYet(l, s); }
      var tiles := TilesAre(l, s, [], 0, 0, data, Zeros(s.Size()));
      assert data == EncodeFrom(l, s, tiles, 0, 0) + [];
    }
    if exists tiles :: Describes(l, s, tiles) && EncodeFrom(l, s, tiles, 0, 0) == data {
      var tiles :| Describes(l, s, tiles) && EncodeFrom(l, s, tiles, 0, 0) == data;
      PicturesComplete(l, s, tiles);
      TilesReadBack(l, s, tiles, 0, 0, [], Zeros(s.Size()));
      assert data + [] == data;
    }
  }

  lemma NoneYet(l: Layout, s: Shape)
    requires ValidLayout(l)
    ensures AllValidSoFar(l, s, []) && TileNo(s, TILE, 0, 0) == 0
  {
  }
}
