/** Every way of writing a ZRLE tile that section 7.7.6 of RFC 6143 allows, and that reading it gives the tile back. */
module ZrleRoundTrip {
  import opened Arith
  import opened Bytes
  import opened Tiles
  import opened CPixels
  import opened ZrleTile

  /** A run of one CPIXEL. */
  datatype Run = Run(pixel: seq<byte>, len: nat)

  /** A run of one palette entry; a single pixel may be written in either form. */
  datatype IndexRun = IndexRun(index: nat, len: nat, long: bool)

  datatype Tile =
    | Raw(pixels: Pixels)
    | Solid(colour: seq<byte>)
    | Packed(palette: Pixels, rows: seq<seq<nat>>)     // whole packed rows of indices, padding included
    | PlainRle(runs: seq<Run>)
    | PaletteRle(palette: Pixels, indexRuns: seq<IndexRun>)

  // ---------------------------------------------------------------- pixels

  function WidenEach(cs: Pixels, l: Layout): (ps: Pixels)
    requires ValidLayout(l) && Uniform(cs, l.cbytes)
    ensures |ps| == |cs| && Uniform(ps, l.bypp)
  {
    seq(|cs|, i requires 0 <= i < |cs| => (assert |cs[i]| == l.cbytes; Widen(cs[i], l)))
  }

  lemma PixelsReadBack(l: Layout, cs: Pixels, rest: seq<byte>)
    requires ValidLayout(l) && Uniform(cs, l.cbytes)
    ensures ReadPixels(l, |cs|, Join(cs) + rest) == Ok(WidenEach(cs, l), rest)
  {
    JoinLength(cs, l.cbytes);
    JoinWidens(cs, l);
    hide Join, WidenAll, WidenEach;
    assert (Join(cs) + rest)[..|cs| * l.cbytes] == Join(cs) && (Join(cs) + rest)[|cs| * l.cbytes..] == rest;
  }

  lemma JoinWidens(cs: Pixels, l: Layout)
    requires ValidLayout(l) && Uniform(cs, l.cbytes)
    ensures |Join(cs)| == |cs| * l.cbytes
    ensures WidenAll(Join(cs), |cs|, l) == WidenEach(cs, l)
  {
    JoinLength(cs, l.cbytes);
    hide Join, WidenAll;
    forall i | 0 <= i < |cs|
      ensures WidenAll(Join(cs), |cs|, l)[i] == WidenEach(cs, l)[i]
    {
      NthOfJoin(cs, l.cbytes, i);
      WidenAllAt(Join(cs), |cs|, l, i);
    }
  }

  // ---------------------------------------------------------------- run lengths

  /** As many 255s as fit in one less than the run, and the remainder. */
  function EncodeRun(run: nat): (b: seq<byte>)
    requires run >= 1
  {
    if run - 1 >= 255 then [255] + EncodeRun(run - 255) else [run - 1]
  }

  /** The continuation code is inverted for every run length. */
  lemma {:induction false} RunReadsBack(run: nat, rest: seq<byte>)
    requires run >= 1
    ensures ReadRun(EncodeRun(run) + rest) == Ok(run, rest)
  {
    if run - 1 >= 255 {
      assert (EncodeRun(run) + rest)[1..] == EncodeRun(run - 255) + rest;
      RunReadsBack(run - 255, rest);
    } else {
      assert (EncodeRun(run) + rest)[1..] == rest;
    }
  }

  predicate ValidRuns(l: Layout, runs: seq<Run>) {
    forall i :: 0 <= i < |runs| ==> |runs[i].pixel| == l.cbytes && runs[i].len >= 1
  }

  function EncodeRuns(l: Layout, runs: seq<Run>): seq<byte>
    requires ValidRuns(l, runs)
  {
    if runs == [] then [] else runs[0].pixel + (EncodeRun(runs[0].len) + EncodeRuns(l, runs[1..]))
  }

  function RunPixels(l: Layout, runs: seq<Run>): (ps: Pixels)
    requires ValidLayout(l) && ValidRuns(l, runs)
    ensures Uniform(ps, l.bypp)
  {
    if runs == [] then [] else Repeat(Widen(runs[0].pixel, l), runs[0].len) + RunPixels(l, runs[1..])
  }

  /** One entry of a plain-RLE tile. */
  lemma RunEntryReadsBack(l: Layout, r: Run, got: nat, total: nat, tail: seq<byte>)
    requires ValidLayout(l) && |r.pixel| == l.cbytes && r.len >= 1 && got < total
    ensures ReadPlainRuns(l, got, total, r.pixel + (EncodeRun(r.len) + tail))
            == match ReadPlainRuns(l, got + r.len, total, tail)
               case Bad(w) => Bad(w)
               case Ok(ps, rest) => Ok(Repeat(Widen(r.pixel, l), r.len) + ps, rest)
  {
    var one := [r.pixel];
    assert Join(one) == r.pixel by { assert one[1..] == []; assert r.pixel + [] == r.pixel; }
    PixelsReadBack(l, one, EncodeRun(r.len) + tail);
    RunReadsBack(r.len, tail);
    assert WidenEach(one, l)[0] == Widen(r.pixel, l);
  }

  lemma {:induction false} PlainRunsReadBack(l: Layout, runs: seq<Run>, got: nat, rest: seq<byte>)
    requires ValidLayout(l) && ValidRuns(l, runs)
    ensures ReadPlainRuns(l, got, got + |RunPixels(l, runs)|, EncodeRuns(l, runs) + rest)
            == Ok(RunPixels(l, runs), rest)
    decreases |runs|
  {
    hide Widen, EncodeRun, ReadPixels, ReadRun, Uniform;
    if runs == [] {
      assert [] + rest == rest;
    } else {
      var r, more := runs[0], EncodeRuns(l, runs[1..]);
      ConcatAssociates(r.pixel, EncodeRun(r.len) + more, rest);
      ConcatAssociates(EncodeRun(r.len), more, rest);
      PlainRunsReadBack(l, runs[1..], got + r.len, rest);
      RunEntryReadsBack(l, r, got, got + |RunPixels(l, runs)|, more + rest);
    }
  }

  predicate ValidIndexRuns(size: nat, runs: seq<IndexRun>) {
    forall i :: 0 <= i < |runs| ==>
      runs[i].index < size && runs[i].index < 128 && runs[i].len >= 1 && (!runs[i].long ==> runs[i].len == 1)
  }

  function EncodeIndexRun(r: IndexRun): seq<byte>
    requires r.index < 128 && r.len >= 1
  {
    if r.long then [128 + r.index] + EncodeRun(r.len) else [r.index]
  }

  function EncodeIndexRuns(size: nat, runs: seq<IndexRun>): seq<byte>
    requires ValidIndexRuns(size, runs)
  {
    if runs == [] then [] else EncodeIndexRun(runs[0]) + EncodeIndexRuns(size, runs[1..])
  }

  function IndexRunPixels(palette: Pixels, runs: seq<IndexRun>): (ps: Pixels)
    requires ValidIndexRuns(|palette|, runs)
    ensures forall n {:trigger Uniform(palette, n)} :: Uniform(palette, n) ==> Uniform(ps, n)
  {
    if runs == [] then [] else Repeat(palette[runs[0].index], runs[0].len) + IndexRunPixels(palette, runs[1..])
  }

  /** One entry of a palette-RLE tile. */
  lemma IndexRunReadsBack(palette: Pixels, r: IndexRun, got: nat, total: nat, tail: seq<byte>)
    requires r.index < |palette| && r.index < 128 && r.len >= 1 && (!r.long ==> r.len == 1) && got < total
    ensures ReadPaletteRuns(palette, got, total, EncodeIndexRun(r) + tail)
            == match ReadPaletteRuns(palette, got + r.len, total, tail)
               case Bad(w) => Bad(w)
               case Ok(ps, rest) => Ok(Repeat(palette[r.index], r.len) + ps, rest)
  {
    var data := EncodeIndexRun(r) + tail;
    assert data[0] == if r.long then 128 + r.index else r.index;
    if r.long {
      assert data[1..] == EncodeRun(r.len) + tail;
      RunReadsBack(r.len, tail);
    } else {
      assert data[1..] == tail;
      assert Repeat(palette[r.index], 1) == [palette[r.index]];
    }
  }

  lemma {:induction false} PaletteRunsReadBack(palette: Pixels, runs: seq<IndexRun>, got: nat, rest: seq<byte>)
    requires ValidIndexRuns(|palette|, runs)
    ensures ReadPaletteRuns(palette, got, got + |IndexRunPixels(palette, runs)|,
                            EncodeIndexRuns(|palette|, runs) + rest)
            == Ok(IndexRunPixels(palette, runs), rest)
    decreases |runs|
  {
    hide Uniform, EncodeIndexRun;
    if runs == [] {
      assert [] + rest == rest;
    } else {
      var r, more := runs[0], EncodeIndexRuns(|palette|, runs[1..]);
      ConcatAssociates(EncodeIndexRun(r), more, rest);
      PaletteRunsReadBack(palette, runs[1..], got + r.len, rest);
      IndexRunReadsBack(palette, r, got, got + |IndexRunPixels(palette, runs)|, more + rest);
    }
  }

  // ---------------------------------------------------------------- packed rows

  predicate ValidIndices(ix: seq<nat>, bits: nat) { forall i :: 0 <= i < |ix| ==> ix[i] < Pow2(bits) }

  /** One byte's worth of indices, leftmost in the high bits. */
  function PackByte(ix: seq<nat>, bits: nat): (b: byte)
    requires bits == 1 || bits == 2 || bits == 4
    requires |ix| == PerByte(bits) && ValidIndices(ix, bits)
  {
    Powers();
    if bits == 4 then 16 * ix[0] + ix[1]
    else if bits == 2 then 64 * ix[0] + 16 * ix[1] + 4 * ix[2] + ix[3]
    else 128 * ix[0] + 64 * ix[1] + 32 * ix[2] + 16 * ix[3] + 8 * ix[4] + 4 * ix[5] + 2 * ix[6] + ix[7]
  }

  /** A digit of a number written in base `p`, with `q` the weight of the digit. */
  lemma Digit(v: nat, q: nat, p: nat, high: nat, digit: nat, low: nat)
    requires v == (high * p + digit) * q + low && low < q && digit < p
    ensures v / q % p == digit
  {
    DivMod(v, q, high * p + digit, low);
    DivMod(high * p + digit, p, high, digit);
  }

  lemma FourBitsUnpack(a: nat, b: nat)
    requires a < 16 && b < 16
    ensures (16 * a + b) / 16 % 16 == a && (16 * a + b) % 16 == b
  {
  }

  lemma TwoBitsUnpack(a: nat, b: nat, c: nat, d: nat)
    requires a < 4 && b < 4 && c < 4 && d < 4
    ensures var v := 64 * a + 16 * b + 4 * c + d;
            v / 64 % 4 == a && v / 16 % 4 == b && v / 4 % 4 == c && v % 4 == d
  {
    var v := 64 * a + 16 * b + 4 * c + d;
    Digit(v, 64, 4, 0, a, 16 * b + 4 * c + d);
    Digit(v, 16, 4, a, b, 4 * c + d);
    Digit(v, 4, 4, 4 * a + b, c, d);
  }

  lemma OneBitUnpacks(ix: seq<nat>, v: nat)
    requires |ix| == 8 && forall i :: 0 <= i < 8 ==> ix[i] < 2
    requires v == 128 * ix[0] + 64 * ix[1] + 32 * ix[2] + 16 * ix[3] + 8 * ix[4] + 4 * ix[5] + 2 * ix[6] + ix[7]
    ensures v / 128 % 2 == ix[0] && v / 64 % 2 == ix[1] && v / 32 % 2 == ix[2] && v / 16 % 2 == ix[3]
    ensures v / 8 % 2 == ix[4] && v / 4 % 2 == ix[5] && v / 2 % 2 == ix[6] && v % 2 == ix[7]
  {
    var high := 8 * ix[0] + 4 * ix[1] + 2 * ix[2] + ix[3];
    var low := 8 * ix[4] + 4 * ix[5] + 2 * ix[6] + ix[7];
    Digit(v, 128, 2, 0, ix[0], v - 128 * ix[0]);
    Digit(v, 64, 2, ix[0], ix[1], v - 128 * ix[0] - 64 * ix[1]);
    Digit(v, 32, 2, 2 * ix[0] + ix[1], ix[2], 16 * ix[3] + low);
    Digit(v, 16, 2, 4 * ix[0] + 2 * ix[1] + ix[2], ix[3], low);
    Digit(v, 8, 2, high, ix[4], 4 * ix[5] + 2 * ix[6] + ix[7]);
    Digit(v, 4, 2, 2 * high + ix[4], ix[5], 2 * ix[6] + ix[7]);
    Digit(v, 2, 2, 4 * high + 2 * ix[4] + ix[5], ix[6], ix[7]);
    Digit(v, 1, 2, 8 * high + 4 * ix[4] + 2 * ix[5] + ix[6], ix[7], 0);
  }

  lemma FourBitByte(ix: seq<nat>, slot: nat)
    requires |ix| == PerByte(4) && ValidIndices(ix, 4) && slot < PerByte(4)
    ensures IndexAt(PackByte(ix, 4), 4, slot) == ix[slot]
  {
    Powers();
    FourBitsUnpack(ix[0], ix[1]);
    assert slot == 0 || slot == 1;
  }

  lemma TwoBitByte(ix: seq<nat>, slot: nat)
    requires |ix| == PerByte(2) && ValidIndices(ix, 2) && slot < PerByte(2)
    ensures IndexAt(PackByte(ix, 2), 2, slot) == ix[slot]
  {
    Powers();
    TwoBitsUnpack(ix[0], ix[1], ix[2], ix[3]);
    assert slot == 0 || slot == 1 || slot == 2 || slot == 3;
  }

  lemma OneBitByte(ix: seq<nat>, slot: nat)
    requires |ix| == PerByte(1) && ValidIndices(ix, 1) && slot < PerByte(1)
    ensures IndexAt(PackByte(ix, 1), 1, slot) == ix[slot]
  {
    Powers();
    OneBitUnpacks(ix, PackByte(ix, 1));
    assert slot == 0 || slot == 1 || slot == 2 || slot == 3 || slot == 4 || slot == 5 || slot == 6 || slot == 7;
  }

  lemma ByteUnpacks(ix: seq<nat>, bits: nat, slot: nat)
    requires bits == 1 || bits == 2 || bits == 4
    requires |ix| == PerByte(bits) && ValidIndices(ix, bits) && slot < PerByte(bits)
    ensures IndexAt(PackByte(ix, bits), bits, slot) == ix[slot]
  {
    hide PackByte, IndexAt, ValidIndices, PerByte;
    if bits == 4 { FourBitByte(ix, slot); } else if bits == 2 { TwoBitByte(ix, slot); } else { OneBitByte(ix, slot); }
  }

  /** A row of indices, whole bytes long. */
  predicate ValidRow(row: seq<nat>, bits: nat, tw: nat, size: nat)
    requires bits == 1 || bits == 2 || bits == 4
  {
    && |row| == RowSize(tw, bits) * PerByte(bits) && ValidIndices(row, bits)
    && tw <= |row| && forall x :: 0 <= x < tw ==> row[x] < size
  }

  function EncodeRow(row: seq<nat>, bits: nat, n: nat): (b: seq<byte>)
    requires (bits == 1 || bits == 2 || bits == 4) && |row| == n * PerByte(bits) && ValidIndices(row, bits)
    ensures |b| == n
  {
    seq(n, j requires 0 <= j < n => (InArea(j, 0, PerByte(bits), n); MulAdd(j, 1, PerByte(bits)); MulMono(j + 1, n,
        PerByte(bits));
                                     PackByte(row[j * PerByte(bits)..(j + 1) * PerByte(bits)], bits)))
  }

  lemma EncodedByte(row: seq<nat>, bits: nat, n: nat, j: nat)
    requires (bits == 1 || bits == 2 || bits == 4) && |row| == n * PerByte(bits) && ValidIndices(row, bits) && j < n
    ensures 0 <= j * PerByte(bits) <= (j + 1) * PerByte(bits) <= |row| && (j + 1) * PerByte(bits) - j * PerByte(bits)
            == PerByte(bits)
    ensures EncodeRow(row, bits, n)[j] == PackByte(row[j * PerByte(bits)..(j + 1) * PerByte(bits)], bits)
  {
    InArea(j, 0, PerByte(bits), n);
    MulAdd(j, 1, PerByte(bits));
    MulMono(j + 1, n, PerByte(bits));
    hide PackByte;
  }

  lemma RowUnpacks(row: seq<nat>, bits: nat, tw: nat, size: nat, x: nat)
    requires (bits == 1 || bits == 2 || bits == 4) && ValidRow(row, bits, tw, size) && x < tw
    ensures RowIndex(EncodeRow(row, bits, RowSize(tw, bits)), bits, tw, x) == row[x]
  {
    assert |row| == RowSize(tw, bits) * PerByte(bits) && ValidIndices(row, bits);
    var j, slot := SlotOf(EncodeRow(row, bits, RowSize(tw, bits)), bits, tw, x);
    hide *;
    SlotUnpacks(row, bits, RowSize(tw, bits), j, slot);
  }

  /** Where pixel `x` of a packed row is. */
  lemma SlotOf(packed: seq<byte>, bits: nat, tw: nat, x: nat) returns (j: nat, slot: nat)
    requires (bits == 1 || bits == 2 || bits == 4) && |packed| == RowSize(tw, bits) && x < tw
    ensures j < |packed| && slot < PerByte(bits) && x == j * PerByte(bits) + slot
    ensures RowIndex(packed, bits, tw, x) == IndexAt(packed[j], bits, slot)
  {
    SlotInRow(x, tw, bits);
    j, slot := x / PerByte(bits), x % PerByte(bits);
    hide IndexAt, RowSize, PerByte;
  }

  lemma SlotUnpacks(row: seq<nat>, bits: nat, n: nat, j: nat, slot: nat)
    requires (bits == 1 || bits == 2 || bits == 4) && |row| == n * PerByte(bits) && ValidIndices(row, bits)
    requires j < n && slot < PerByte(bits)
    ensures j * PerByte(bits) + slot < |row|
    ensures IndexAt(EncodeRow(row, bits, n)[j], bits, slot) == row[j * PerByte(bits) + slot]
  {
    EncodedByte(row, bits, n, j);
    var from, end := j * PerByte(bits), (j + 1) * PerByte(bits);
    hide *;
    IndicesOfSlice(row, bits, from, end);
    ByteUnpacks(row[from..end], bits, slot);
    SliceAt(row, from, end, slot);
  }

  lemma IndicesOfSlice(row: seq<nat>, bits: nat, from: nat, end: nat)
    requires ValidIndices(row, bits) && from <= end <= |row|
    ensures ValidIndices(row[from..end], bits)
  {
  }

  lemma SliceAt(row: seq<nat>, from: nat, end: nat, k: nat)
    requires from <= end <= |row| && k < end - from
    ensures row[from..end][k] == row[from + k]
  {
  }

  function EncodeValidRow(row: seq<nat>, bits: nat, tw: nat, size: nat): (b: seq<byte>)
    requires (bits == 1 || bits == 2 || bits == 4) && ValidRow(row, bits, tw, size)
    ensures |b| == RowSize(tw, bits)
  {
    EncodeRow(row, bits, RowSize(tw, bits))
  }

  lemma RowsAdd(size: nat, rows: nat)
    requires rows > 0
    ensures size + size * (rows - 1) == size * rows
  {
  }

  function EncodeRows(rows: seq<seq<nat>>, bits: nat, tw: nat, size: nat): (b: seq<byte>)
    requires bits == 1 || bits == 2 || bits == 4
    requires forall y :: 0 <= y < |rows| ==> ValidRow(rows[y], bits, tw, size)
    ensures |b| == RowSize(tw, bits) * |rows|
  {
    if rows == [] then []
    else
      RowsAdd(RowSize(tw, bits), |rows|);
      EncodeValidRow(rows[0], bits, tw, size) + EncodeRows(rows[1..], bits, tw, size)
  }

  /** What rows of indices mean: the palette entries of their first `tw` indices. */
  function RowsPixels(rows: seq<seq<nat>>, palette: Pixels, tw: nat): (ps: Pixels)
    requires forall y :: 0 <= y < |rows| ==> tw <= |rows[y]| && forall x :: 0 <= x < tw ==> rows[y][x] < |palette|
  {
    if rows == [] then []
    else
      var row := rows[0];
      seq(tw, x requires 0 <= x < tw => palette[row[x]]) + RowsPixels(rows[1..], palette, tw)
  }

  lemma {:induction false} RowsReadBack(palette: Pixels, rows: seq<seq<nat>>, bits: nat, tw: nat, rest: seq<byte>)
    requires bits == 1 || bits == 2 || bits == 4
    requires forall y :: 0 <= y < |rows| ==> ValidRow(rows[y], bits, tw, |palette|)
    ensures ReadRows(palette, bits, tw, |rows|, EncodeRows(rows, bits, tw, |palette|) + rest)
            == Ok(RowsPixels(rows, palette, tw), rest)
    decreases |rows|
  {
    if rows == [] {
      assert [] + rest == rest;
    } else {
      var n := RowSize(tw, bits);
      assert ValidRow(rows[0], bits, tw, |palette|);
      var row := EncodeRow(rows[0], bits, n);
      var tail := EncodeRows(rows[1..], bits, tw, |palette|) + rest;
      var data := EncodeRows(rows, bits, tw, |palette|) + rest;
      assert data == row + tail && data[..n] == row && data[n..] == tail;
      RowReadsBack(palette, rows[0], bits, tw);
      RowsReadBack(palette, rows[1..], bits, tw, rest);
    }
  }

  lemma RowReadsBack(palette: Pixels, row: seq<nat>, bits: nat, tw: nat)
    requires (bits == 1 || bits == 2 || bits == 4) && ValidRow(row, bits, tw, |palette|)
    ensures var packed := EncodeRow(row, bits, RowSize(tw, bits));
            RowDefined(packed, bits, tw, |palette|)
            && RowPixels(packed, bits, tw, palette) == seq(tw, x requires 0 <= x < tw => palette[row[x]])
  {
    var packed := EncodeRow(row, bits, RowSize(tw, bits));
    forall x | 0 <= x < tw
      ensures RowIndex(packed, bits, tw, x) == row[x]
    {
      RowUnpacks(row, bits, tw, |palette|, x);
    }
  }

  // ---------------------------------------------------------------- whole tiles

  predicate ValidTile(l: Layout, t: Tile, tw: nat, th: nat)
    requires ValidLayout(l)
  {
    match t
    case Raw(pixels) => |pixels| == tw * th && Uniform(pixels, l.cbytes)
    case Solid(colour) => |colour| == l.cbytes
    case Packed(palette, rows) =>
      && 2 <= |palette| <= 16 && Uniform(palette, l.cbytes) && |rows| == th
      && forall y :: 0 <= y < |rows| ==> ValidRow(rows[y], IndexBits(|palette|), tw, |palette|)
    case PlainRle(runs) => ValidRuns(l, runs) && |RunPixels(l, runs)| == tw * th
    case PaletteRle(palette, runs) =>
      && 1 <= |palette| <= 127 && Uniform(palette, l.cbytes) && ValidIndexRuns(|palette|, runs)
      && |IndexRunPixels(WidenEach(palette, l), runs)| == tw * th
  }

  function EncodeTile(l: Layout, t: Tile, tw: nat, th: nat): seq<byte>
    requires ValidLayout(l) && ValidTile(l, t, tw, th)
  {
    match t
    case Raw(pixels) => [0] + Join(pixels)
    case Solid(colour) => [1] + colour
    case Packed(palette, rows) =>
      [|palette|] + (Join(palette) + EncodeRows(rows, IndexBits(|palette|), tw, |palette|))
    case PlainRle(runs) => [128] + EncodeRuns(l, runs)
    case PaletteRle(palette, runs) => [128 + |palette|] + (Join(palette) + EncodeIndexRuns(|palette|, runs))
  }

  /** The pixels a tile describes, in row order. */
  function TilePixels(l: Layout, t: Tile, tw: nat, th: nat): (ps: Pixels)
    requires ValidLayout(l) && ValidTile(l, t, tw, th)
  {
    match t
    case Raw(pixels) => WidenEach(pixels, l)
    case Solid(colour) => Repeat(Widen(colour, l), tw * th)
    case Packed(palette, rows) => RowsPixels(rows, WidenEach(palette, l), tw)
    case PlainRle(runs) => RunPixels(l, runs)
    case PaletteRle(palette, runs) => IndexRunPixels(WidenEach(palette, l), runs)
  }

  /** The bytes after the subencoding. */
  lemma AfterHead(head: byte, body: seq<byte>, rest: seq<byte>)
    ensures ([head] + body) + rest == [head] + (body + rest)
    ensures (([head] + body) + rest)[1..] == body + rest && (([head] + body) + rest)[0] == head
  {
  }

  lemma NoPalette(l: Layout, data: seq<byte>)
    requires ValidLayout(l)
    ensures ReadPixels(l, 0, data) == Ok([], data)
  {
    assert data[..0] == [] && data[0..] == data;
  }

  lemma RawReadsBack(l: Layout, t: Tile, tw: nat, th: nat, rest: seq<byte>)
    requires ValidLayout(l) && ValidTile(l, t, tw, th) && t.Raw?
    ensures ReadTile(l, tw, th, EncodeTile(l, t, tw, th) + rest) == Ok(TilePixels(l, t, tw, th), rest)
  {
    hide ReadPixels, ReadPlainRuns, ReadPaletteRuns, ReadRows, EncodeRows, EncodeRuns, EncodeIndexRuns, Join, WidenEach;
    AfterHead(0, Join(t.pixels), rest);
    NoPalette(l, Join(t.pixels) + rest);
    PixelsReadBack(l, t.pixels, rest);
  }

  lemma PackedReadsBack(l: Layout, t: Tile, tw: nat, th: nat, rest: seq<byte>)
    requires ValidLayout(l) && ValidTile(l, t, tw, th) && t.Packed?
    ensures ReadTile(l, tw, th, EncodeTile(l, t, tw, th) + rest) == Ok(TilePixels(l, t, tw, th), rest)
  {
    hide ReadPixels, ReadPlainRuns, ReadPaletteRuns, ReadRows, EncodeRows, EncodeRuns, EncodeIndexRuns, Join, WidenEach;
    var palette, body := t.palette, EncodeRows(t.rows, IndexBits(|t.palette|), tw, |t.palette|);
    AfterHead(|palette|, Join(palette) + body, rest);
    ConcatAssociates(Join(palette), body, rest);
    PixelsReadBack(l, palette, body + rest);
    RowsReadBack(WidenEach(palette, l), t.rows, IndexBits(|palette|), tw, rest);
  }

  lemma PlainRleReadsBack(l: Layout, t: Tile, tw: nat, th: nat, rest: seq<byte>)
    requires ValidLayout(l) && ValidTile(l, t, tw, th) && t.PlainRle?
    ensures ReadTile(l, tw, th, EncodeTile(l, t, tw, th) + rest) == Ok(TilePixels(l, t, tw, th), rest)
  {
    hide ReadPixels, ReadPlainRuns, ReadPaletteRuns, ReadRows, EncodeRows, EncodeRuns, EncodeIndexRuns, Join, WidenEach;
    AfterHead(128, EncodeRuns(l, t.runs), rest);
    NoPalette(l, EncodeRuns(l, t.runs) + rest);
    PlainRunsReadBack(l, t.runs, 0, rest);
  }

  lemma PaletteRleReadsBack(l: Layout, t: Tile, tw: nat, th: nat, rest: seq<byte>)
    requires ValidLayout(l) && ValidTile(l, t, tw, th) && t.PaletteRle?
    ensures ReadTile(l, tw, th, EncodeTile(l, t, tw, th) + rest) == Ok(TilePixels(l, t, tw, th), rest)
  {
    hide ReadPixels, ReadPlainRuns, ReadPaletteRuns, ReadRows, EncodeRows, EncodeRuns, EncodeIndexRuns, Join, WidenEach;
    var palette, body := t.palette, EncodeIndexRuns(|t.palette|, t.indexRuns);
    AfterHead(128 + |palette|, Join(palette) + body, rest);
    ConcatAssociates(Join(palette), body, rest);
    PixelsReadBack(l, palette, body + rest);
    PaletteRunsReadBack(WidenEach(palette, l), t.indexRuns, 0, rest);
  }

  /** Reading any valid tile gives exactly the pixels it describes, and stops at its last byte. */
  lemma TileReadsBack(l: Layout, t: Tile, tw: nat, th: nat, rest: seq<byte>)
    requires ValidLayout(l) && ValidTile(l, t, tw, th)
    ensures ReadTile(l, tw, th, EncodeTile(l, t, tw, th) + rest) == Ok(TilePixels(l, t, tw, th), rest)
  {
    SolidIs(l, t, tw, th, rest);
    hide *;
    match t
    case Raw(_) => RawReadsBack(l, t, tw, th, rest);
    case Solid(_) =>
    case Packed(_, _) => PackedReadsBack(l, t, tw, th, rest);
    case PlainRle(_) => PlainRleReadsBack(l, t, tw, th, rest);
    case PaletteRle(_, _) => PaletteRleReadsBack(l, t, tw, th, rest);
  }

  lemma SolidIs(l: Layout, t: Tile, tw: nat, th: nat, rest: seq<byte>)
    requires ValidLayout(l) && ValidTile(l, t, tw, th)
    ensures t.Solid? ==> ReadTile(l, tw, th, EncodeTile(l, t, tw, th) + rest) == Ok(TilePixels(l, t, tw, th), rest)
  {
    if t.Solid? { SolidReadsBack(l, t.colour, tw, th, rest); }
    hide ReadTile;
  }

  lemma SolidReadsBack(l: Layout, colour: seq<byte>, tw: nat, th: nat, rest: seq<byte>)
    requires ValidLayout(l) && |colour| == l.cbytes
    ensures ReadTile(l, tw, th, ([1] + colour) + rest) == Ok(Repeat(Widen(colour, l), tw * th), rest)
  {
    var one := [colour];
    assert Join(one) == colour by { assert one[1..] == []; assert colour + [] == colour; }
    AfterHead(1, colour, rest);
    PixelsReadBack(l, one, rest);
    assert WidenEach(one, l)[0] == Widen(colour, l);
  }
}
