/**
  One ZRLE tile (section 7.7.6 of RFC 6143): what a decoder reads from the decompressed bytes
  (vncdotool/decoders/zrle.py), what an encoder may write for it, and that the one inverts the other.
 */
module ZrleTile {
  import opened Arith
  import opened Bytes
  import opened Tiles
  import opened CPixels

  datatype Reason = Short | PaletteTooLarge | BadIndex | WrongCount | Leftover

  /** The pixels a tile held and the bytes after it, or why it was refused. */
  datatype Decoded<T> = Ok(value: T, rest: seq<byte>) | Bad(why: Reason)

  // ---------------------------------------------------------------- reading

  /** `count` CPIXELs. */
  function ReadPixels(l: Layout, count: nat, data: seq<byte>): (r: Decoded<Pixels>)
    requires ValidLayout(l)
    ensures r.Ok? ==> |r.value| == count && Uniform(r.value, l.bypp)
  {
    if |data| < count * l.cbytes then Bad(Short)
    else Ok(WidenAll(data[..count * l.cbytes], count, l), data[count * l.cbytes..])
  }

  /** The bytes of a run length: each 255 says another follows; together one less than the run. */
  function ReadRun(data: seq<byte>): (r: Decoded<nat>)
    ensures r.Ok? ==> 1 <= r.value && |r.rest| < |data|
    ensures r.Bad? ==> r.why == Short
  {
    if data == [] then Bad(Short)
    else if data[0] == 255 then
      match ReadRun(data[1..]) case Bad(w) => Bad(w) case Ok(n, rest) => Ok(n + 255, rest)
    else
      var part: nat := data[0];
      Ok(part + 1, data[1..])
  }

  /** Plain RLE from `got` pixels on: a pixel and its run, until the tile is full. */
  function ReadPlainRuns(l: Layout, got: nat, total: nat, data: seq<byte>): (r: Decoded<Pixels>)
    requires ValidLayout(l)
    ensures r.Ok? ==> got + |r.value| == total && Uniform(r.value, l.bypp)
    decreases |data|
  {
    if got >= total then
      if got == total then Ok([], data) else Bad(WrongCount)
    else
      match ReadPixels(l, 1, data)
      case Bad(w) => Bad(w)
      case Ok(px, after) =>
        match ReadRun(after)
        case Bad(w) => Bad(w)
        case Ok(run, more) =>
          match ReadPlainRuns(l, got + run, total, more)
          case Bad(w) => Bad(w)
          case Ok(ps, rest) => Ok(Repeat(px[0], run) + ps, rest)
  }

  /** Palette RLE from `got` pixels on: an index alone is one pixel, with its top bit set a run follows. */
  function ReadPaletteRuns(palette: Pixels, got: nat, total: nat, data: seq<byte>): (r: Decoded<Pixels>)
    ensures r.Ok? ==> got + |r.value| == total
    ensures forall n {:trigger Uniform(palette, n)} :: r.Ok? && Uniform(palette, n) ==> Uniform(r.value, n)
    decreases |data|
  {
    if got >= total then
      if got == total then Ok([], data) else Bad(WrongCount)
    else if data == [] then Bad(Short)
    else if data[0] % 128 >= |palette| then Bad(BadIndex)
    else
      var px := palette[data[0] % 128];
      if data[0] < 128 then
        match ReadPaletteRuns(palette, got + 1, total, data[1..])
        case Bad(w) => Bad(w)
        case Ok(ps, rest) => Ok([px] + ps, rest)
      else
        match ReadRun(data[1..])
        case Bad(w) => Bad(w)
        case Ok(run, more) =>
          match ReadPaletteRuns(palette, got + run, total, more)
          case Bad(w) => Bad(w)
          case Ok(ps, rest) => Ok(Repeat(px, run) + ps, rest)
  }

  /** Bits per packed index. */
  function IndexBits(size: nat): (bits: nat)
    ensures bits == 1 || bits == 2 || bits == 4
  {
    if size == 2 then 1 else if size <= 4 then 2 else 4
  }

  function PerByte(bits: nat): (n: nat)
    requires bits == 1 || bits == 2 || bits == 4
    ensures n * bits == 8 && n > 0
  {
    8 / bits
  }

  /** `(byte >> (8 - bits - slot * bits)) & mask`: the index in a slot, leftmost pixel first. */
  function IndexAt(b: byte, bits: nat, slot: nat): (i: nat)
    requires (bits == 1 || bits == 2 || bits == 4) && slot < PerByte(bits)
    ensures i < Pow2(bits)
  {
    b / Pow2(8 - bits - slot * bits) % Pow2(bits)
  }

  function RowSize(tw: nat, bits: nat): nat
    requires bits == 1 || bits == 2 || bits == 4
  {
    (tw + PerByte(bits) - 1) / PerByte(bits)
  }

  lemma SlotInRow(x: nat, tw: nat, bits: nat)
    requires (bits == 1 || bits == 2 || bits == 4) && x < tw
    ensures x / PerByte(bits) < RowSize(tw, bits) && x % PerByte(bits) < PerByte(bits)
  {
    CountIff(tw, PerByte(bits), x / PerByte(bits));
    assert x == (x / PerByte(bits)) * PerByte(bits) + x % PerByte(bits);
  }

  /** The index of pixel `x` of a packed row. */
  function RowIndex(row: seq<byte>, bits: nat, tw: nat, x: nat): nat
    requires (bits == 1 || bits == 2 || bits == 4) && |row| == RowSize(tw, bits) && x < tw
  {
    SlotInRow(x, tw, bits);
    IndexAt(row[x / PerByte(bits)], bits, x % PerByte(bits))
  }

  /** Every index of the row's `tw` pixels is in the palette; what pads the row is not looked at. */
  predicate RowDefined(row: seq<byte>, bits: nat, tw: nat, size: nat)
    requires (bits == 1 || bits == 2 || bits == 4) && |row| == RowSize(tw, bits)
  {
    forall x :: 0 <= x < tw ==> RowIndex(row, bits, tw, x) < size
  }

  function RowPixels(row: seq<byte>, bits: nat, tw: nat, palette: Pixels): (ps: Pixels)
    requires (bits == 1 || bits == 2 || bits == 4) && |row| == RowSize(tw, bits)
    requires RowDefined(row, bits, tw, |palette|)
    ensures |ps| == tw
    ensures forall n {:trigger Uniform(palette, n)} :: Uniform(palette, n) ==> Uniform(ps, n)
  {
    seq(tw, x requires 0 <= x < tw => palette[RowIndex(row, bits, tw, x)])
  }

  /** Packed rows, each its own byte-aligned unit. */
  function ReadRows(palette: Pixels, bits: nat, tw: nat, th: nat, data: seq<byte>): (r: Decoded<Pixels>)
    requires bits == 1 || bits == 2 || bits == 4
    ensures r.Ok? ==> |r.value| == tw * th
    ensures forall n {:trigger Uniform(palette, n)} :: r.Ok? && Uniform(palette, n) ==> Uniform(r.value, n)
    decreases th
  {
    if th == 0 then Ok([], data)
    else
      var size := RowSize(tw, bits);
      MulAdd(1, th - 1, tw);
      if |data| < size then Bad(Short)
      else if !RowDefined(data[..size], bits, tw, |palette|) then Bad(BadIndex)
      else
        match ReadRows(palette, bits, tw, th - 1, data[size..])
        case Bad(w) => Bad(w)
        case Ok(ps, rest) => Ok(RowPixels(data[..size], bits, tw, palette) + ps, rest)
  }

  /** One tile of `tw` by `th` pixels. */
  function ReadTile(l: Layout, tw: nat, th: nat, data: seq<byte>): (r: Decoded<Pixels>)
    requires ValidLayout(l)
    ensures r.Ok? ==> |r.value| == tw * th && Uniform(r.value, l.bypp)
  {
    if data == [] then Bad(Short)
    else
      var size := data[0] % 128;
      if data[0] < 128 && size > 16 then Bad(PaletteTooLarge)
      else
        match ReadPixels(l, size, data[1..])
        case Bad(w) => Bad(w)
        case Ok(palette, body) =>
          if data[0] >= 128 then
            if size == 0 then ReadPlainRuns(l, 0, tw * th, body) else ReadPaletteRuns(palette, 0, tw * th, body)
          else if size == 0 then ReadPixels(l, tw * th, body)
          else if size == 1 then Ok(Repeat(palette[0], tw * th), body)
          else if |body| < RowSize(tw, IndexBits(size)) * th then Bad(Short)
          else ReadRows(palette, IndexBits(size), tw, th, body)
  }
}
