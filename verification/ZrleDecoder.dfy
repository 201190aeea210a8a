/**
  `ZRLEDecoder.decodePixels` and `_index_tables` of vncdotool/decoders/zrle.py: positions into the
  decompressed data, precomputed tables and the rectangle buffer, against the reading of a tile.
 */
module ZrleDecoder {
  import opened Arith
  import opened Bytes
  import opened Grid
  import opened Tiles
  import opened CPixels
  import opened ZrleTile
  import opened ZrleRect
  import opened RectBuffer

  // ---------------------------------------------------------------- precomputed tables

  predicate Bits(bits: nat) { bits == 1 || bits == 2 || bits == 4 }

  /** The pixels one packed byte stands for; an undefined index is a blank pixel. */
  function ByteSlots(palette: Pixels, bits: nat, n: nat, b: byte): (ps: Pixels)
    requires Bits(bits) && Uniform(palette, n)
    ensures |ps| == PerByte(bits) && Uniform(ps, n)
  {
    seq(PerByte(bits), slot requires 0 <= slot < PerByte(bits) =>
      if IndexAt(b, bits, slot) < |palette|
      then (assert |palette[IndexAt(b, bits, slot)]| == n; palette[IndexAt(b, bits, slot)])
      else Zeros(n))
  }

  /** Which of a packed byte's slots have no palette entry. */
  function ByteFlags(size: nat, bits: nat, b: byte): (fs: seq<byte>)
    requires Bits(bits)
    ensures |fs| == PerByte(bits)
  {
    seq(PerByte(bits), slot requires 0 <= slot < PerByte(bits) => if IndexAt(b, bits, slot) >= size then 1 else 0)
  }

  /** The tables of a palette: what each byte expands to, and which of its slots are undefined. */
  ghost predicate TablesOf(palette: Pixels, bits: nat, n: nat, expanded: Pixels, undefined: Option<Pixels>)
    requires Bits(bits) && Uniform(palette, n)
  {
    && |expanded| == 256 && (forall b: byte :: expanded[b] == Join(ByteSlots(palette, bits, n, b)))
    && (undefined.None? <==> |palette| == Pow2(bits))
    && (undefined.Some? ==>
          |undefined.value| == 256 && forall b: byte :: undefined.value[b] == ByteFlags(|palette|, bits, b))
  }

  /** `_index_tables`: the second table is absent where no byte can hold a bad index. */
  method IndexTables(palette: Pixels, bits: nat, n: nat)
    returns (expanded: Pixels, undefined: Option<Pixels>)
    requires Bits(bits) && 0 < |palette| && Uniform(palette, n)
    ensures TablesOf(palette, bits, n, expanded, undefined)
  {
    expanded := [];
    var flags: Pixels := [];
    for b := 0 to 256
      invariant |expanded| == |flags| == b
      invariant forall i: byte :: i < b ==> expanded[i] == Join(ByteSlots(palette, bits, n, i))
      invariant forall i: byte :: i < b ==> flags[i] == ByteFlags(|palette|, bits, i)
    {
      expanded := expanded + [Join(ByteSlots(palette, bits, n, b))];
      flags := flags + [ByteFlags(|palette|, bits, b)];
    }
    undefined := if |palette| == Pow2(bits) then None else Some(flags);
  }

  /** `b"".join(map(table.__getitem__, packed))`. */
  function Lookup(table: Pixels, packed: seq<byte>): (parts: Pixels)
    requires |table| == 256
    ensures |parts| == |packed|
  {
    seq(|packed|, j requires 0 <= j < |packed| => table[packed[j]])
  }

  /** Where byte `i` of an expanded row comes from. */
  lemma RowByte(i: nat, n: nat, per: nat)
    requires 0 < n && 0 < per
    ensures var x, k := i / n, i % n;
            k < n && x % per < per && i == (x / per) * (per * n) + ((x % per) * n + k) && (x % per) * n + k < per * n
  {
    var x, k := i / n, i % n;
    assert i == x * n + k && x == (x / per) * per + x % per;
    MulAdd((x / per) * per, x % per, n);
    MulSwap(x / per, per, n);
    InArea(x % per, k, n, per);
  }

  /** Expanding whole bytes and cutting off the padding gives the row's pixels, when they are all defined. */
  lemma TableExpandsRow(palette: Pixels, bits: nat, n: nat, table: Pixels, row: seq<byte>, tw: nat)
    requires Bits(bits) && 0 < n && Uniform(palette, n) && |table| == 256
    requires forall b: byte :: table[b] == Join(ByteSlots(palette, bits, n, b))
    requires |row| == RowSize(tw, bits) && RowDefined(row, bits, tw, |palette|)
    ensures tw * n <= |Join(Lookup(table, row))|
    ensures Join(Lookup(table, row))[..tw * n] == Join(RowPixels(row, bits, tw, palette))
  {
    hide ByteSlots, RowPixels, IndexAt, Join;
    var per, parts, ps := PerByte(bits), Lookup(table, row), RowPixels(row, bits, tw, palette);
    var cut := tw * n;
    forall j | 0 <= j < |parts|
      ensures |parts[j]| == per * n
    {
      JoinLength(ByteSlots(palette, bits, n, row[j]), n);
    }
    JoinLength(parts, per * n);
    assert Uniform(ps, n);
    JoinLength(ps, n);
    RowCovers(tw, bits, n);
    var left, right := Join(parts), Join(ps);
    forall i | 0 <= i < cut
      ensures left[i] == right[i]
    {
      RowInRange(i, n, tw);
      RowByteExpands(palette, bits, n, table, row, tw, i);
    }
    assert left[..cut] == right;
  }

  lemma RowCovers(tw: nat, bits: nat, n: nat)
    requires Bits(bits)
    ensures tw * n <= RowSize(tw, bits) * (PerByte(bits) * n)
  {
    var per := PerByte(bits);
    assert tw <= RowSize(tw, bits) * per;
    MulMono(tw, RowSize(tw, bits) * per, n);
    MulSwap(RowSize(tw, bits), per, n);
  }

  lemma RowByteExpands(palette: Pixels, bits: nat, n: nat, table: Pixels, row: seq<byte>, tw: nat, i: nat)
    requires Bits(bits) && 0 < n && Uniform(palette, n) && |table| == 256
    requires forall b: byte :: table[b] == Join(ByteSlots(palette, bits, n, b))
    requires |row| == RowSize(tw, bits) && RowDefined(row, bits, tw, |palette|) && i < tw * n
    ensures i < |Join(Lookup(table, row))| && i < |Join(RowPixels(row, bits, tw, palette))|
    ensures Join(Lookup(table, row))[i] == Join(RowPixels(row, bits, tw, palette))[i]
  {
    hide Join, Lookup, IndexAt;
    var per, parts, ps := PerByte(bits), Lookup(table, row), RowPixels(row, bits, tw, palette);
    var x, k := i / n, i % n;
    RowInRange(i, n, tw);
    RowByte(i, n, per);
    SlotInRow(x, tw, bits);
    LookupUniform(palette, bits, n, table, row);
    JoinAt(parts, per * n, x / per, (x % per) * n + k);
    LookupAt(table, row, x / per);
    JoinAt(ByteSlots(palette, bits, n, row[x / per]), n, x % per, k);
    assert Uniform(ps, n);
    JoinAt(ps, n, x, k);
    assert RowIndex(row, bits, tw, x) < |palette|;
  }

  lemma LookupAt(table: Pixels, row: seq<byte>, j: nat)
    requires |table| == 256 && j < |row|
    ensures Lookup(table, row)[j] == table[row[j]]
  {
  }

  lemma LookupUniform(palette: Pixels, bits: nat, n: nat, table: Pixels, row: seq<byte>)
    requires Bits(bits) && Uniform(palette, n) && |table| == 256
    requires forall b: byte :: table[b] == Join(ByteSlots(palette, bits, n, b))
    ensures Uniform(Lookup(table, row), PerByte(bits) * n)
  {
    forall j | 0 <= j < |row|
      ensures |Lookup(table, row)[j]| == PerByte(bits) * n
    {
      JoinLength(ByteSlots(palette, bits, n, row[j]), n);
    }
  }

  /** Python's `any` over a byte string. */
  predicate AnySet(flags: seq<byte>) { exists i :: 0 <= i < |flags| && flags[i] != 0 }

  /** A row is refused exactly when one of its first `tw` indices is undefined; its padding never matters. */
  lemma FlagsRejectRow(size: nat, bits: nat, table: Pixels, row: seq<byte>, tw: nat)
    requires Bits(bits) && |table| == 256 && |row| == RowSize(tw, bits)
    requires forall b: byte :: table[b] == ByteFlags(size, bits, b)
    ensures tw <= |Join(Lookup(table, row))|
    ensures AnySet(Join(Lookup(table, row))[..tw]) <==> !RowDefined(row, bits, tw, size)
  {
    var per, parts := PerByte(bits), Lookup(table, row);
    assert Uniform(parts, per);
    JoinLength(parts, per);
    RowCovers(tw, bits, 1);
    hide Join, IndexAt, RowSize, PerByte, ByteFlags, Uniform;
    var flags := Join(parts)[..tw];
    forall x | 0 <= x < tw
      ensures flags[x] != 0 <==> RowIndex(row, bits, tw, x) >= size
    {
      FlagOfPixel(size, bits, table, row, tw, x);
    }
  }

  lemma FlagOfPixel(size: nat, bits: nat, table: Pixels, row: seq<byte>, tw: nat, x: nat)
    requires Bits(bits) && |table| == 256 && |row| == RowSize(tw, bits) && x < tw
    requires forall b: byte :: table[b] == ByteFlags(size, bits, b)
    ensures x < |Join(Lookup(table, row))|
    ensures Join(Lookup(table, row))[x] != 0 <==> RowIndex(row, bits, tw, x) >= size
  {
    hide Join, IndexAt;
    var per, parts := PerByte(bits), Lookup(table, row);
    assert Uniform(parts, per);
    SlotInRow(x, tw, bits);
    hide RowSize;
    JoinAt(parts, per, x / per, x % per);
    assert x == (x / per) * per + x % per;
  }

  lemma FullPaletteDefinesAll(bits: nat, row: seq<byte>, tw: nat)
    requires Bits(bits) && |row| == RowSize(tw, bits)
    ensures RowDefined(row, bits, tw, Pow2(bits))
  {
  }

  /** What is read so far, followed by what is read next. */
  function After(done: Pixels, d: Decoded<Pixels>): Decoded<Pixels> {
    match d case Bad(w) => Bad(w) case Ok(ps, rest) => Ok(done + ps, rest)
  }

  lemma RowsStep(palette: Pixels, bits: nat, tw: nat, th: nat, row: seq<byte>, more: seq<byte>, done: Pixels)
    requires Bits(bits) && 0 < th && |row| == RowSize(tw, bits)
    ensures After(done, ReadRows(palette, bits, tw, th, row + more))
            == if RowDefined(row, bits, tw, |palette|)
               then After(done + RowPixels(row, bits, tw, palette), ReadRows(palette, bits, tw, th - 1, more))
               else Bad(BadIndex)
  {
    hide RowDefined, RowPixels, Uniform;
    assert (row + more)[..|row|] == row && (row + more)[|row|..] == more;
    if RowDefined(row, bits, tw, |palette|) {
      var ps := RowPixels(row, bits, tw, palette);
      var r := ReadRows(palette, bits, tw, th - 1, more);
      if r.Ok? { assert done + (ps + r.value) == (done + ps) + r.value; }
    }
  }

  /** The packed rows of a tile. */
  method DecodeRows(palette: Pixels, bits: nat, n: nat, tw: nat, th: nat, data: seq<byte>)
    returns (bad: bool, rows: seq<byte>)
    requires Bits(bits) && 0 < n && 0 < |palette| && Uniform(palette, n)
    requires |data| == RowSize(tw, bits) * th
    ensures match ReadRows(palette, bits, tw, th, data)
            case Bad(w) => bad && w == BadIndex
            case Ok(ps, rest) => !bad && rows == Join(ps) && rest == []
  {
    var expanded, undefined := IndexTables(palette, bits, n);
    var size := RowSize(tw, bits);
    var pos := 0;
    rows := [];
    ghost var left := data;
    ghost var done: Pixels := [];
    NothingYet(ReadRows(palette, bits, tw, th, data));
    assert |left| == Product(size, th);
    hide *;
    for y := 0 to th
      invariant pos <= |data| && left == data[pos..] && |left| == Product(size, th - y)
      invariant rows == Join(done)
      invariant ReadRows(palette, bits, tw, th, data) == After(done, ReadRows(palette, bits, tw, th - y, left))
    {
      ProductStep(size, th - y);
      ghost var more := left[size..];
      var packed := data[pos..pos + size];
      assert left == packed + more;
      RowsStep(palette, bits, tw, th - y, packed, more, done);
      var bytes;
      bad, bytes := DecodeRow(palette, bits, n, expanded, undefined, packed, tw);
      if bad {
        return;
      }
      JoinConcat(done, RowPixels(packed, bits, tw, palette));
      rows := rows + bytes;
      done := done + RowPixels(packed, bits, tw, palette);
      left := more;
      pos := pos + size;
    }
    bad := false;
    ProductZero(size);
    NoRowsLeft(palette, bits, tw, left, done);
  }

  /** One packed row through the tables. */
  method DecodeRow(palette: Pixels, bits: nat, n: nat, expanded: Pixels, undefined: Option<Pixels>, packed: seq<byte>,
                   tw: nat)
    returns (bad: bool, bytes: seq<byte>)
    requires Bits(bits) && 0 < n && 0 < |palette| && Uniform(palette, n) && |packed| == RowSize(tw, bits)
    requires TablesOf(palette, bits, n, expanded, undefined)
    ensures bad <==> !RowDefined(packed, bits, tw, |palette|)
    ensures !bad ==> bytes == Join(RowPixels(packed, bits, tw, palette))
  {
    hide Join, ByteSlots, ByteFlags, RowDefined, RowPixels, Uniform;
    bytes := [];
    bad := RowIsBad(|palette|, bits, undefined, packed, tw);
    if !bad {
      TableExpandsRow(palette, bits, n, expanded, packed, tw);
      bytes := Join(Lookup(expanded, packed))[..tw * n];
    }
  }

  lemma NothingYet(d: Decoded<Pixels>)
    ensures After([], d) == d && Join([]) == []
  {
    if d.Ok? { assert [] + d.value == d.value; }
  }

  lemma NoRowsLeft(palette: Pixels, bits: nat, tw: nat, data: seq<byte>, done: Pixels)
    requires Bits(bits)
    ensures After(done, ReadRows(palette, bits, tw, 0, data)) == Ok(done, data)
  {
    assert done + [] == done;
  }

  method RowIsBad(size: nat, bits: nat, undefined: Option<Pixels>, packed: seq<byte>, tw: nat) returns (bad: bool)
    requires Bits(bits) && |packed| == RowSize(tw, bits)
    requires undefined.None? <==> size == Pow2(bits)
    requires undefined.Some? ==> |undefined.value| == 256
    requires undefined.Some? ==> forall b: byte :: undefined.value[b] == ByteFlags(size, bits, b)
    ensures bad <==> !RowDefined(packed, bits, tw, size)
  {
    if undefined.None? {
      FullPaletteDefinesAll(bits, packed, tw);
      return false;
    }
    FlagsRejectRow(size, bits, undefined.value, packed, tw);
    bad := AnySet(Join(Lookup(undefined.value, packed))[..tw]);
  }

  // ---------------------------------------------------------------- run-length tiles

  /** The run length at `pos`: bytes are added up for as long as each is 255. */
  method DecodeRun(data: seq<byte>, pos: nat) returns (ok: bool, run: nat, next: nat)
    requires pos <= |data|
    ensures match ReadRun(data[pos..])
            case Bad(w) => !ok && w == Short
            case Ok(n, rest) => ok && run == n && pos < next <= |data| && rest == data[next..]
  {
    run := 0;
    next := pos;
    if next >= |data| {
      return false, 0, pos;
    }
    var part := data[next];
    next := next + 1;
    assert data[pos..][0] == part && data[pos..][1..] == data[next..];
    var runMinusOne: nat := part;
    while part == 255
      invariant pos < next <= |data|
      invariant match ReadRun(data[next..])
                case Bad(w) => part == 255 ==> ReadRun(data[pos..]) == Bad(w) && w == Short
                case Ok(n, rest) => part == 255 ==> ReadRun(data[pos..]) == Ok(n + runMinusOne, rest)
      invariant part != 255 ==> ReadRun(data[pos..]) == Ok(runMinusOne + 1, data[next..])
      decreases |data| - next, if part == 255 then 1 else 0
    {
      if next >= |data| {
        return false, 0, pos;
      }
      assert data[next..][0] == data[next] && data[next..][1..] == data[next + 1..];
      part := data[next];
      next := next + 1;
      var more: nat := part;
      runMinusOne := runMinusOne + more;
    }
    return true, runMinusOne + 1, next;
  }

  /** One CPIXEL or more at `pos`, widened. */
  method DecodePixelsAt(l: Layout, count: nat, data: seq<byte>, pos: nat)
    returns (ok: bool, pixels: seq<byte>, next: nat)
    requires ValidLayout(l) && pos <= |data|
    ensures match ReadPixels(l, count, data[pos..])
            case Bad(w) => !ok && w == Short
            case Ok(ps, rest) =>
              ok && pixels == Join(ps) && next == pos + count * l.cbytes <= |data| && rest == data[next..]
  {
    var need := count * l.cbytes;
    if pos + need > |data| {
      return false, [], pos;
    }
    assert data[pos..][..need] == data[pos..pos + need] && data[pos..][need..] == data[pos + need..];
    pixels := ExpandCPixels(data[pos..pos + need], count, l);
    return true, pixels, pos + need;
  }

  lemma PlainStep(l: Layout, got: nat, total: nat, data: seq<byte>, done: Pixels)
    requires ValidLayout(l) && got < total
    ensures After(done, ReadPlainRuns(l, got, total, data))
            == match ReadPixels(l, 1, data)
               case Bad(w) => Bad(w)
               case Ok(px, after) =>
                 match ReadRun(after)
                 case Bad(w) => Bad(w)
                 case Ok(run, more) =>
                   After(done + Repeat(px[0], run), ReadPlainRuns(l, got + run, total, more))
  {
    hide Uniform, ReadRun, Repeat;
    var d := ReadPixels(l, 1, data);
    if d.Ok? && ReadRun(d.rest).Ok? {
      var run := ReadRun(d.rest);
      var more := ReadPlainRuns(l, got + run.value, total, run.rest);
      var ps := Repeat(d.value[0], run.value);
      if more.Ok? { assert done + (ps + more.value) == (done + ps) + more.value; }
    }
  }

  /** A plain-RLE tile. */
  method DecodePlainRuns(l: Layout, total: nat, data: seq<byte>, start: nat)
    returns (why: Option<Reason>, pixels: seq<byte>, pos: nat)
    requires ValidLayout(l) && start <= |data|
    ensures match ReadPlainRuns(l, 0, total, data[start..])
            case Bad(w) => why == Some(w)
            case Ok(ps, rest) => why == None && pixels == Join(ps) && pos <= |data| && rest == data[pos..]
  {
    hide Uniform, Join, ReadRun, ReadPixels, ReadPlainRuns, After;
    var got := 0;
    pixels, pos := [], start;
    ghost var whole, done := ReadPlainRuns(l, 0, total, data[start..]), [];
    NothingYet(whole);
    while got < total
      invariant pos <= |data| && pixels == Join(done)
      invariant whole == After(done, ReadPlainRuns(l, got, total, data[pos..]))
      decreases total - got
    {
      PlainStep(l, got, total, data[pos..], done);
      var ok, pixel, run;
      ghost var px := ReadPixels(l, 1, data[pos..]);
      ok, pixel, pos := DecodePixelsAt(l, 1, data, pos);
      if !ok {
        return Some(Short), [], start;
      }
      ok, run, pos := DecodeRun(data, pos);
      if !ok {
        return Some(Short), [], start;
      }
      AppendRun(done, px.value, run);
      pixels := pixels + Times(pixel, run);
      done := done + Repeat(px.value[0], run);
      got := got + run;
    }
    PlainEnd(l, got, total, data[pos..], done);
    why := if got != total then Some(WrongCount) else None;
  }

  lemma PlainEnd(l: Layout, got: nat, total: nat, data: seq<byte>, done: Pixels)
    requires ValidLayout(l) && total <= got
    ensures After(done, ReadPlainRuns(l, got, total, data)) == if got == total then Ok(done, data) else Bad(WrongCount)
  {
    assert done + [] == done;
  }

  /** Appending a run of one pixel's bytes appends that many of the pixel. */
  lemma AppendRun(done: Pixels, px: Pixels, run: nat)
    requires |px| == 1
    ensures Join(done + Repeat(px[0], run)) == Join(done) + Times(Join(px), run)
  {
    JoinConcat(done, Repeat(px[0], run));
    JoinRepeat(px[0], run);
    assert Join(px) == px[0] by { assert px[1..] == []; assert px[0] + [] == px[0]; }
  }

  lemma PaletteStep(palette: Pixels, got: nat, total: nat, data: seq<byte>, done: Pixels)
    requires got < total && data != []
    ensures After(done, ReadPaletteRuns(palette, got, total, data))
            == if data[0] % 128 >= |palette| then Bad(BadIndex)
               else if data[0] < 128
               then After(done + [palette[data[0] % 128]], ReadPaletteRuns(palette, got + 1, total, data[1..]))
               else match ReadRun(data[1..])
                    case Bad(w) => Bad(w)
                    case Ok(run, more) =>
                      After(done + Repeat(palette[data[0] % 128], run), ReadPaletteRuns(palette, got + run, total,
                          more))
  {
    hide Uniform, ReadRun, Repeat;
    if data[0] % 128 < |palette| {
      var p := palette[data[0] % 128];
      if data[0] < 128 {
        var more := ReadPaletteRuns(palette, got + 1, total, data[1..]);
        if more.Ok? { assert done + ([p] + more.value) == (done + [p]) + more.value; }
      } else if ReadRun(data[1..]).Ok? {
        var run := ReadRun(data[1..]);
        var more := ReadPaletteRuns(palette, got + run.value, total, run.rest);
        var ps := Repeat(p, run.value);
        if more.Ok? { assert done + (ps + more.value) == (done + ps) + more.value; }
      }
    }
  }

  lemma PaletteEnd(palette: Pixels, got: nat, total: nat, data: seq<byte>, done: Pixels)
    requires total <= got || data == []
    ensures After(done, ReadPaletteRuns(palette, got, total, data))
            == if got < total then Bad(Short) else if got == total then Ok(done, data) else Bad(WrongCount)
  {
    assert done + [] == done;
  }

  /** A palette-RLE tile. */
  method DecodePaletteRuns(palette: Pixels, total: nat, data: seq<byte>, start: nat)
    returns (why: Option<Reason>, pixels: seq<byte>, pos: nat)
    requires start <= |data|
    ensures match ReadPaletteRuns(palette, 0, total, data[start..])
            case Bad(w) => why == Some(w)
            case Ok(ps, rest) => why == None && pixels == Join(ps) && pos <= |data| && rest == data[pos..]
  {
    hide Uniform, Join, ReadRun, ReadPaletteRuns, After;
    var got := 0;
    pixels, pos := [], start;
    ghost var whole, done := ReadPaletteRuns(palette, 0, total, data[start..]), [];
    NothingYet(whole);
    while got < total
      invariant pos <= |data| && pixels == Join(done)
      invariant whole == After(done, ReadPaletteRuns(palette, got, total, data[pos..]))
      decreases total - got
    {
      if pos >= |data| {
        PaletteEnd(palette, got, total, data[pos..], done);
        return Some(Short), [], start;
      }
      PaletteStep(palette, got, total, data[pos..], done);
      var index := data[pos];
      assert data[pos..][0] == index && data[pos..][1..] == data[pos + 1..];
      pos := pos + 1;
      var entry := index % 128;
      if entry >= |palette| {
        return Some(BadIndex), [], start;
      }
      if index < 128 {
        AppendOne(done, palette[entry]);
        pixels := pixels + palette[entry];
        done := done + [palette[entry]];
        got := got + 1;
        continue;
      }
      var ok, run;
      ok, run, pos := DecodeRun(data, pos);
      if !ok {
        return Some(Short), [], start;
      }
      AppendMany(done, palette[entry], run);
      pixels := pixels + Times(palette[entry], run);
      done := done + Repeat(palette[entry], run);
      got := got + run;
    }
    PaletteEnd(palette, got, total, data[pos..], done);
    why := if got != total then Some(WrongCount) else None;
  }

  lemma AppendOne(done: Pixels, p: seq<byte>)
    ensures Join(done + [p]) == Join(done) + p
  {
    JoinConcat(done, [p]);
    assert [p][1..] == [];
    assert p + [] == p;
  }

  lemma AppendMany(done: Pixels, p: seq<byte>, run: nat)
    ensures Join(done + Repeat(p, run)) == Join(done) + Times(p, run)
  {
    JoinConcat(done, Repeat(p, run));
    JoinRepeat(p, run);
  }

  /** The palette of a tile, cut into pixels. */
  method DecodePalette(l: Layout, size: nat, data: seq<byte>, pos: nat)
    returns (ok: bool, palette: Pixels, next: nat)
    requires ValidLayout(l) && pos <= |data|
    ensures match ReadPixels(l, size, data[pos..])
            case Bad(w) => !ok && w == Short
            case Ok(ps, rest) => ok && palette == ps && pos <= next <= |data| && rest == data[next..]
  {
    hide Join, WidenAll, Cut;
    if size == 0 {
      assert data[pos..][..0] == [] && data[pos..][0..] == data[pos..];
      return true, [], pos;
    }
    var flat;
    ghost var d := ReadPixels(l, size, data[pos..]);
    ok, flat, next := DecodePixelsAt(l, size, data, pos);
    palette := [];
    if ok {
      CutJoined(d.value, l.bypp);
      palette := Cut(flat, size, l.bypp);
    }
  }

  /** `flat[i * bypp:(i + 1) * bypp]` for each entry. */
  function Cut(flat: seq<byte>, count: nat, n: nat): Pixels
    requires |flat| == count * n
  {
    seq(count, i requires 0 <= i < count => (NthInRange(i, count, n); Nth(flat, n, i)))
  }

  lemma CutJoined(ps: Pixels, n: nat)
    requires Uniform(ps, n)
    ensures |Join(ps)| == |ps| * n && Cut(Join(ps), |ps|, n) == ps
  {
    hide Join;
    JoinLength(ps, n);
    forall i | 0 <= i < |ps|
      ensures Cut(Join(ps), |ps|, n)[i] == ps[i]
    {
      NthOfJoin(ps, n, i);
    }
  }

  /** What a tile paints: a blit of its pixels, or for a solid tile a fill; both are accepted. */
  method Paint(target: RectBuffer, r: nat, c: nat, pixels: seq<byte>, ghost ps: Pixels)
    requires target.Valid() && r * TILE < target.shape.height && c * TILE < target.shape.width
    requires TileFits(target.shape, TILE, r, c, ps) && pixels == Join(ps)
    modifies target, target.backing
    ensures target.Valid() && target.covered && target.Beyond() == old(target.Beyond())
    ensures target.View() == PaintTile(old(target.View()), target.shape, TILE, r, c, ps)
  {
    JoinLength(ps, target.shape.bypp);
    var s := target.shape;
    var ok := target.BlitRect(c * TILE, r * TILE, Extent(s.width, TILE, c), Extent(s.height, TILE, r), pixels);
  }

  method PaintSolid(target: RectBuffer, r: nat, c: nat, colour: seq<byte>)
    requires target.Valid() && r * TILE < target.shape.height && c * TILE < target.shape.width
    requires |colour| == target.shape.bypp
    modifies target, target.backing
    ensures target.Valid() && target.covered && target.Beyond() == old(target.Beyond())
    ensures var s := target.shape;
            var ps := Repeat(colour, Extent(s.width, TILE, c) * Extent(s.height, TILE, r));
            target.View() == PaintTile(old(target.View()), s, TILE, r, c, ps)
  {
    var s := target.shape;
    JoinRepeat(colour, Extent(s.width, TILE, c) * Extent(s.height, TILE, r));
    var ok := target.FillRect(c * TILE, r * TILE, Extent(s.width, TILE, c), Extent(s.height, TILE, r), colour);
  }

  /** The packed rows at `pos`. */
  method DecodePacked(palette: Pixels, n: nat, tw: nat, th: nat, data: seq<byte>, pos: nat)
    returns (why: Option<Reason>, pixels: seq<byte>, next: nat)
    requires 2 <= |palette| <= 16 && 0 < n && Uniform(palette, n) && pos <= |data|
    ensures var bits := IndexBits(|palette|);
            if |data[pos..]| < RowSize(tw, bits) * th then why == Some(Short)
            else match ReadRows(palette, bits, tw, th, data[pos..])
                 case Bad(w) => why == Some(w)
                 case Ok(ps, rest) => why == None && pixels == Join(ps) && pos <= next <= |data| && rest == data[next..]
  {
    var bits := IndexBits(|palette|);
    var need := RowSize(tw, bits) * th;
    if pos + need > |data| {
      return Some(Short), [], pos;
    }
    var bad;
    next := pos + need;
    assert data[pos..] == data[pos..next] + data[next..];
    RowsOfPrefix(palette, bits, tw, th, data[pos..next], data[next..]);
    bad, pixels := DecodeRows(palette, bits, n, tw, th, data[pos..next]);
    why := if bad then Some(BadIndex) else None;
  }

  /** Rows are read the same whatever follows them. */
  lemma {:induction false} RowsOfPrefix(palette: Pixels, bits: nat, tw: nat, th: nat, data: seq<byte>, more: seq<byte>)
    requires Bits(bits) && |data| == RowSize(tw, bits) * th
    ensures ReadRows(palette, bits, tw, th, data + more)
            == match ReadRows(palette, bits, tw, th, data)
               case Bad(w) => Bad(w)
               case Ok(ps, rest) => Ok(ps, rest + more)
    decreases th
  {
    hide Uniform, RowDefined, RowPixels;
    if th > 0 {
      var size := RowSize(tw, bits);
      hide RowSize;
      MulAdd(1, th - 1, size);
      assert size * th == size + size * (th - 1);
      assert (data + more)[..size] == data[..size] && (data + more)[size..] == data[size..] + more;
      RowsOfPrefix(palette, bits, tw, th - 1, data[size..], more);
    }
  }

  /** Reads the tile at `start`: one colour to fill with, or pixels to blit. */
  method DecodeTileData(l: Layout, tw: nat, th: nat, data: seq<byte>, start: nat)
    returns (why: Option<Reason>, colour: Option<seq<byte>>, pixels: seq<byte>, pos: nat)
    requires ValidLayout(l) && start <= |data|
    ensures match ReadTile(l, tw, th, data[start..])
            case Bad(w) => why == Some(w)
            case Ok(ps, rest) =>
              why == None && pos <= |data| && rest == data[pos..]
              && if colour.Some? then |colour.value| == l.bypp && ps == Repeat(colour.value, tw * th)
                 else pixels == Join(ps)
  {
    hide Join, ReadPixels, ReadPlainRuns, ReadPaletteRuns, ReadRows, RowSize, Repeat;
    colour, pixels, pos := None, [], start;
    if start >= |data| {
      why := Some(Short);
      return;
    }
    var subencoding := data[start];
    assert data[start..][0] == subencoding && data[start..][1..] == data[start + 1..];
    var size := subencoding % 128;
    if subencoding < 128 && size > 16 {
      why := Some(PaletteTooLarge);
      return;
    }
    var ok, palette;
    ok, palette, pos := DecodePalette(l, size, data, start + 1);
    if !ok {
      why := Some(Short);
      return;
    }
    if subencoding >= 128 {
      if size == 0 {
        why, pixels, pos := DecodePlainRuns(l, tw * th, data, pos);
      } else {
        why, pixels, pos := DecodePaletteRuns(palette, tw * th, data, pos);
      }
    } else if size == 0 {
      ok, pixels, pos := DecodePixelsAt(l, tw * th, data, pos);
      why := if ok then None else Some(Short);
    } else if size == 1 {
      why, colour := None, Some(palette[0]);
    } else {
      why, pixels, pos := DecodePacked(palette, l.bypp, tw, th, data, pos);
    }
  }

  /** Reads tile `(r, c)` at `start` and paints it. */
  method DecodeTile(target: RectBuffer, l: Layout, r: nat, c: nat, data: seq<byte>, start: nat)
    returns (why: Option<Reason>, pos: nat)
    requires target.Valid() && ValidLayout(l) && target.shape.bypp == l.bypp
    requires r * TILE < target.shape.height && c * TILE < target.shape.width && start <= |data|
    modifies target, target.backing
    ensures target.Valid() && target.Beyond() == old(target.Beyond())
    ensures var s := target.shape;
            match ReadTile(l, Extent(s.width, TILE, c), Extent(s.height, TILE, r), data[start..])
            case Bad(w) => why == Some(w)
            case Ok(ps, rest) => why == None && pos <= |data| && rest == data[pos..] && target.covered
                                 && target.View() == PaintTile(old(target.View()), s, TILE, r, c, ps)
  {
    hide ReadTile, Join, PaintTile, Extent, Repeat;
    var colour, pixels;
    var tw, th := Extent(target.shape.width, TILE, c), Extent(target.shape.height, TILE, r);
    why, colour, pixels, pos := DecodeTileData(l, tw, th, data, start);
    if why == None {
      if colour.Some? {
        PaintSolid(target, r, c, colour.value);
      } else {
        ghost var d := ReadTile(l, tw, th, data[start..]);
        Paint(target, r, c, pixels, d.value);
      }
    }
  }

  /** One row of tiles. */
  method DecodeTileRow(target: RectBuffer, l: Layout, r: nat, data: seq<byte>, start: nat)
    returns (why: Option<Reason>, pos: nat)
    requires target.Valid() && ValidLayout(l) && target.shape.bypp == l.bypp
    requires r * TILE < target.shape.height && start <= |data|
    modifies target, target.backing
    ensures target.Valid() && target.Beyond() == old(target.Beyond())
    ensures why.Some? ==> ReadTiles(l, target.shape, r, 0, data[start..], old(target.View())) == Bad(why.value)
    ensures why.None? ==> pos <= |data|
                          && ReadTiles(l, target.shape, r, 0, data[start..], old(target.View()))
                             == ReadTiles(l, target.shape, r + 1, 0, data[pos..], target.View())
    ensures why.None? && (target.shape.width > 0 || old(target.covered)) ==> target.covered
  {
    hide ReadTile, PaintTile, Extent;
    var c: nat := 0;
    pos := start;
    while c * TILE < target.shape.width
      invariant target.Valid() && target.Beyond() == old(target.Beyond()) && pos <= |data|
      invariant ReadTiles(l, target.shape, r, 0, data[start..], old(target.View()))
                == ReadTiles(l, target.shape, r, c, data[pos..], target.View())
      invariant c > 0 || old(target.covered) ==> target.covered
      decreases target.shape.width - c * TILE
    {
      why, pos := DecodeTile(target, l, r, c, data, pos);
      if why.Some? {
        return;
      }
      c := c + 1;
    }
    why := None;
  }

  /** `decodePixels`: the tiles in row-major order, and nothing left over. */
  method DecodePixels(target: RectBuffer, l: Layout, data: seq<byte>) returns (why: Option<Reason>)
    requires target.Valid() && ValidLayout(l) && target.shape.bypp == l.bypp
    modifies target, target.backing
    ensures target.Valid() && target.Beyond() == old(target.Beyond())
    ensures match ReadOnto(l, target.shape, data, old(target.View()))
            case Bad(w) => why == Some(w)
            case Ok(g, _) => why == None && target.View() == g
                             && (target.shape.Size() > 0 ==> target.covered)
  {
    ghost var base := target.View();
    OntoIs(l, target.shape, data, base);
    hide *;
    var pos;
    why, pos := DecodeAllRows(target, l, data);
    if why.None? && pos != |data| {
      why := Some(Leftover);
    }
  }

  /** Every row of tiles, one after another. */
  method DecodeAllRows(target: RectBuffer, l: Layout, data: seq<byte>) returns (why: Option<Reason>, pos: nat)
    requires target.Valid() && ValidLayout(l) && target.shape.bypp == l.bypp
    modifies target, target.backing
    ensures target.Valid() && target.Beyond() == old(target.Beyond())
    ensures why.Some? ==> ReadTiles(l, target.shape, 0, 0, data, old(target.View())) == Bad(why.value)
    ensures why.None? ==>
              && pos <= |data| && (target.shape.Size() > 0 ==> target.covered)
              && ReadTiles(l, target.shape, 0, 0, data, old(target.View())) == Ok(target.View(), data[pos..])
  {
    var r: nat := 0;
    pos := 0;
    assert data[0..] == data;
    NeedsRows(target.shape);
    hide *;
    while r * TILE < target.shape.height
      invariant target.Valid() && target.Beyond() == old(target.Beyond()) && pos <= |data|
      invariant ReadTiles(l, target.shape, 0, 0, data, old(target.View()))
                == ReadTiles(l, target.shape, r, 0, data[pos..], target.View())
      invariant r > 0 && target.shape.width > 0 ==> target.covered
      decreases target.shape.height - r * TILE
    {
      why, pos := DecodeTileRow(target, l, r, data, pos);
      if why.Some? {
        return;
      }
      r := r + 1;
    }
    RowsDone(l, target.shape, r, data[pos..], target.View());
    why := None;
  }

  lemma OntoIs(l: Layout, s: Shape, data: seq<byte>, g: seq<byte>)
    requires ValidLayout(l) && s.bypp == l.bypp && |g| == s.Size()
    ensures ReadOnto(l, s, data, g)
            == match ReadTiles(l, s, 0, 0, data, g)
               case Bad(w) => Bad(w)
               case Ok(painted, rest) => if rest == [] then Ok(painted, []) else Bad(Leftover)
  {
    hide ReadTiles;
  }

  lemma RowsDone(l: Layout, s: Shape, r: nat, data: seq<byte>, g: seq<byte>)
    requires ValidLayout(l) && s.bypp == l.bypp && |g| == s.Size() && r * TILE >= s.height
    ensures ReadTiles(l, s, r, 0, data, g) == Ok(g, data)
  {
  }

  lemma NeedsRows(s: Shape)
    ensures s.Size() > 0 ==> s.height > 0 && s.width > 0
  {
  }

  /** A rectangle decoded into a buffer over a reused backing, and its bytes. */
  method DecodeRect(shape: Shape, reused: array<byte>, l: Layout, data: seq<byte>)
    returns (why: Option<Reason>, bytes: seq<byte>)
    requires ValidLayout(l) && shape.bypp == l.bypp
    modifies reused
    ensures match ReadRect(l, shape, data)
            case Bad(w) => why == Some(w)
            case Ok(g, _) => why == None && bytes == g
    ensures forall i :: shape.Size() <= i < reused.Length ==> reused[i] == old(reused[i])
  {
    hide ReadOnto, Shape.Size;
    ghost var before := reused[..];
    var target := BufferFor(shape, reused);
    why := DecodePixels(target, l, data);
    SameTail(before, reused[..], shape.Size());
    bytes := [];
    if why == None {
      bytes := target.ToBytes();
    }
  }
}
