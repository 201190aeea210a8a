/** `RectBuffer` of vncdotool/decoders/buffer.py: a lazily cleared, reused backing that stands for a plain grid. */
module RectBuffer {
  import opened Arith
  import opened Bytes
  import opened Grid

  /** `a[at:at + len(data)] = data`. */
  method Assign(a: array<byte>, at: nat, data: seq<byte>)
    requires at + |data| <= a.Length
    modifies a
    ensures forall i :: 0 <= i < a.Length ==>
              a[i] == if at <= i < at + |data| then data[i - at] else old(a[i])
  {
    forall i | at <= i < at + |data| {
      a[i] := data[i - at];
    }
  }

  class RectBuffer {
    const shape: Shape
    const nbytes: nat
    const backing: array<byte>
    // A blit of the whole rectangle, held rather than copied in.
    var whole: Option<seq<byte>>
    // Whether the previous rectangle's bytes have been replaced or cleared.
    var covered: bool

    ghost predicate Valid()
      reads this
    {
      && nbytes == shape.Size() <= backing.Length
      && (whole.Some? ==> |whole.value| == nbytes && covered)
    }

    /** The grid this buffer stands for: all zero until the first write, whatever the backing holds. */
    ghost function View(): (g: seq<byte>)
      requires Valid()
      reads this, backing
      ensures |g| == shape.Size()
    {
      if whole.Some? then whole.value else if covered then backing[..nbytes] else Zeros(nbytes)
    }

    /** The backing past the rectangle. */
    ghost function Beyond(): seq<byte>
      requires Valid()
      reads this, backing
    {
      backing[nbytes..]
    }

    constructor (shape: Shape, backing: array<byte>)
      requires shape.Size() <= backing.Length
      ensures Valid() && !covered && this.shape == shape && this.backing == backing
      ensures View() == Zeros(shape.Size())
    {
      this.shape, this.nbytes, this.backing := shape, shape.Size(), backing;
      whole, covered := None, false;
    }

    method Materialize()
      requires Valid()
      modifies this`whole, backing
      ensures Valid() && whole.None? && View() == old(View()) && Beyond() == old(Beyond())
    {
      if whole.None? {
        return;
      }
      Assign(backing, 0, whole.value);
      assert backing[..nbytes] == whole.value;
      whole := None;
    }

    method Clear()
      requires Valid()
      modifies this`covered, backing
      ensures Valid() && covered && whole == old(whole) && View() == old(View()) && Beyond() == old(Beyond())
    {
      if covered {
        return;
      }
      Assign(backing, 0, Zeros(nbytes));
      assert backing[..nbytes] == Zeros(nbytes);
      covered := true;
    }

    /** One row of a write: a slice assignment inside the rectangle. */
    method WriteSlice(at: nat, data: seq<byte>)
      requires Valid() && whole.None? && covered && at + |data| <= nbytes
      modifies backing
      ensures View() == Spliced(old(View()), at, data) && Beyond() == old(Beyond())
    {
      ghost var before := View();
      Assign(backing, at, data);
      assert View() == Spliced(before, at, data);
    }

    /** Rows written one slice at a time. */
    method WriteRows(left: nat, y: nat, len: nat, h: nat, pixels: seq<byte>)
      requires Valid() && whole.None? && covered
      requires |pixels| == len * h && left + len <= shape.Stride() && y + h <= shape.height
      requires nbytes > 0 ==> 0 < shape.Stride()
      modifies backing
      ensures View() == Overwrite(old(View()), shape.Stride(), left, y, len, h, pixels) && Beyond() == old(Beyond())
    {
      ghost var before := View();
      ghost var stride := shape.Stride();
      SizeNeedsStride(shape);
      NoRows(before, stride, left, y, len);
      AllRows(pixels, len, h);
      hide Overwrite, Spliced, Shape.Size, Shape.Stride, FirstRows;
      for row := 0 to h
        invariant Beyond() == old(Beyond())
        invariant View() == Overwrite(before, stride, left, y, len, row, FirstRows(pixels, len, h, row))
      {
        WriteRow(left, y, len, h, row, pixels, before);
      }
    }

    /** One turn of that loop. */
    method WriteRow(left: nat, y: nat, len: nat, h: nat, row: nat, pixels: seq<byte>, ghost before: seq<byte>)
      requires Valid() && whole.None? && covered
      requires |pixels| == len * h && left + len <= shape.Stride() && y + h <= shape.height && row < h
      requires nbytes > 0 ==> 0 < shape.Stride()
      requires |before| == nbytes
      requires View() == Overwrite(before, shape.Stride(), left, y, len, row, FirstRows(pixels, len, h, row))
      modifies backing
      ensures View() == Overwrite(before, shape.Stride(), left, y, len, row + 1, FirstRows(pixels, len, h, row + 1))
      ensures Beyond() == old(Beyond())
    {
      var stride := shape.Stride();
      SizeNeedsStride(shape);
      hide Overwrite, Spliced, Shape.Size, Shape.Stride;
      RowFits(row, len, h);
      RowPlace(stride, left, y + row, len, shape.height);
      var slice := pixels[row * len..row * len + len];
      NextRows(pixels, len, h, row);
      NextRow(before, stride, left, y, len, row, shape.height, FirstRows(pixels, len, h, row), slice);
      hide FirstRows;
      WriteSlice((y + row) * stride + left, slice);
    }

    /** `blit`: accepted exactly when the rectangle fits and the data has its size; a rejected call changes nothing. */
    method BlitRect(x: int, y: int, w: int, h: int, pixels: seq<byte>) returns (ok: bool)
      requires Valid()
      modifies this, backing
      ensures Valid() && Beyond() == old(Beyond())
      ensures ok <==> Fits(shape, x, y, w, h) && |pixels| == w * h * shape.bypp
      ensures !ok ==> whole == old(whole) && covered == old(covered) && backing[..] == old(backing[..])
      ensures ok ==> covered && View() == Blit(old(View()), shape, x, y, w, h, pixels)
    {
      if x == 0 && y == 0 && w == shape.width && h == shape.height {
        if |pixels| != nbytes {
          return false;
        }
        WholeBlit(View(), shape, pixels);
        whole := Some(pixels);
        covered := true;
        return true;
      }
      if !Fits(shape, x, y, w, h) {
        return false;
      }
      var expected := w * h * shape.bypp;
      if |pixels| != expected {
        return false;
      }
      Materialize();
      Clear();
      SpanFits(shape, x, w);
      SizeNeedsStride(shape);
      MulSwap(w, h, shape.bypp);
      if x == 0 && w == shape.width {
        WriteBand(y, h, pixels);
      } else {
        WriteRows(x * shape.bypp, y, w * shape.bypp, h, pixels);
      }
      return true;
    }

    /** Full-width rows are contiguous: one slice. */
    method WriteBand(y: nat, h: nat, pixels: seq<byte>)
      requires Valid() && whole.None?
      requires |pixels| == shape.Stride() * h && y + h <= shape.height
      requires covered || (y == 0 && h == shape.height)
      modifies backing
      ensures Valid() && Beyond() == old(Beyond())
      ensures nbytes > 0 ==> 0 < shape.Stride()
      ensures backing[..nbytes] == Overwrite(old(View()), shape.Stride(), 0, y, shape.Stride(), h, pixels)
    {
      hide Overwrite;
      SizeNeedsStride(shape);
      BandFits(shape.Stride(), y, h, shape.height);
      ghost var before := View();
      BandIsSlice(before, shape.Stride(), y, h, shape.height, pixels);
      var offset := y * shape.Stride();
      Assign(backing, offset, pixels);
      assert backing[..nbytes] == Spliced(before, offset, pixels);
    }

    /** `fill`: accepted exactly when the rectangle fits and the colour is one pixel. */
    method FillRect(x: int, y: int, w: int, h: int, colour: seq<byte>) returns (ok: bool)
      requires Valid()
      modifies this, backing
      ensures Valid() && Beyond() == old(Beyond())
      ensures ok <==> Fits(shape, x, y, w, h) && |colour| == shape.bypp
      ensures !ok ==> whole == old(whole) && covered == old(covered) && backing[..] == old(backing[..])
      ensures ok ==> covered && View() == Fill(old(View()), shape, x, y, w, h, colour)
    {
      if !Fits(shape, x, y, w, h) {
        return false;
      }
      if |colour| != shape.bypp {
        return false;
      }
      Materialize();
      if !(x == 0 && y == 0 && w == shape.width && h == shape.height) {
        Clear();
      }
      SpanFits(shape, x, w);
      SizeNeedsStride(shape);
      MulSwap(w, h, shape.bypp);
      var pixels := RowsOf(colour, w, h);
      if x == 0 && w == shape.width {
        WriteBand(y, h, pixels);
        covered := true;
      } else {
        covered := true;
        WriteRows(x * shape.bypp, y, w * shape.bypp, h, pixels);
      }
      return true;
    }

    /** `tobytes`: the grid, once anything has been written. */
    method ToBytes() returns (bytes: seq<byte>)
      requires Valid()
      ensures covered ==> bytes == View()
      ensures !covered ==> bytes == backing[..nbytes]
    {
      if whole.Some? {
        return whole.value;
      }
      return backing[..nbytes];
    }
  }

  /** `rectBuffer`: a buffer over the reused backing, or over a new one where that is too small. */
  method BufferFor(shape: Shape, reused: array<byte>) returns (target: RectBuffer)
    ensures fresh(target) && target.Valid() && !target.covered && target.shape == shape
    ensures target.View() == Zeros(shape.Size())
    ensures if shape.Size() <= reused.Length then target.backing == reused else fresh(target.backing)
  {
    var backing := reused;
    if backing.Length < shape.Size() {
      backing := new byte[shape.Size()];
    }
    target := new RectBuffer(shape, backing);
  }

  lemma SameTail(a: seq<byte>, b: seq<byte>, n: nat)
    requires |a| == |b| && (n <= |a| ==> a[n..] == b[n..])
    ensures forall i :: n <= i < |a| ==> a[i] == b[i]
  {
    forall i | n <= i < |a| ensures a[i] == b[i] { assert a[n..][i - n] == b[n..][i - n]; }
  }

  /** `color * w`, `h` times: the rows a fill writes are one repeated colour. */
  method RowsOf(colour: seq<byte>, w: nat, h: nat) returns (rows: seq<byte>)
    ensures rows == Times(colour, w * h)
  {
    var row := Times(colour, w);
    rows := Times(row, h);
    TimesTimes(colour, w, h);
  }

  lemma {:induction false} TimesTimes(b: seq<byte>, w: nat, h: nat)
    ensures Times(Times(b, w), h) == Times(b, w * h)
    decreases h
  {
    if h > 0 {
      TimesTimes(b, w, h - 1);
      TimesAdd(b, w, w * (h - 1));
      assert w + w * (h - 1) == w * h;
    } else {
      assert w * h == 0;
    }
  }

  lemma {:induction false} TimesAdd(b: seq<byte>, m: nat, n: nat)
    ensures Times(b, m) + Times(b, n) == Times(b, m + n)
    decreases m
  {
    if m > 0 {
      TimesAdd(b, m - 1, n);
      assert (b + Times(b, m - 1)) + Times(b, n) == b + (Times(b, m - 1) + Times(b, n));
    } else {
      assert [] + Times(b, n) == Times(b, n);
    }
  }

  // ---------------------------------------------------------------- index arithmetic

  lemma SpanFits(s: Shape, x: nat, w: nat)
    requires x + w <= s.width
    ensures x * s.bypp + w * s.bypp <= s.Stride()
  {
    MulAdd(x, w, s.bypp);
    MulMono(x + w, s.width, s.bypp);
  }

  /** A grid with one slice replaced. */
  function Spliced(g: seq<byte>, at: nat, data: seq<byte>): seq<byte>
    requires at + |data| <= |g|
  {
    g[..at] + data + g[at + |data|..]
  }

  lemma NoRows(g: seq<byte>, stride: nat, left: nat, y: nat, len: nat)
    requires g != [] ==> 0 < stride
    ensures len * 0 == 0 && Overwrite(g, stride, left, y, len, 0, []) == g
  {
  }

  /** The pixels of the first rows. */
  ghost function FirstRows(pixels: seq<byte>, len: nat, h: nat, row: nat): (r: seq<byte>)
    requires |pixels| == len * h && row <= h
    ensures |r| == len * row
  {
    MulMono(row, h, len);
    MulSwap(1, row, len);
    MulSwap(1, h, len);
    pixels[..len * row]
  }

  lemma AllRows(pixels: seq<byte>, len: nat, h: nat)
    requires |pixels| == len * h
    ensures FirstRows(pixels, len, h, 0) == [] && FirstRows(pixels, len, h, h) == pixels
  {
  }

  lemma NextRows(pixels: seq<byte>, len: nat, h: nat, row: nat)
    requires |pixels| == len * h && row < h
    ensures 0 <= row * len <= row * len + len <= |pixels|
    ensures FirstRows(pixels, len, h, row + 1) == FirstRows(pixels, len, h, row) + pixels[row * len..row * len + len]
  {
    RowFits(row, len, h);
    RowEnds(row, len);
    Extended(pixels, row * len, len);
  }

  lemma RowEnds(row: nat, len: nat)
    ensures len * row == row * len && len * (row + 1) == row * len + len
  {
  }

  lemma Extended(s: seq<byte>, a: nat, n: nat)
    requires a + n <= |s|
    ensures s[..a + n] == s[..a] + s[a..a + n]
  {
  }

  /** One more row is one more slice. */
  lemma NextRow(g: seq<byte>, stride: nat, left: nat, y: nat, len: nat, row: nat, rows: nat, had: seq<byte>,
                data: seq<byte>)
    requires g != [] ==> 0 < stride
    requires |g| == rows * stride && left + len <= stride && y + row < rows
    requires |had| == len * row && |data| == len
    ensures |had + data| == len * (row + 1) && (y + row) * stride + left + len <= |g|
    ensures Overwrite(g, stride, left, y, len, row + 1, had + data)
            == Spliced(Overwrite(g, stride, left, y, len, row, had), (y + row) * stride + left, data)
  {
    MulAdd(row, 1, len);
    RowPlace(stride, left, y + row, len, rows);
    var dst := (y + row) * stride + left;
    var part := Overwrite(g, stride, left, y, len, row, had);
    var whole := Overwrite(g, stride, left, y, len, row + 1, had + data);
    var spliced := Spliced(part, dst, data);
    forall i | 0 <= i < |g|
      ensures whole[i] == spliced[i]
    {
      NextRowAt(i, stride, left, y, len, row);
    }
  }

  lemma NextRowAt(i: nat, stride: nat, left: nat, y: nat, len: nat, row: nat)
    requires 0 < stride && left + len <= stride
    ensures var dst := (y + row) * stride + left;
            var source := (i / stride - y) * len + (i % stride - left);
            if dst <= i < dst + len
            then InBox(i, stride, left, y, len, row + 1) && source == row * len + (i - dst)
            else (InBox(i, stride, left, y, len, row + 1) <==> InBox(i, stride, left, y, len, row))
                 && (InBox(i, stride, left, y, len, row) ==> 0 <= source < len * row)
  {
    RowRange(i, stride, left, y + row, len);
    if InBox(i, stride, left, y, len, row) { BoxIndex(i, stride, left, y, len, row); }
    assert i == (i / stride) * stride + i % stride;
  }

  lemma RowFits(row: nat, len: nat, h: nat)
    requires row < h
    ensures row * len + len <= len * h
  {
    MulMono(row + 1, h, len);
    MulAdd(row, 1, len);
    assert h * len == len * h;
  }

  lemma RowPlace(stride: nat, left: nat, row: nat, len: nat, rows: nat)
    requires row < rows && left + len <= stride
    ensures row * stride + left + len <= rows * stride
  {
    MulMono(row + 1, rows, stride);
    MulAdd(row, 1, stride);
  }

  /** One row's slice holds exactly the bytes of that row in the box's columns. */
  lemma RowRange(i: nat, stride: nat, left: nat, row: nat, len: nat)
    requires 0 < stride && left + len <= stride
    ensures row * stride + left <= i < row * stride + left + len
            <==> i / stride == row && left <= i % stride < left + len
  {
    if row * stride + left <= i < row * stride + left + len {
      DivMod(i, stride, row, i - row * stride);
    }
    assert i == (i / stride) * stride + i % stride;
  }

  lemma BandFits(stride: nat, y: nat, h: nat, rows: nat)
    requires y + h <= rows
    ensures y * stride + stride * h <= rows * stride
  {
    MulAdd(y, h, stride);
    MulMono(y + h, rows, stride);
    assert stride * h == h * stride;
  }

  /** A band of whole rows is one contiguous run. */
  lemma BandRange(i: nat, stride: nat, y: nat, h: nat, rows: nat)
    requires 0 < stride && i < rows * stride && y + h <= rows
    ensures y * stride <= i < y * stride + stride * h <==> InBox(i, stride, 0, y, stride, h)
    ensures i - y * stride == (i / stride - y) * stride + i % stride
  {
    var row := i / stride;
    assert i == row * stride + i % stride;
    MulAdd(y, h, stride);
    MulAdd(row - y, y, stride);
    MulAdd(row, 1, stride);
    assert h * stride == stride * h;
    if y <= row { MulMono(y, row, stride); }
    if row < y { MulMono(row + 1, y, stride); }
    if row < y + h { MulMono(row + 1, y + h, stride); }
    if y + h <= row { MulMono(y + h, row, stride); }
  }

  lemma BandIsSlice(g: seq<byte>, stride: nat, y: nat, h: nat, rows: nat, pixels: seq<byte>)
    requires g != [] ==> 0 < stride
    requires |g| == rows * stride && y + h <= rows && |pixels| == stride * h
    ensures y * stride + |pixels| <= |g|
    ensures Overwrite(g, stride, 0, y, stride, h, pixels) == Spliced(g, y * stride, pixels)
  {
    BandFits(stride, y, h, rows);
    var whole, spliced := Overwrite(g, stride, 0, y, stride, h, pixels), Spliced(g, y * stride, pixels);
    forall i | 0 <= i < |g|
      ensures whole[i] == spliced[i]
    {
      BandRange(i, stride, y, h, rows);
    }
  }

  /** A blit of the whole rectangle replaces the grid. */
  lemma WholeBlit(g: seq<byte>, s: Shape, pixels: seq<byte>)
    requires |g| == |pixels| == s.Size()
    ensures Blit(g, s, 0, 0, s.width, s.height, pixels) == pixels
  {
    SizeNeedsStride(s);
    forall i | 0 <= i < |g|
      ensures Blit(g, s, 0, 0, s.width, s.height, pixels)[i] == pixels[i]
    {
      BandRange(i, s.Stride(), 0, s.height, s.height);
      RowInRange(i, s.Stride(), s.height);
    }
  }

  // ---------------------------------------------------------------- sequences of writes

  /** An accepted call: a blit, or a fill seen as a blit of one colour. */
  datatype Write = Write(x: nat, y: nat, w: nat, h: nat, pixels: seq<byte>)

  predicate Accepted(s: Shape, wr: Write) {
    Fits(s, wr.x, wr.y, wr.w, wr.h) && |wr.pixels| == wr.w * wr.h * s.bypp
  }

  /** The grid after a sequence of writes onto a zeroed rectangle. */
  function Painted(s: Shape, writes: seq<Write>): (g: seq<byte>)
    requires forall wr :: wr in writes ==> Accepted(s, wr)
    ensures |g| == s.Size()
  {
    if writes == [] then Zeros(s.Size())
    else
      var last := writes[|writes| - 1];
      assert Accepted(s, last);
      Blit(Painted(s, writes[..|writes| - 1]), s, last.x, last.y, last.w, last.h, last.pixels)
  }

  /** What pixel (px, py) holds: its own pixel of the last write covering it, or zero. */
  function LastWritten(s: Shape, writes: seq<Write>, px: nat, py: nat): seq<byte>
    requires forall wr :: wr in writes ==> Accepted(s, wr)
  {
    if writes == [] then Zeros(s.bypp)
    else
      var last := writes[|writes| - 1];
      assert Accepted(s, last);
      if Inside(px, py, last.x, last.y, last.w, last.h) then
        InsideIndex(px, py, last.x, last.y, last.w, last.h);
        NthInRange((py - last.y) * last.w + (px - last.x), last.w * last.h, s.bypp);
        Nth(last.pixels, s.bypp, (py - last.y) * last.w + (px - last.x))
      else LastWritten(s, writes[..|writes| - 1], px, py)
  }

  /** Every pixel of the result is the last write's that covers it, or zero if none does. */
  lemma {:induction false} PaintedPixel(s: Shape, writes: seq<Write>, px: nat, py: nat)
    requires forall wr :: wr in writes ==> Accepted(s, wr)
    requires px < s.width && py < s.height
    ensures Pixel(Painted(s, writes), s, px, py) == LastWritten(s, writes, px, py)
    decreases |writes|
  {
    hide Blit, Pixel;
    if writes == [] {
      ZeroPixel(s, px, py);
    } else {
      var before, last := writes[..|writes| - 1], writes[|writes| - 1];
      assert Accepted(s, last);
      PaintedPixel(s, before, px, py);
      BlitPixel(Painted(s, before), s, last.x, last.y, last.w, last.h, last.pixels, px, py);
    }
  }

  /** A call of either kind, accepted or not. */
  datatype Call =
    | BlitCall(x: int, y: int, w: int, h: int, pixels: seq<byte>)
    | FillCall(x: int, y: int, w: int, h: int, colour: seq<byte>)

  /** The write an accepted call makes; a fill is a blit of one repeated colour. */
  function WriteOf(s: Shape, call: Call): (wr: Option<Write>)
    ensures wr.Some? ==> Accepted(s, wr.value)
  {
    if !Fits(s, call.x, call.y, call.w, call.h) then None
    else
      match call
      case BlitCall(x, y, w, h, pixels) => if |pixels| == w * h * s.bypp then Some(Write(x, y, w, h, pixels)) else None
      case FillCall(x, y, w, h, colour) =>
        if |colour| == s.bypp then Some(Write(x, y, w, h, Times(colour, w * h))) else None
  }

  /** The writes of a sequence of calls, rejected ones left out. */
  function Writes(s: Shape, calls: seq<Call>): (writes: seq<Write>)
    ensures forall wr :: wr in writes ==> Accepted(s, wr)
  {
    if calls == [] then []
    else
      var before := Writes(s, calls[..|calls| - 1]);
      match WriteOf(s, calls[|calls| - 1]) case None => before case Some(wr) => before + [wr]
  }

  lemma PaintedNext(s: Shape, writes: seq<Write>, wr: Write)
    requires (forall w :: w in writes ==> Accepted(s, w)) && Accepted(s, wr)
    ensures forall w :: w in writes + [wr] ==> Accepted(s, w)
    ensures Painted(s, writes + [wr]) == Blit(Painted(s, writes), s, wr.x, wr.y, wr.w, wr.h, wr.pixels)
  {
    assert (writes + [wr])[..|writes + [wr]| - 1] == writes;
    hide Blit, Accepted;
  }

  lemma WritesNext(s: Shape, calls: seq<Call>, n: nat)
    requires n < |calls|
    ensures Writes(s, calls[..n + 1])
            == match WriteOf(s, calls[n])
               case None => Writes(s, calls[..n])
               case Some(wr) => Writes(s, calls[..n]) + [wr]
  {
    assert calls[..n + 1][..n] == calls[..n];
    hide WriteOf;
  }

  /** One call after another on a buffer that stands for a zeroed grid. */
  method PaintEach(target: RectBuffer, calls: seq<Call>)
    requires target.Valid() && !target.covered && target.View() == Zeros(target.shape.Size())
    modifies target, target.backing
    ensures target.Valid() && target.Beyond() == old(target.Beyond())
    ensures target.View() == Painted(target.shape, Writes(target.shape, calls))
    ensures Writes(target.shape, calls) != [] ==> target.covered
  {
    ghost var shape := target.shape;
    assert calls[..0] == [];
    assert Writes(shape, []) == [] && Painted(shape, []) == Zeros(shape.Size());
    hide *;
    for n := 0 to |calls|
      invariant target.Valid() && target.Beyond() == old(target.Beyond())
      invariant target.View() == Painted(shape, Writes(shape, calls[..n]))
      invariant Writes(shape, calls[..n]) != [] ==> target.covered
    {
      WritesNext(shape, calls, n);
      var ok := PaintOne(target, calls[n]);
      if ok { PaintedNext(shape, Writes(shape, calls[..n]), WriteOf(shape, calls[n]).value); }
    }
    assert calls[..|calls|] == calls;
  }

  /** Any sequence of calls over any reused backing leaves the grid its accepted writes paint. */
  method PaintAll(shape: Shape, reused: array<byte>, calls: seq<Call>) returns (bytes: seq<byte>)
    modifies reused
    ensures Writes(shape, calls) != [] ==> bytes == Painted(shape, Writes(shape, calls))
    ensures forall i :: shape.Size() <= i < reused.Length ==> reused[i] == old(reused[i])
  {
    hide Writes, Painted, Shape.Size;
    ghost var before := reused[..];
    var target := BufferFor(shape, reused);
    PaintEach(target, calls);
    SameTail(before, reused[..], shape.Size());
    bytes := target.ToBytes();
  }

  method PaintOne(target: RectBuffer, call: Call) returns (ok: bool)
    requires target.Valid()
    modifies target, target.backing
    ensures target.Valid() && target.Beyond() == old(target.Beyond())
    ensures ok <==> WriteOf(target.shape, call).Some?
    ensures !ok ==> target.View() == old(target.View()) && target.covered == old(target.covered)
    ensures ok ==> target.covered
                   && var wr := WriteOf(target.shape, call).value;
                      target.View() == Blit(old(target.View()), target.shape, wr.x, wr.y, wr.w, wr.h, wr.pixels)
  {
    match call
    case BlitCall(x, y, w, h, pixels) => ok := target.BlitRect(x, y, w, h, pixels);
    case FillCall(x, y, w, h, colour) => ok := target.FillRect(x, y, w, h, colour);
  }

  lemma ZeroPixel(s: Shape, px: nat, py: nat)
    requires px < s.width && py < s.height
    ensures Pixel(Zeros(s.Size()), s, px, py) == Zeros(s.bypp)
  {
    PixelInGrid(s, px, py);
  }
}
