/**
  CPIXELs (section 7.7.5 of RFC 6143): which three bytes of a 32-bit pixel go on the wire
  (vncdotool/pixelformat.py) and how they are widened again (vncdotool/decoders/zrle.py).
 */
module CPixels {
  import opened Arith
  import opened Bytes
  import opened Grid
  import opened Tiles

  /** The pixel format structure; `from_bytes` accepts any of its values. */
  datatype PixelFormat = PixelFormat(
    bpp: nat, depth: nat, bigendian: bool, truecolour: bool,
    redmax: nat, greenmax: nat, bluemax: nat,
    redshift: nat, greenshift: nat, blueshift: nat)
  {
    function Bypp(): nat { (7 + bpp) / 8 }
  }

  /** Python's `n.bit_length()`. */
  function BitLength(n: nat): nat { if n == 0 then 0 else 1 + BitLength(n / 2) }

  datatype Placement = Low | High | Nowhere

  /** `_cpixel_placement`: which end of the pixel's value holds every channel; both fit, low wins. */
  function CPixelPlacement(f: PixelFormat): Placement {
    var fitsLow := f.redshift + BitLength(f.redmax) <= 24 && f.greenshift + BitLength(f.greenmax) <= 24
                   && f.blueshift + BitLength(f.bluemax) <= 24;
    var fitsHigh := f.redshift >= 8 && f.greenshift >= 8 && f.blueshift >= 8;
    if fitsLow then Low else if fitsHigh then High else Nowhere
  }

  /** `cpixel_bytes`. */
  function CPixelBytes(f: PixelFormat): nat {
    if f.truecolour && f.bpp == 32 && !CPixelPlacement(f).Nowhere? then 3 else f.Bypp()
  }

  /** `cpixel_offset`. */
  function CPixelOffset(f: PixelFormat): int {
    if CPixelBytes(f) != 3 then 0
    else if CPixelPlacement(f).Low? != f.bigendian then 0
    else f.Bypp() - 3
  }

  /** Judged eligible for three-byte CPIXELs. */
  predicate Eligible(f: PixelFormat) { f.truecolour && f.bpp == 32 && !CPixelPlacement(f).Nowhere? }

  // ---------------------------------------------------------------- pixels as values

  function Pow2(n: nat): (p: nat)
    ensures p > 0
  {
    if n == 0 then 1 else 2 * Pow2(n - 1)
  }

  function Bit(v: nat, i: nat): nat { v / Pow2(i) % 2 }

  predicate InChannel(i: nat, shift: nat, max: nat) { shift <= i < shift + BitLength(max) }

  /** A pixel value none of whose set bits is padding. */
  ghost predicate PadFree(f: PixelFormat, v: nat) {
    && v < 0x1_0000_0000
    && forall i: nat :: i < 32 && Bit(v, i) == 1 ==>
         InChannel(i, f.redshift, f.redmax) || InChannel(i, f.greenshift, f.greenmax)
         || InChannel(i, f.blueshift, f.bluemax)
  }

  /** The four bytes of a 32-bit pixel in wire order. */
  function PixelBytes(f: PixelFormat, v: nat): (b: seq<byte>)
    requires v < 0x1_0000_0000
    ensures |b| == 4
  {
    var b0: byte, b1: byte, b2: byte, b3: byte :=
      v % 0x100, v / 0x100 % 0x100, v / 0x1_0000 % 0x100, v / 0x100_0000;
    if f.bigendian then [b3, b2, b1, b0] else [b0, b1, b2, b3]
  }

  lemma Powers()
    ensures Pow2(0) == 1 && Pow2(1) == 2 && Pow2(2) == 4 && Pow2(3) == 8
    ensures Pow2(4) == 16 && Pow2(5) == 32 && Pow2(6) == 64 && Pow2(7) == 128
    ensures Pow2(8) == 0x100 && Pow2(24) == 0x100_0000
  {
    assert Pow2(12) == 0x1000 by { assert Pow2(10) == 4 * Pow2(8); }
    assert Pow2(16) == 16 * Pow2(12) by { assert Pow2(14) == 4 * Pow2(12); }
    assert Pow2(20) == 16 * Pow2(16) by { assert Pow2(18) == 4 * Pow2(16); }
    assert Pow2(24) == 16 * Pow2(20) by { assert Pow2(22) == 4 * Pow2(20); }
  }

  lemma EvenMultiple(v: nat, p: nat)
    requires p > 0 && v % p == 0 && v / p % 2 == 0
    ensures v % (2 * p) == 0
  {
    var h := v / p / 2;
    assert v == (2 * h) * p;
    MulSwap(2, h, p);
    DivMod(v, 2 * p, h, 0);
  }

  /** A number whose lowest `n` bits are clear is a multiple of 2^n. */
  lemma {:induction false} ClearLow(v: nat, n: nat)
    requires forall i: nat :: i < n ==> Bit(v, i) == 0
    ensures v % Pow2(n) == 0
  {
    if n > 0 {
      ClearLow(v, n - 1);
      assert Bit(v, n - 1) == 0;
      EvenMultiple(v, Pow2(n - 1));
    }
  }

  /** A number below 2^(n + m) with bits n .. n + m clear is below 2^n. */
  lemma {:induction false} ClearHigh(v: nat, n: nat, m: nat)
    requires v < Pow2(n + m) && forall i: nat :: n <= i < n + m ==> Bit(v, i) == 0
    ensures v < Pow2(n)
    decreases m
  {
    if m > 0 {
      var p := Pow2(n + m - 1);
      assert Bit(v, n + m - 1) == 0;
      if v >= p {
        DivMod(v, p, 1, v - p);
        assert false;
      }
      ClearHigh(v, n, m - 1);
    }
  }

  /** All colour bits of an eligible format lie in the three-byte window: the byte outside it is zero. */
  lemma ColourBitsInWindow(f: PixelFormat, v: nat)
    requires Eligible(f) && PadFree(f, v)
    ensures CPixelBytes(f) == 3 && 0 <= CPixelOffset(f) <= 1
    ensures PixelBytes(f, v)[if CPixelOffset(f) == 0 then 3 else 0] == 0
  {
    Powers();
    assert Pow2(32) == 0x1_0000_0000 by {
      assert Pow2(28) == 16 * Pow2(24) by { assert Pow2(26) == 4 * Pow2(24); }
      assert Pow2(32) == 16 * Pow2(28) by { assert Pow2(30) == 4 * Pow2(28); }
    }
    if CPixelPlacement(f).Low? {
      forall i: nat | 24 <= i < 32
        ensures Bit(v, i) == 0
      {
        assert !InChannel(i, f.redshift, f.redmax);
      }
      ClearHigh(v, 24, 8);
    } else {
      forall i: nat | i < 8
        ensures Bit(v, i) == 0
      {
        assert !InChannel(i, f.redshift, f.redmax);
      }
      ClearLow(v, 8);
    }
  }

  // ---------------------------------------------------------------- narrowing and widening

  /** How a decoder reads CPIXELs: their width, the pixel's, and where they sit in it. */
  datatype Layout = Layout(cbytes: nat, bypp: nat, offset: nat)

  predicate ValidLayout(l: Layout) { 0 < l.cbytes && l.offset + l.cbytes <= l.bypp }

  /** One CPIXEL widened to a pixel; the bytes outside the window are zero. */
  function Widen(c: seq<byte>, l: Layout): (p: seq<byte>)
    requires ValidLayout(l) && |c| == l.cbytes
    ensures |p| == l.bypp
  {
    if l.cbytes == l.bypp then c else Zeros(l.offset) + c + Zeros(l.bypp - l.offset - l.cbytes)
  }

  /** `count` consecutive CPIXELs as pixels. */
  function WidenAll(raw: seq<byte>, count: nat, l: Layout): (ps: Pixels)
    requires ValidLayout(l) && |raw| == count * l.cbytes
    ensures |ps| == count && Uniform(ps, l.bypp)
  {
    seq(count, i requires 0 <= i < count => (NthInRange(i, count, l.cbytes); Widen(Nth(raw, l.cbytes, i), l)))
  }

  lemma JoinAt(ps: Pixels, n: nat, p: nat, k: nat)
    requires Uniform(ps, n) && p < |ps| && k < n
    ensures p * n + k < |Join(ps)| && Join(ps)[p * n + k] == ps[p][k]
  {
    NthOfJoin(ps, n, p);
    MulAdd(p, 1, n);
    assert Nth(Join(ps), n, p)[k] == Join(ps)[p * n + k];
  }

  /** `out[start::step] = values`. */
  method AssignStrided(out: array<byte>, start: nat, step: nat, values: seq<byte>)
    requires 0 < step && start < step && out.Length == |values| * step
    modifies out
    ensures forall j :: 0 <= j < out.Length ==>
              out[j] == if j % step == start then (RowInRange(j, step, |values|); values[j / step]) else old(out[j])
  {
    for i := 0 to |values|
      invariant forall j :: 0 <= j < out.Length ==>
                  out[j] == if j % step == start && j / step < i then values[j / step] else old(out[j])
    {
      InArea(i, start, step, |values|);
      DivMod(i * step + start, step, i, start);
      out[i * step + start] := values[i];
      forall j | 0 <= j < out.Length
        ensures j % step == start && j / step == i ==> j == i * step + start
      {
        RowInRange(j, step, |values|);
      }
    }
    forall j | 0 <= j < out.Length
      ensures j / step < |values|
    {
      RowInRange(j, step, |values|);
    }
  }

  /** Byte `j` of widened pixels. */
  function WidenedByte(raw: seq<byte>, count: nat, l: Layout, j: nat): byte
    requires ValidLayout(l) && |raw| == count * l.cbytes && j < count * l.bypp
  {
    var p, k := j / l.bypp, j % l.bypp;
    if l.offset <= k < l.offset + l.cbytes
    then (RowInRange(j, l.bypp, count); InArea(p, k - l.offset, l.cbytes, count); raw[p * l.cbytes + (k - l.offset)])
    else 0
  }

  lemma WidenAllBytes(raw: seq<byte>, count: nat, l: Layout, j: nat)
    requires ValidLayout(l) && |raw| == count * l.cbytes && j < count * l.bypp
    ensures |Join(WidenAll(raw, count, l))| == count * l.bypp
    ensures Join(WidenAll(raw, count, l))[j] == WidenedByte(raw, count, l, j)
  {
    var ps := WidenAll(raw, count, l);
    var p, k := j / l.bypp, j % l.bypp;
    RowInRange(j, l.bypp, count);
    JoinLength(ps, l.bypp);
    JoinAt(ps, l.bypp, p, k);
    NthInRange(p, count, l.cbytes);
    WidenAllAt(raw, count, l, p);
    WidenAt(Nth(raw, l.cbytes, p), l, k);
    WidenedAt(raw, count, l, j);
    hide Join, WidenAll, WidenedByte, Widen, Nth;
  }

  lemma WidenedAt(raw: seq<byte>, count: nat, l: Layout, j: nat)
    requires ValidLayout(l) && |raw| == count * l.cbytes && j < count * l.bypp
    ensures var p, k := j / l.bypp, j % l.bypp;
            && (p + 1) * l.cbytes <= |raw|
            && WidenedByte(raw, count, l, j)
               == if l.offset <= k < l.offset + l.cbytes then Nth(raw, l.cbytes, p)[k - l.offset] else 0
  {
    var p := j / l.bypp;
    RowInRange(j, l.bypp, count);
    NthInRange(p, count, l.cbytes);
    MulAdd(p, 1, l.cbytes);
  }

  lemma WidenAllAt(raw: seq<byte>, count: nat, l: Layout, p: nat)
    requires ValidLayout(l) && |raw| == count * l.cbytes && p < count
    ensures (p + 1) * l.cbytes <= |raw|
    ensures WidenAll(raw, count, l)[p] == Widen(Nth(raw, l.cbytes, p), l)
  {
    NthInRange(p, count, l.cbytes);
  }

  lemma WidenAt(c: seq<byte>, l: Layout, k: nat)
    requires ValidLayout(l) && |c| == l.cbytes && k < l.bypp
    ensures Widen(c, l)[k] == if l.offset <= k < l.offset + l.cbytes then c[k - l.offset] else 0
  {
  }

  /** Byte `start::step` of `raw`. */
  function Strided(raw: seq<byte>, start: nat, step: nat, count: nat): (r: seq<byte>)
    requires 0 < step && start < step && |raw| == count * step
    ensures |r| == count
  {
    seq(count, p requires 0 <= p < count => (InArea(p, start, step, count); raw[p * step + start]))
  }

  lemma StridedIsWidened(raw: seq<byte>, count: nat, l: Layout, i: nat, j: nat)
    requires ValidLayout(l) && |raw| == count * l.cbytes && i < l.cbytes && j < count * l.bypp
    requires j % l.bypp == l.offset + i
    ensures j / l.bypp < count && Strided(raw, i, l.cbytes, count)[j / l.bypp] == WidenedByte(raw, count, l, j)
  {
    RowInRange(j, l.bypp, count);
  }

  /** What the output holds after `i` of the CPIXEL's bytes have been copied. */
  ghost predicate Copied(out: array<byte>, raw: seq<byte>, count: nat, l: Layout, i: nat)
    requires ValidLayout(l) && |raw| == count * l.cbytes
    reads out
  {
    && out.Length == count * l.bypp
    && forall j :: 0 <= j < out.Length ==>
         out[j] == if l.offset <= j % l.bypp < l.offset + i then WidenedByte(raw, count, l, j) else 0
  }

  method CopyColumn(out: array<byte>, raw: seq<byte>, count: nat, l: Layout, i: nat)
    requires ValidLayout(l) && |raw| == count * l.cbytes && i < l.cbytes
    requires Copied(out, raw, count, l, i)
    modifies out
    ensures Copied(out, raw, count, l, i + 1)
  {
    hide Strided, WidenedByte;
    var column := Strided(raw, i, l.cbytes, count);
    AssignStrided(out, l.offset + i, l.bypp, column);
    forall j | 0 <= j < out.Length && j % l.bypp == l.offset + i
      ensures out[j] == WidenedByte(raw, count, l, j)
    {
      StridedIsWidened(raw, count, l, i, j);
    }
  }

  /** `_expand_cpixels`: one strided copy per CPIXEL byte widens every pixel. */
  method ExpandCPixels(raw: seq<byte>, count: nat, l: Layout) returns (expanded: seq<byte>)
    requires ValidLayout(l) && |raw| == count * l.cbytes
    ensures expanded == Join(WidenAll(raw, count, l))
  {
    JoinLength(WidenAll(raw, count, l), l.bypp);
    hide WidenAll, Join;
    if l.cbytes == l.bypp {
      SameWidth(raw, count, l);
      return raw;
    }
    var out := new byte[count * l.bypp](_ => 0);
    for i := 0 to l.cbytes
      invariant Copied(out, raw, count, l, i)
    {
      CopyColumn(out, raw, count, l, i);
    }
    expanded := out[..];
    forall j | 0 <= j < |expanded|
      ensures expanded[j] == Join(WidenAll(raw, count, l))[j]
    {
      WidenAllBytes(raw, count, l, j);
      assert out[j] == expanded[j];
    }
  }

  /** Where CPIXELs are whole pixels there is nothing to widen. */
  lemma SameWidth(raw: seq<byte>, count: nat, l: Layout)
    requires ValidLayout(l) && |raw| == count * l.cbytes && l.cbytes == l.bypp
    ensures Join(WidenAll(raw, count, l)) == raw
  {
    JoinLength(WidenAll(raw, count, l), l.bypp);
    forall j | 0 <= j < |raw|
      ensures raw[j] == Join(WidenAll(raw, count, l))[j]
    {
      WidenAllBytes(raw, count, l, j);
      RowInRange(j, l.bypp, count);
    }
  }

  /** The CPIXEL of a pixel: the bytes in the window. */
  function Narrow(p: seq<byte>, l: Layout): (c: seq<byte>)
    requires ValidLayout(l) && |p| == l.bypp
    ensures |c| == l.cbytes
  {
    p[l.offset..l.offset + l.cbytes]
  }

  function LayoutOf(f: PixelFormat): Layout
    requires Eligible(f)
  {
    Layout(CPixelBytes(f), f.Bypp(), if CPixelOffset(f) == 1 then 1 else 0)
  }

  /** The wire bytes of pixel values, and their CPIXELs. */
  function AllPixels(f: PixelFormat, vs: seq<nat>): (ps: Pixels)
    requires forall i :: 0 <= i < |vs| ==> vs[i] < 0x1_0000_0000
  {
    seq(|vs|, i requires 0 <= i < |vs| => PixelBytes(f, vs[i]))
  }

  function AllCPixels(f: PixelFormat, vs: seq<nat>): (cs: Pixels)
    requires Eligible(f) && forall i :: 0 <= i < |vs| ==> vs[i] < 0x1_0000_0000
  {
    seq(|vs|, i requires 0 <= i < |vs| => Narrow(PixelBytes(f, vs[i]), LayoutOf(f)))
  }

  lemma NarrowThenWidenOne(f: PixelFormat, v: nat)
    requires Eligible(f) && PadFree(f, v)
    ensures ValidLayout(LayoutOf(f)) && LayoutOf(f).bypp == 4
    ensures Widen(Narrow(PixelBytes(f, v), LayoutOf(f)), LayoutOf(f)) == PixelBytes(f, v)
  {
    ColourBitsInWindow(f, v);
    assert CPixelOffset(f) == 0 || CPixelOffset(f) == 1;
  }

  /**
    Narrowing any number of pad-free pixels to CPIXELs and widening them gives the pixels back, in either byte order.
   */
  lemma NarrowThenWiden(f: PixelFormat, vs: seq<nat>)
    requires Eligible(f) && forall i :: 0 <= i < |vs| ==> vs[i] < 0x1_0000_0000 && PadFree(f, vs[i])
    ensures |Join(AllCPixels(f, vs))| == |vs| * 3 && ValidLayout(LayoutOf(f)) && LayoutOf(f).cbytes == 3
    ensures WidenAll(Join(AllCPixels(f, vs)), |vs|, LayoutOf(f)) == AllPixels(f, vs)
  {
    var l, cs := LayoutOf(f), AllCPixels(f, vs);
    assert Uniform(cs, 3);
    JoinLength(cs, 3);
    assert ValidLayout(l);
    forall i | 0 <= i < |vs|
      ensures WidenAll(Join(cs), |vs|, l)[i] == AllPixels(f, vs)[i]
    {
      NthOfJoin(cs, 3, i);
      NarrowThenWidenOne(f, vs[i]);
    }
  }
}
