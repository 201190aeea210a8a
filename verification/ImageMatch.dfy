/**
  When two screenshots count as the same (vncdotool/imagematch.py), over the reals: a score is kept as its square,
  so that comparing it with a whole number needs no square root.
 */
module ImageMatch {
  import opened Bytes
  import opened Arith
  import opened CPixels

  datatype Pixel = Pixel(r: byte, g: byte, b: byte)

  datatype Image = Image(width: nat, height: nat, pixels: seq<Pixel>) {
    predicate Valid() { |pixels| == width * height }
  }

  datatype Channels = Channels(r: nat, g: nat, b: nat)

  /** A coordinate of YIQ, by its red, green and blue coefficients. */
  datatype Axis = Axis(r: real, g: real, b: real)

  const Y := Axis(0.29889531, 0.58662247, 0.11448223)
  const I := Axis(0.59597799, -0.27417610, -0.32180189)
  const Q := Axis(0.11147015, -0.52248202, 0.41101187)
  const MAX_DELTA := 35215.0

  function Abs(x: real): real { if x < 0.0 then -x else x }

  function Along(axis: Axis, r: real, g: real, b: real): real { axis.r * r + axis.g * g + axis.b * b }

  /** The furthest a difference within `c` can lie along an axis. */
  function Reach(axis: Axis, c: Channels): real {
    Abs(axis.r) * c.r as real + Abs(axis.g) * c.g as real + Abs(axis.b) * c.b as real
  }

  /** `_delta_for`. */
  function DeltaFor(y: real, i: real, q: real): real { 0.5053 * (y * y) + 0.299 * (i * i) + 0.1957 * (q * q) }

  /** The square of `_scale`. */
  function Scored(delta: real): real { 65025.0 * delta / MAX_DELTA }

  /** A score is at most `n`. */
  predicate Within(delta: real, n: int) { 0 <= n && Scored(delta) <= (n * n) as real }

  /** `math.ceil` of a root, sought from `n` on. */
  function CeilRoot(target: real, n: nat): nat
    decreases target.Floor + 1 - n
  {
    if target <= (n * n) as real then n
    else
      RootFurther(target, n);
      CeilRoot(target, n + 1)
  }

  lemma RootFurther(target: real, n: nat)
    requires target > (n * n) as real
    ensures target.Floor >= n
  {
    if n > 0 { MulMono(1, n, n); }
    assert n <= n * n;
  }

  /** It is the least whole number whose square is not below `target`. */
  lemma {:induction false} CeilRootIsLeast(target: real, n: nat)
    requires n > 0 ==> ((n - 1) * (n - 1)) as real < target
    ensures var m := CeilRoot(target, n);
            target <= (m * m) as real && (m > 0 ==> ((m - 1) * (m - 1)) as real < target)
    decreases target.Floor + 1 - n
  {
    if target > (n * n) as real {
      RootFurther(target, n);
      assert (n + 1 - 1) * (n + 1 - 1) == n * n;
      CeilRootIsLeast(target, n + 1);
    }
  }

  function BoundForChannels(c: Channels): nat {
    CeilRoot(Scored(DeltaFor(Reach(Y, c), Reach(I, c), Reach(Q, c))), 0)
  }

  function PixelDelta(p: Pixel, q: Pixel): real {
    var (r, g, b) := ((p.r - q.r) as real, (p.g - q.g) as real, (p.b - q.b) as real);
    DeltaFor(Along(Y, r, g, b), Along(I, r, g, b), Along(Q, r, g, b))
  }

  /** `worst_delta`, before `_scale`. */
  function WorstDelta(ps: seq<Pixel>, qs: seq<Pixel>): (worst: real)
    requires |ps| == |qs| > 0
    ensures forall k :: 0 <= k < |ps| ==> PixelDelta(ps[k], qs[k]) <= worst
    ensures exists k :: 0 <= k < |ps| && PixelDelta(ps[k], qs[k]) == worst
  {
    var scored := seq(|ps|, k requires 0 <= k < |ps| => PixelDelta(ps[k], qs[k]));
    assert forall k :: 0 <= k < |ps| ==> scored[k] == PixelDelta(ps[k], qs[k]);
    Highest(scored)
  }

  /** The upper end of `getextrema`. */
  function Highest(scored: seq<real>): (highest: real)
    requires scored != []
    ensures highest in scored && forall k :: 0 <= k < |scored| ==> scored[k] <= highest
    decreases |scored|
  {
    var last := |scored| - 1;
    if last == 0 then scored[0]
    else
      var before := Highest(scored[..last]);
      assert forall k :: 0 <= k < last ==> scored[..last][k] == scored[k];
      if scored[last] > before then scored[last] else before
  }

  function Gap(a: nat, b: nat): nat { if a < b then b - a else a - b }

  function Max(a: nat, b: nat): nat { if a < b then b else a }

  /** The largest difference in each channel, wherever it is. */
  function WorstChannels(ps: seq<Pixel>, qs: seq<Pixel>): (c: Channels)
    requires |ps| == |qs|
    ensures forall k :: 0 <= k < |ps| ==> NoFurther(ps[k], qs[k], c)
  {
    if ps == [] then Channels(0, 0, 0)
    else
      var last := |ps| - 1;
      var c, p, q := WorstChannels(ps[..last], qs[..last]), ps[last], qs[last];
      assert forall k :: 0 <= k < last ==> ps[..last][k] == ps[k] && qs[..last][k] == qs[k];
      Channels(Max(c.r, Gap(p.r, q.r)), Max(c.g, Gap(p.g, q.g)), Max(c.b, Gap(p.b, q.b)))
  }

  predicate NoFurther(p: Pixel, q: Pixel, c: Channels) {
    Gap(p.r, q.r) <= c.r && Gap(p.g, q.g) <= c.g && Gap(p.b, q.b) <= c.b
  }

  // ---------------------------------------------------------------- blur, as a rounded mean

  function Sum(values: seq<nat>): nat {
    if values == [] then 0 else Sum(values[..|values| - 1]) + values[|values| - 1]
  }

  /** The mean to the nearest whole number, halves up. */
  function RoundedMean(values: seq<nat>): nat
    requires values != []
  {
    (2 * Sum(values) + |values|) / (2 * |values|)
  }

  function Clamp(k: int, n: nat): (i: nat)
    requires n > 0
    ensures i < n
  {
    if k < 0 then 0 else if k >= n then n - 1 else k
  }

  lemma SomePixel(width: nat, height: nat, p: nat)
    requires p < width * height
    ensures width > 0 && height > 0
  {
  }

  /** The pixels a box of radius `blur` averages, edges repeated. */
  function Window(width: nat, height: nat, p: nat, blur: nat): (w: seq<nat>)
    requires p < width * height
    ensures w != [] && forall k :: 0 <= k < |w| ==> w[k] < width * height
  {
    SomePixel(width, height, p);
    var side := 2 * blur + 1;
    MulMono(1, side, side);
    seq(side * side, k requires 0 <= k < side * side => Beside(width, height, p, blur, k))
  }

  /** The `k`th pixel of the box around `p`. */
  function Beside(width: nat, height: nat, p: nat, blur: nat, k: nat): (i: nat)
    requires width > 0 && height > 0
    ensures i < width * height
  {
    var side := 2 * blur + 1;
    InWindow(width, height, p % width + k % side - blur, p / width + k / side - blur)
  }

  function InWindow(width: nat, height: nat, x: int, y: int): (i: nat)
    requires width > 0 && height > 0
    ensures i < width * height
  {
    InArea(Clamp(y, height), Clamp(x, width), width, height);
    MulSwap(1, height, width);
    Clamp(y, height) * width + Clamp(x, width)
  }

  /** Every pixel of one image's window, one channel of it. */
  function Averaged(image: Image, p: nat, blur: nat, channel: Pixel -> byte): (v: byte)
    requires image.Valid() && p < |image.pixels|
  {
    var w := Window(image.width, image.height, p, blur);
    var values: seq<nat> := seq(|w|, k requires 0 <= k < |w| => channel(image.pixels[w[k]]) as nat);
    MeanInRange(values, 255);
    RoundedMean(values)
  }

  /** `_blurred`. */
  function Blurred(image: Image, blur: nat): (r: Image)
    requires image.Valid()
    ensures r.Valid() && r.width == image.width && r.height == image.height
  {
    if blur == 0 then image
    else
      image.(pixels := seq(|image.pixels|, p requires 0 <= p < |image.pixels| =>
        Pixel(Averaged(image, p, blur, (x: Pixel) => x.r), Averaged(image, p, blur, (x: Pixel) => x.g),
              Averaged(image, p, blur, (x: Pixel) => x.b))))
  }

  lemma {:induction false} SumsNear(a: seq<nat>, b: seq<nat>, m: nat)
    requires |a| == |b| && forall k :: 0 <= k < |a| ==> a[k] <= b[k] + m
    ensures Sum(a) <= Sum(b) + |a| * m
    decreases |a|
  {
    if a != [] {
      var last := |a| - 1;
      assert forall k :: 0 <= k < last ==> a[..last][k] == a[k] && b[..last][k] == b[k];
      SumsNear(a[..last], b[..last], m);
      MulAdd(last, 1, m);
    }
  }

  /** Averaging never moves two things further apart than the furthest pair, rounding included. */
  lemma MeansNear(a: seq<nat>, b: seq<nat>, m: nat)
    requires |a| == |b| > 0 && forall k :: 0 <= k < |a| ==> a[k] <= b[k] + m
    ensures RoundedMean(a) <= RoundedMean(b) + m
  {
    SumsNear(a, b, m);
    var n := |a|;
    var x, y := 2 * Sum(a) + n, 2 * Sum(b) + n;
    assert x <= y + m * (2 * n) by { MulSwap(2, n, m); }
    var q, r := y / (2 * n), y % (2 * n);
    MulAdd(q, m, 2 * n);
    DivMod(y + m * (2 * n), 2 * n, q + m, r);
    DivMono(x, y + m * (2 * n), 2 * n);
  }

  lemma DivMono(x: nat, y: nat, d: nat)
    requires x <= y && d > 0
    ensures x / d <= y / d
  {
    if x / d > y / d {
      MulMono(y / d + 1, x / d, d);
      MulAdd(y / d, 1, d);
    }
  }

  lemma {:induction false} SumOfZeros(zeros: seq<nat>)
    requires forall k :: 0 <= k < |zeros| ==> zeros[k] == 0
    ensures Sum(zeros) == 0
    decreases |zeros|
  {
    if zeros != [] { SumOfZeros(zeros[..|zeros| - 1]); }
  }

  lemma MeanInRange(values: seq<nat>, top: nat)
    requires values != [] && forall k :: 0 <= k < |values| ==> values[k] <= top
    ensures RoundedMean(values) <= top
  {
    var zeros := seq(|values|, k requires 0 <= k < |values| => 0);
    SumOfZeros(zeros);
    MeansNear(values, zeros, top);
    DivMod(|values|, 2 * |values|, 0, |values|);
  }

  // ---------------------------------------------------------------- the fast bound

  lemma ProductBound(a: real, d: real, c: real)
    requires -c <= d <= c
    ensures -(Abs(a) * c) <= a * d <= Abs(a) * c
  {
    if a < 0.0 {
      assert a * d <= -a * c && -(-a * c) <= a * d by { NonNegative(-a, c - d); NonNegative(-a, c + d); }
    } else {
      assert a * d <= a * c && -(a * c) <= a * d by { NonNegative(a, c - d); NonNegative(a, c + d); }
    }
  }

  lemma NonNegative(a: real, b: real)
    requires a >= 0.0 && b >= 0.0
    ensures a * b >= 0.0
  {
  }

  lemma SquareMono(x: real, y: real)
    requires -y <= x <= y
    ensures x * x <= y * y
  {
    NonNegative(y - x, y + x);
    assert (y - x) * (y + x) == y * y - x * x;
  }

  lemma ThreeWithin(x: real, y: real, z: real, a: real, b: real, c: real)
    requires -a <= x <= a && -b <= y <= b && -c <= z <= c
    ensures -(a + b + c) <= x + y + z <= a + b + c
  {
  }

  lemma AlongWithin(axis: Axis, r: real, g: real, b: real, c: Channels)
    requires -(c.r as real) <= r <= c.r as real && -(c.g as real) <= g <= c.g as real
             && -(c.b as real) <= b <= c.b as real
    ensures -Reach(axis, c) <= Along(axis, r, g, b) <= Reach(axis, c)
  {
    ProductBound(axis.r, r, c.r as real);
    ProductBound(axis.g, g, c.g as real);
    ProductBound(axis.b, b, c.b as real);
    hide Abs;
    ThreeWithin(axis.r * r, axis.g * g, axis.b * b,
                Abs(axis.r) * c.r as real, Abs(axis.g) * c.g as real, Abs(axis.b) * c.b as real);
  }

  lemma GapAsReal(p: nat, q: nat, c: nat)
    requires Gap(p, q) <= c
    ensures -(c as real) <= (p - q) as real <= c as real
  {
  }

  lemma DeltaMono(y: real, i: real, q: real, y': real, i': real, q': real)
    requires -y' <= y <= y' && -i' <= i <= i' && -q' <= q <= q'
    ensures DeltaFor(y, i, q) <= DeltaFor(y', i', q')
  {
    SquareMono(y, y');
    SquareMono(i, i');
    SquareMono(q, q');
  }

  lemma ScoredMono(a: real, b: real)
    requires a <= b
    ensures Scored(a) <= Scored(b)
  {
  }

  /** The differences of two pixels along the three axes. */
  predicate Bands(p: Pixel, q: Pixel, y: real, i: real, u: real) {
    var (r, g, b) := ((p.r - q.r) as real, (p.g - q.g) as real, (p.b - q.b) as real);
    y == Along(Y, r, g, b) && i == Along(I, r, g, b) && u == Along(Q, r, g, b)
  }

  ghost predicate Differ(p: Pixel, q: Pixel, delta: real) {
    forall y, i, u {:trigger Bands(p, q, y, i, u)} :: Bands(p, q, y, i, u) ==> delta == DeltaFor(y, i, u)
  }

  /** Two pixels score at most `fuzz`; said of whatever they differ by, so that the formula stays out of proofs. */
  ghost predicate Near(p: Pixel, q: Pixel, fuzz: int) {
    forall delta {:trigger Differ(p, q, delta)} :: Differ(p, q, delta) ==> Within(delta, fuzz)
  }

  lemma NearIs(p: Pixel, q: Pixel, fuzz: int)
    ensures Near(p, q, fuzz) <==> Within(PixelDelta(p, q), fuzz)
  {
    var (r, g, b) := ((p.r - q.r) as real, (p.g - q.g) as real, (p.b - q.b) as real);
    assert Bands(p, q, Along(Y, r, g, b), Along(I, r, g, b), Along(Q, r, g, b));
    hide Within, DeltaFor, Along;
    assert Differ(p, q, PixelDelta(p, q));
  }

  /** No two pixels that close in every channel score above the bound. */
  lemma BoundHolds(p: Pixel, q: Pixel, c: Channels)
    requires NoFurther(p, q, c)
    ensures Near(p, q, BoundForChannels(c))
  {
    NearIs(p, q, BoundForChannels(c));
    var (r, g, b) := ((p.r - q.r) as real, (p.g - q.g) as real, (p.b - q.b) as real);
    GapAsReal(p.r, q.r, c.r);
    GapAsReal(p.g, q.g, c.g);
    GapAsReal(p.b, q.b, c.b);
    AlongWithin(Y, r, g, b, c);
    AlongWithin(I, r, g, b, c);
    AlongWithin(Q, r, g, b, c);
    CeilRootIsLeast(Scored(DeltaFor(Reach(Y, c), Reach(I, c), Reach(Q, c))), 0);
    hide Along, Reach, NoFurther, CeilRoot, Gap, DeltaFor, Scored, Near;
    DeltaMono(Along(Y, r, g, b), Along(I, r, g, b), Along(Q, r, g, b), Reach(Y, c), Reach(I, c), Reach(Q, c));
    ScoredMono(PixelDelta(p, q), DeltaFor(Reach(Y, c), Reach(I, c), Reach(Q, c)));
  }

  lemma WithinMore(delta: real, n: nat, m: nat)
    requires Within(delta, n) && n <= m
    ensures Within(delta, m)
  {
    MulMono(n, m, n);
    MulMono(n, m, m);
  }

  /** A blur brings no pair of pixels further apart than the furthest pair going in. */
  lemma BlurNoFurther(a: Image, b: Image, blur: nat, c: Channels, p: nat)
    requires a.Valid() && b.Valid() && a.width == b.width && a.height == b.height && p < |a.pixels|
    requires forall k :: 0 <= k < |a.pixels| ==> NoFurther(a.pixels[k], b.pixels[k], c)
    ensures NoFurther(Blurred(a, blur).pixels[p], Blurred(b, blur).pixels[p], c)
  {
    if blur > 0 {
      AveragedNear(a, b, p, blur, (x: Pixel) => x.r, c.r);
      AveragedNear(a, b, p, blur, (x: Pixel) => x.g, c.g);
      AveragedNear(a, b, p, blur, (x: Pixel) => x.b, c.b);
    }
    hide Averaged;
  }

  lemma AveragedNear(a: Image, b: Image, p: nat, blur: nat, channel: Pixel -> byte, m: nat)
    requires a.Valid() && b.Valid() && a.width == b.width && a.height == b.height && p < |a.pixels|
    requires forall k :: 0 <= k < |a.pixels| ==> Gap(channel(a.pixels[k]), channel(b.pixels[k])) <= m
    ensures Gap(Averaged(a, p, blur, channel), Averaged(b, p, blur, channel)) <= m
  {
    var w := Window(a.width, a.height, p, blur);
    var xs: seq<nat> := seq(|w|, k requires 0 <= k < |w| => channel(a.pixels[w[k]]) as nat);
    var ys: seq<nat> := seq(|w|, k requires 0 <= k < |w| => channel(b.pixels[w[k]]) as nat);
    MeansNear(xs, ys, m);
    MeansNear(ys, xs, m);
    hide Window, RoundedMean;
  }

  // ---------------------------------------------------------------- matching

  /** `matches`. */
  function Matches(actual: Image, expected: Image, fuzz: int, blur: nat): bool
    requires actual.Valid() && expected.Valid() && (actual.pixels != [] || fuzz >= 0)
  {
    if actual.width != expected.width || actual.height != expected.height then false
    else if BoundForChannels(WorstChannels(actual.pixels, expected.pixels)) <= fuzz then true
    else
      NothingDiffers(fuzz, actual, expected);
      Within(WorstDelta(Blurred(actual, blur).pixels, Blurred(expected, blur).pixels), fuzz)
  }

  lemma NothingDiffers(fuzz: int, actual: Image, expected: Image)
    requires |actual.pixels| == |expected.pixels| && (actual.pixels != [] || fuzz >= 0)
    ensures BoundForChannels(WorstChannels(actual.pixels, expected.pixels)) <= fuzz || actual.pixels != []
  {
    if actual.pixels == [] {
      var none := Channels(0, 0, 0);
      assert Reach(Y, none) == 0.0 && Reach(I, none) == 0.0 && Reach(Q, none) == 0.0;
      assert Scored(DeltaFor(0.0, 0.0, 0.0)) == 0.0;
      assert CeilRoot(0.0, 0) == 0;
    }
    hide CeilRoot;
  }

  /** What a match means: the same size, and no pixel scoring above `fuzz` once both are blurred. */
  ghost predicate Close(actual: Image, expected: Image, fuzz: int, blur: nat)
    requires actual.Valid() && expected.Valid()
  {
    && actual.width == expected.width && actual.height == expected.height
    && forall p :: 0 <= p < |actual.pixels| ==>
         Near(Blurred(actual, blur).pixels[p], Blurred(expected, blur).pixels[p], fuzz)
  }

  /** The fast path never disagrees with the full score, whatever the blur. */
  lemma MatchesIsClose(actual: Image, expected: Image, fuzz: int, blur: nat)
    requires actual.Valid() && expected.Valid() && (actual.pixels != [] || fuzz >= 0)
    ensures Matches(actual, expected, fuzz, blur) <==> Close(actual, expected, fuzz, blur)
  {
    hide BoundForChannels, PixelDelta, Scored, NoFurther, Blurred, WorstChannels, WorstDelta, Near;
    if actual.width == expected.width && actual.height == expected.height {
      var a, b := Blurred(actual, blur).pixels, Blurred(expected, blur).pixels;
      var c := WorstChannels(actual.pixels, expected.pixels);
      if BoundForChannels(c) <= fuzz {
        forall p | 0 <= p < |a| ensures Near(a[p], b[p], fuzz) {
          NearIs(a[p], b[p], fuzz);
          BlurNoFurther(actual, expected, blur, c, p);
          BoundHolds(a[p], b[p], c);
          NearIs(a[p], b[p], BoundForChannels(c));
          WithinMore(PixelDelta(a[p], b[p]), BoundForChannels(c), fuzz);
        }
      } else {
        NothingDiffers(fuzz, actual, expected);
        var worst := WorstDelta(a, b);
        var k :| 0 <= k < |a| && PixelDelta(a[k], b[k]) == worst;
        NearIs(a[k], b[k], fuzz);
        forall p | 0 <= p < |a| && Within(worst, fuzz) ensures Near(a[p], b[p], fuzz) {
          NearIs(a[p], b[p], fuzz);
          LowerScores(PixelDelta(a[p], b[p]), worst, fuzz);
        }
      }
    }
  }

  lemma LowerScores(delta: real, worst: real, fuzz: int)
    requires delta <= worst && Within(worst, fuzz)
    ensures Within(delta, fuzz)
  {
  }
}
