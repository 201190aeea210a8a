/** What the scores of vncdotool/imagematch.py can be: nothing at all for some pairs, and how far apart for others. */
module Scores {
  import opened Bytes
  import opened Arith
  import opened ImageMatch

  function DeltaOf(r: real, g: real, b: real): real {
    DeltaFor(Along(Y, r, g, b), Along(I, r, g, b), Along(Q, r, g, b))
  }

  lemma DeltaIs(p: Pixel, q: Pixel)
    ensures PixelDelta(p, q) == DeltaOf((p.r - q.r) as real, (p.g - q.g) as real, (p.b - q.b) as real)
  {
  }

  /** Which of two pixels comes first does not matter. */
  lemma DeltaIsSymmetric(p: Pixel, q: Pixel)
    ensures PixelDelta(p, q) == PixelDelta(q, p)
  {
    var (r, g, b) := ((p.r - q.r) as real, (p.g - q.g) as real, (p.b - q.b) as real);
    assert (q.r - p.r) as real == -r && (q.g - p.g) as real == -g && (q.b - p.b) as real == -b;
    NegatedAlong(Y, r, g, b);
    NegatedAlong(I, r, g, b);
    NegatedAlong(Q, r, g, b);
    NegatedDelta(Along(Y, r, g, b), Along(I, r, g, b), Along(Q, r, g, b));
    hide Along, DeltaFor;
  }

  lemma NearIsSymmetric(p: Pixel, q: Pixel, fuzz: int)
    ensures Near(p, q, fuzz) == Near(q, p, fuzz)
  {
    NearIs(p, q, fuzz);
    NearIs(q, p, fuzz);
    DeltaIsSymmetric(p, q);
    hide *;
  }

  lemma NegatedDelta(y: real, i: real, q: real)
    ensures DeltaFor(-y, -i, -q) == DeltaFor(y, i, q)
  {
    assert (-y) * (-y) == y * y && (-i) * (-i) == i * i && (-q) * (-q) == q * q;
  }

  lemma NegatedAlong(axis: Axis, r: real, g: real, b: real)
    ensures Along(axis, -r, -g, -b) == -Along(axis, r, g, b)
  {
  }

  // ---------------------------------------------------------------- no score at all

  lemma SquareSign(x: real)
    ensures x * x >= 0.0
  {
  }

  lemma DeltaSign(y: real, i: real, q: real)
    ensures DeltaFor(y, i, q) >= 0.0
  {
    SquareSign(y);
    SquareSign(i);
    SquareSign(q);
  }

  lemma SquaresOfSumAndDifference(x: real, x': real)
    ensures (x + x') * (x + x') + (x - x') * (x - x') == 2.0 * (x * x) + 2.0 * (x' * x')
  {
  }

  /** The parallelogram law: a sum of two differences is at most twice as far, squared, as both together. */
  lemma DeltaOfSum(y: real, i: real, q: real, y': real, i': real, q': real)
    ensures DeltaFor(y + y', i + i', q + q') <= 2.0 * DeltaFor(y, i, q) + 2.0 * DeltaFor(y', i', q')
  {
    SquaresOfSumAndDifference(y, y');
    SquaresOfSumAndDifference(i, i');
    SquaresOfSumAndDifference(q, q');
    DeltaSign(y - y', i - i', q - q');
  }

  lemma AlongAdds(axis: Axis, r: real, g: real, b: real, r': real, g': real, b': real)
    ensures Along(axis, r + r', g + g', b + b') == Along(axis, r, g, b) + Along(axis, r', g', b')
  {
  }

  lemma DeltaAdds(p: Pixel, q: Pixel, s: Pixel)
    ensures PixelDelta(p, s) <= 2.0 * PixelDelta(p, q) + 2.0 * PixelDelta(q, s)
  {
    var (r, g, b) := ((p.r - q.r) as real, (p.g - q.g) as real, (p.b - q.b) as real);
    var (r', g', b') := ((q.r - s.r) as real, (q.g - s.g) as real, (q.b - s.b) as real);
    assert (p.r - s.r) as real == r + r' && (p.g - s.g) as real == g + g' && (p.b - s.b) as real == b + b';
    AlongAdds(Y, r, g, b, r', g', b');
    AlongAdds(I, r, g, b, r', g', b');
    AlongAdds(Q, r, g, b, r', g', b');
    hide Along, DeltaFor;
    DeltaOfSum(Along(Y, r, g, b), Along(I, r, g, b), Along(Q, r, g, b),
               Along(Y, r', g', b'), Along(I, r', g', b'), Along(Q, r', g', b'));
  }

  lemma WithinNothing(delta: real)
    ensures Within(delta, 0) <==> delta <= 0.0
  {
  }

  /** Scoring nothing is transitive. */
  lemma NoScoreIsTransitive(p: Pixel, q: Pixel, s: Pixel)
    requires Near(p, q, 0) && Near(q, s, 0)
    ensures Near(p, s, 0)
  {
    NearIs(p, q, 0);
    NearIs(q, s, 0);
    NearIs(p, s, 0);
    WithinNothing(PixelDelta(p, q));
    WithinNothing(PixelDelta(q, s));
    WithinNothing(PixelDelta(p, s));
    DeltaAdds(p, q, s);
    hide PixelDelta, Within, Near;
  }

  // ---------------------------------------------------------------- the largest score

  /** The least whole number that no score is above; one score, of yellow against blue, is above 258. */
  const LARGEST_SCORE: nat := 259

  function Parabola(a: real, b: real, c: real, x: real): real { a * x * x + b * x + c }

  /** A convex parabola is nowhere higher than at one end of an interval around zero. */
  lemma HigherAtAnEnd(a: real, b: real, c: real, x: real, m: real)
    requires a >= 0.0 && -m <= x <= m
    ensures Parabola(a, b, c, x) <= Parabola(a, b, c, m) || Parabola(a, b, c, x) <= Parabola(a, b, c, -m)
  {
    NonNegative(m - x, m + x);
    assert (m - x) * (m + x) == m * m - x * x;
    NonNegative(a, m * m - x * x);
    assert a * (m * m - x * x) == a * m * m - a * x * x;
    if b >= 0.0 { NonNegative(b, m - x); } else { NonNegative(-b, m + x); }
  }

  /** A difference along one channel, added to what the other channels contribute on each axis. */
  function Offset(y: real, i: real, q: real, cy: real, ci: real, cq: real, x: real): real {
    DeltaFor(y + cy * x, i + ci * x, q + cq * x)
  }

  function Linear(y: real, i: real, q: real, cy: real, ci: real, cq: real): real {
    2.0 * (0.5053 * (y * cy) + 0.299 * (i * ci) + 0.1957 * (q * cq))
  }

  lemma SquareOfSum(y: real, c: real, x: real)
    ensures (y + c * x) * (y + c * x) == y * y + 2.0 * (y * c) * x + (c * c) * x * x
  {
  }

  lemma OffsetIs(y: real, i: real, q: real, cy: real, ci: real, cq: real, x: real)
    ensures Offset(y, i, q, cy, ci, cq, x)
            == Parabola(DeltaFor(cy, ci, cq), Linear(y, i, q, cy, ci, cq), DeltaFor(y, i, q), x)
  {
    SquareOfSum(y, cy, x);
    SquareOfSum(i, ci, x);
    SquareOfSum(q, cq, x);
  }

  lemma OffsetHigherAtAnEnd(y: real, i: real, q: real, cy: real, ci: real, cq: real, x: real)
    requires -255.0 <= x <= 255.0
    ensures Offset(y, i, q, cy, ci, cq, x) <= Offset(y, i, q, cy, ci, cq, 255.0)
            || Offset(y, i, q, cy, ci, cq, x) <= Offset(y, i, q, cy, ci, cq, -255.0)
  {
    OffsetIs(y, i, q, cy, ci, cq, x);
    OffsetIs(y, i, q, cy, ci, cq, 255.0);
    OffsetIs(y, i, q, cy, ci, cq, -255.0);
    DeltaSign(cy, ci, cq);
    hide Linear, Offset, DeltaFor, Parabola;
    HigherAtAnEnd(DeltaFor(cy, ci, cq), Linear(y, i, q, cy, ci, cq), DeltaFor(y, i, q), x, 255.0);
  }

  predicate Channel(x: real) { -255.0 <= x <= 255.0 }

  predicate End(x: real) { x == 255.0 || x == -255.0 }

  lemma RaiseRed(r: real, g: real, b: real) returns (e: real)
    requires Channel(r)
    ensures End(e) && DeltaOf(r, g, b) <= DeltaOf(e, g, b)
  {
    var y, i, q := Y.g * g + Y.b * b, I.g * g + I.b * b, Q.g * g + Q.b * b;
    OffsetHigherAtAnEnd(y, i, q, Y.r, I.r, Q.r, r);
    assert forall x: real :: DeltaOf(x, g, b) == Offset(y, i, q, Y.r, I.r, Q.r, x);
    e := if DeltaOf(r, g, b) <= DeltaOf(255.0, g, b) then 255.0 else -255.0;
  }

  lemma RaiseGreen(r: real, g: real, b: real) returns (e: real)
    requires Channel(g)
    ensures End(e) && DeltaOf(r, g, b) <= DeltaOf(r, e, b)
  {
    var y, i, q := Y.r * r + Y.b * b, I.r * r + I.b * b, Q.r * r + Q.b * b;
    OffsetHigherAtAnEnd(y, i, q, Y.g, I.g, Q.g, g);
    assert forall x: real :: DeltaOf(r, x, b) == Offset(y, i, q, Y.g, I.g, Q.g, x);
    e := if DeltaOf(r, g, b) <= DeltaOf(r, 255.0, b) then 255.0 else -255.0;
  }

  lemma RaiseBlue(r: real, g: real, b: real) returns (e: real)
    requires Channel(b)
    ensures End(e) && DeltaOf(r, g, b) <= DeltaOf(r, g, e)
  {
    var y, i, q := Y.r * r + Y.g * g, I.r * r + I.g * g, Q.r * r + Q.g * g;
    OffsetHigherAtAnEnd(y, i, q, Y.b, I.b, Q.b, b);
    assert forall x: real :: DeltaOf(r, g, x) == Offset(y, i, q, Y.b, I.b, Q.b, x);
    e := if DeltaOf(r, g, b) <= DeltaOf(r, g, 255.0) then 255.0 else -255.0;
  }

  lemma CornersWithin(r: real, g: real, b: real)
    requires End(r) && End(g) && End(b)
    ensures Scored(DeltaOf(r, g, b)) <= 259.0 * 259.0
  {
  }

  /** No two pixels score above the largest score. */
  lemma NoneAboveLargest(p: Pixel, q: Pixel)
    ensures Within(PixelDelta(p, q), LARGEST_SCORE)
  {
    var (r, g, b) := ((p.r - q.r) as real, (p.g - q.g) as real, (p.b - q.b) as real);
    DeltaIs(p, q);
    var e := RaiseRed(r, g, b);
    var f := RaiseGreen(e, g, b);
    var h := RaiseBlue(e, f, b);
    CornersWithin(e, f, h);
    ScoredMono(PixelDelta(p, q), DeltaOf(e, f, h));
    hide DeltaOf, Scored;
  }

  // ---------------------------------------------------------------- three pixels, two of them close

  function Opposed(k: byte): Pixel { Pixel(k, k, 255 - k) }

  /** One step on the way from blue to yellow. */
  function Unit(): real { DeltaFor(Along(Y, 1.0, 1.0, -1.0), Along(I, 1.0, 1.0, -1.0), Along(Q, 1.0, 1.0, -1.0)) }

  lemma UnitDelta(x: real)
    ensures DeltaOf(x, x, -x) == Unit() * (x * x)
  {
    var y, i, q := Along(Y, 1.0, 1.0, -1.0), Along(I, 1.0, 1.0, -1.0), Along(Q, 1.0, 1.0, -1.0);
    ScaledAlong(Y, x);
    ScaledAlong(I, x);
    ScaledAlong(Q, x);
    SameDelta(Along(Y, x, x, -x), Along(I, x, x, -x), Along(Q, x, x, -x), y * x, i * x, q * x);
    ScaledDelta(y, i, q, x);
    hide Along, DeltaFor;
  }

  lemma SameDelta(y: real, i: real, q: real, y': real, i': real, q': real)
    requires y == y' && i == i' && q == q'
    ensures DeltaFor(y, i, q) == DeltaFor(y', i', q')
  {
  }

  lemma OpposedDelta(j: byte, k: byte)
    ensures PixelDelta(Opposed(j), Opposed(k)) == Unit() * ((j - k) as real * (j - k) as real)
  {
    DeltaIs(Opposed(j), Opposed(k));
    UnitDelta((j - k) as real);
    hide PixelDelta, DeltaOf;
    assert ((255 - j) - (255 - k)) as real == -((j - k) as real);
  }

  lemma ScaledAlong(axis: Axis, x: real)
    ensures Along(axis, x, x, -x) == Along(axis, 1.0, 1.0, -1.0) * x
  {
  }

  lemma ScaledDelta(y: real, i: real, q: real, x: real)
    ensures DeltaFor(y * x, i * x, q * x) == DeltaFor(y, i, q) * (x * x)
  {
    assert (y * x) * (y * x) == (y * y) * (x * x);
    assert (i * x) * (i * x) == (i * i) * (x * x);
    assert (q * x) * (q * x) == (q * q) * (x * x);
  }

  /** The first pixel on the way from blue to yellow that is further than `fuzz` from blue. */
  ghost function FirstApart(fuzz: nat, k: byte): (n: byte)
    requires 2 <= fuzz < LARGEST_SCORE && k > 0 && Near(Opposed(0), Opposed(k - 1), fuzz)
    ensures n > 0 && Near(Opposed(0), Opposed(n - 1), fuzz) && !Near(Opposed(0), Opposed(n), fuzz)
    decreases 255 - k
  {
    if !Near(Opposed(0), Opposed(k), fuzz) then k
    else
      YellowFromBlue(fuzz);
      FirstApart(fuzz, k + 1)
  }

  lemma YellowFromBlue(fuzz: nat)
    requires fuzz < LARGEST_SCORE
    ensures !Near(Opposed(0), Opposed(255), fuzz)
  {
    NearIs(Opposed(0), Opposed(255), fuzz);
    OpposedDelta(0, 255);
    hide PixelDelta, Near;
    if fuzz < 258 { MulMono(fuzz, 258, fuzz); MulMono(fuzz, 258, 258); }
    assert fuzz * fuzz <= 258 * 258;
  }

  lemma NearEnough(p: Pixel, q: Pixel, fuzz: nat)
    requires fuzz >= LARGEST_SCORE
    ensures Near(p, q, fuzz)
  {
    NoneAboveLargest(p, q);
    WithinMore(PixelDelta(p, q), LARGEST_SCORE, fuzz);
    NearIs(p, q, fuzz);
    hide *;
  }

  /** The scale does not end at 255: only from 259 on is every pixel within `fuzz` of every other. */
  lemma AllWithinExactlyFrom(fuzz: nat)
    ensures (forall p, q :: Near(p, q, fuzz)) <==> fuzz >= LARGEST_SCORE
  {
    if fuzz < LARGEST_SCORE {
      YellowFromBlue(fuzz);
    } else {
      forall p, q ensures Near(p, q, fuzz) { NearEnough(p, q, fuzz); }
    }
    hide PixelDelta, Within, Near;
  }

  lemma OneStep(j: byte, k: byte, fuzz: nat)
    requires j <= k <= j + 1 && 2 <= fuzz
    ensures Near(Opposed(j), Opposed(k), fuzz)
  {
    NearIs(Opposed(j), Opposed(k), fuzz);
    OpposedDelta(j, k);
    hide PixelDelta, Near;
    MulMono(2, fuzz, 2);
    MulMono(2, fuzz, fuzz);
  }

  function Grey(v: byte): Pixel { Pixel(v, v, v) }

  lemma GreyDelta(a: byte, b: byte)
    requires a < b <= 2
    ensures Near(Grey(b), Grey(a), 1) <==> b - a == 1
  {
    NearIs(Grey(b), Grey(a), 1);
    hide Near;
  }

  /** Two pixels near a third are near each other. */
  ghost predicate ClosenessAddsUp(fuzz: nat) {
    forall p, q, s :: Near(p, q, fuzz) && Near(q, s, fuzz) ==> Near(p, s, fuzz)
  }

  lemma ClosenessDoesNotAddUp(fuzz: nat)
    requires 1 <= fuzz < LARGEST_SCORE
    ensures !ClosenessAddsUp(fuzz)
  {
    var x, y, z;
    if fuzz == 1 {
      x, y, z := Grey(0), Grey(1), Grey(2);
      GreyDelta(0, 1);
      GreyDelta(1, 2);
      GreyDelta(0, 2);
      NearIsSymmetric(x, y, fuzz);
      NearIsSymmetric(y, z, fuzz);
      NearIsSymmetric(x, z, fuzz);
    } else {
      OneStep(0, 0, fuzz);
      var n := FirstApart(fuzz, 1);
      x, y, z := Opposed(0), Opposed(n - 1), Opposed(n);
      OneStep(n - 1, n, fuzz);
    }
    hide Near;
    assert Near(x, y, fuzz) && Near(y, z, fuzz) && !Near(x, z, fuzz);
  }

  /** Closeness adds up exactly for a `fuzz` of nothing, and from the largest score on. */
  lemma ClosenessAddsUpExactlyWhen(fuzz: nat)
    ensures ClosenessAddsUp(fuzz) <==> fuzz == 0 || fuzz >= LARGEST_SCORE
  {
    if fuzz == 0 {
      forall p, q, s | Near(p, q, 0) && Near(q, s, 0) ensures Near(p, s, 0) { NoScoreIsTransitive(p, q, s); }
    } else if fuzz >= LARGEST_SCORE {
      forall p, s ensures Near(p, s, fuzz) { NearEnough(p, s, fuzz); }
    } else {
      ClosenessDoesNotAddUp(fuzz);
    }
    hide Near;
  }
}
