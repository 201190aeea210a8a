/**
  What fewer than eight bits a channel cost (vncdotool/pixelformat.py, vncdotool/imagematch.py): the values a client
  shows for an n-bit channel, what a server makes of an 8-bit value, and the `fuzz` that covers the difference.
 */
module ColourDepth {
  import opened Bytes
  import opened Arith
  import opened CPixels
  import opened ImageMatch

  /** `255 >> n`. */
  function Step8(n: nat): nat { if n >= 8 then 0 else 255 / Pow2(n) }

  /** `channel_tolerance`; a colour map has none. */
  function ChannelTolerance(f: PixelFormat): Option<Channels> {
    if !f.truecolour then None
    else Some(Channels(Step8(BitLength(f.redmax)), Step8(BitLength(f.greenmax)), Step8(BitLength(f.bluemax))))
  }

  // ---------------------------------------------------------------- what is shown

  /** `w` may be shown for the value `k` of a channel whose greatest is `m`: `k` scaled to eight bits, within one. */
  predicate Shown(m: nat, k: nat, w: byte) {
    k <= m && (k == 0 ==> w == 0) && (k == m > 0 ==> w == 255) && Gap(w * m, k * 255) <= m
  }

  /** `g[k]` is what a client shows for the value `k` of an n-bit channel. Eight bits and more are shown as they are. */
  predicate Shows(n: nat, g: seq<byte>) {
    if n >= 8 then |g| == 256 && forall k :: 0 <= k < |g| ==> g[k] == k
    else |g| == Pow2(n) && forall k :: 0 <= k < |g| ==> Shown(Pow2(n) - 1, k, g[k])
  }

  /** A server that drops the low bits. */
  function Truncated(n: nat, v: byte): nat {
    if n >= 8 then v
    else
      StepIsBelow(n);
      v / Pow2(8 - n)
  }

  /** A server that rounds to the closest channel value. */
  predicate Rounds(n: nat, v: byte, k: nat) {
    if n >= 8 then k == v else 2 * Gap(v * (Pow2(n) - 1), k * 255) <= 255
  }

  /** A server that rounds to the closest value shown. */
  predicate Closest(g: seq<byte>, v: byte, k: nat)
    requires k < |g|
  {
    forall j :: 0 <= j < |g| ==> Gap(v, g[k]) <= Gap(v, g[j])
  }

  /** What servers may send for an 8-bit value. */
  predicate Picks(n: nat, g: seq<byte>, v: byte, k: nat) {
    k < |g| && (k == Truncated(n, v) || Rounds(n, v, k) || Closest(g, v, k))
  }

  lemma StepIsBelow(n: nat)
    requires n <= 8
    ensures Step8(n) + 1 == Pow2(8 - n)
  {
    Powers();
    assert n == 0 || n == 1 || n == 2 || n == 3 || n == 4 || n == 5 || n == 6 || n == 7 || n == 8;
  }

  /** Truncating and rounding to `k` both keep a value near what is shown for `k`. */
  predicate Kept(n: nat, v: byte, k: nat, w: byte) { k == Truncated(n, v) || Rounds(n, v, k) ==> Gap(v, w) <= Step8(n) }

  /** The same, for a channel whose greatest value is `m` and that drops the bits below `step`. */
  predicate KeptBy(m: nat, step: nat, v: byte, k: nat, w: byte) {
    step > 0 && v / step <= m && (k == v / step || 2 * Gap(v * m, k * 255) <= 255 ==> Gap(v, w) < step)
  }

  // Each width by itself, where every product is by a constant.

  lemma One(v: byte, k: nat, w: byte)
    requires Shown(1, k, w)
    ensures KeptBy(1, 128, v, k, w)
  {
  }

  lemma Two(v: byte, k: nat, w: byte)
    requires Shown(3, k, w)
    ensures KeptBy(3, 64, v, k, w)
  {
  }

  lemma Three(v: byte, k: nat, w: byte)
    requires Shown(7, k, w)
    ensures KeptBy(7, 32, v, k, w)
  {
  }

  lemma Four(v: byte, k: nat, w: byte)
    requires Shown(15, k, w)
    ensures KeptBy(15, 16, v, k, w)
  {
  }

  lemma Five(v: byte, k: nat, w: byte)
    requires Shown(31, k, w)
    ensures KeptBy(31, 8, v, k, w)
  {
  }

  lemma Six(v: byte, k: nat, w: byte)
    requires Shown(63, k, w)
    ensures KeptBy(63, 4, v, k, w)
  {
  }

  lemma Seven(v: byte, k: nat, w: byte)
    requires Shown(127, k, w)
    ensures KeptBy(127, 2, v, k, w)
  {
  }

  lemma AtWidth(n: nat, v: byte, k: nat, w: byte)
    requires 1 <= n < 8 && Shown(Pow2(n) - 1, k, w)
    ensures Truncated(n, v) < Pow2(n) && Kept(n, v, k, w)
  {
    Powers();
    StepIsBelow(n);
    hide Shown, KeptBy, Kept, Truncated, Rounds, Gap, Pow2, Step8;
    if n == 1 {
      One(v, k, w);
    } else if n == 2 {
      Two(v, k, w);
    } else if n == 3 {
      Three(v, k, w);
    } else if n == 4 {
      Four(v, k, w);
    } else if n == 5 {
      Five(v, k, w);
    } else if n == 6 {
      Six(v, k, w);
    } else {
      Seven(v, k, w);
    }
    KeptByIs(n, v, k, w);
  }

  lemma KeptByIs(n: nat, v: byte, k: nat, w: byte)
    requires 1 <= n < 8 && KeptBy(Pow2(n) - 1, Pow2(8 - n), v, k, w)
    ensures Truncated(n, v) < Pow2(n) && Kept(n, v, k, w)
  {
    StepIsBelow(n);
    hide Gap, Pow2, Step8;
  }

  lemma TruncatedNear(n: nat, g: seq<byte>, v: byte)
    requires Shows(n, g)
    ensures Truncated(n, v) < |g| && Gap(v, g[Truncated(n, v)]) <= Step8(n)
  {
    if n == 0 {
      Powers();
    } else if n < 8 {
      hide Shown, Gap, Step8, Pow2, Truncated, Rounds;
      AtWidth(n, v, 0, g[0]);
      AtWidth(n, v, Truncated(n, v), g[Truncated(n, v)]);
    }
  }

  lemma RoundedNear(n: nat, g: seq<byte>, v: byte, k: nat)
    requires Shows(n, g) && k < |g| && Rounds(n, v, k)
    ensures Gap(v, g[k]) <= Step8(n)
  {
    if n == 0 {
      Powers();
    } else if n < 8 {
      hide Shown, Gap, Step8, Pow2, Truncated, Rounds;
      AtWidth(n, v, k, g[k]);
    }
  }

  /** Whether a server truncates or rounds, what is shown for a value is within the channel's tolerance of it. */
  lemma PickedNear(n: nat, g: seq<byte>, v: byte, k: nat)
    requires Shows(n, g) && Picks(n, g, v, k)
    ensures Gap(v, g[k]) <= Step8(n)
  {
    TruncatedNear(n, g, v);
    hide Shows, Truncated, Step8;
    if Rounds(n, v, k) { RoundedNear(n, g, v, k); }
  }

  /** The tolerance is the least that allows for truncation. */
  lemma ToleranceIsExact(n: nat, g: seq<byte>, t: nat)
    requires Shows(n, g)
    ensures (forall v: byte :: Truncated(n, v) < |g| && Gap(v, g[Truncated(n, v)]) <= t) <==> Step8(n) <= t
  {
    forall v: byte ensures Truncated(n, v) < |g| && Gap(v, g[Truncated(n, v)]) <= Step8(n) { TruncatedNear(n, g, v); }
    LastOfTheFirst(n);
    hide Truncated, Step8;
  }

  lemma LastOfTheFirst(n: nat)
    ensures Step8(n) < 256 && Truncated(n, Step8(n)) == 0
  {
    Powers();
    assert n == 0 || n == 1 || n == 2 || n == 3 || n == 4 || n == 5 || n == 6 || n == 7 || n >= 8;
  }

  // ---------------------------------------------------------------- either neighbour

  /** Both of the values shown next to one that is not are within the tolerance. */
  ghost predicate BothNear(n: nat, g: seq<byte>) {
    forall v: byte, k: nat :: Between(g, k, v) ==> BesideNear(n, g, k, v)
  }

  predicate Between(g: seq<byte>, k: nat, v: byte) { k + 1 < |g| && g[k] < v < g[k + 1] }

  predicate BesideNear(n: nat, g: seq<byte>, k: nat, v: byte)
    requires k + 1 < |g|
  {
    Gap(v, g[k]) <= Step8(n) && Gap(v, g[k + 1]) <= Step8(n)
  }

  /** However the values between black and white are chosen, two next to each other are further apart than 2**(8-n). */
  lemma WideGap(n: nat, g: seq<byte>) returns (k: nat)
    requires 1 <= n < 8 && |g| == Pow2(n) && g[0] == 0 && g[|g| - 1] == 255
    ensures k + 1 < |g| && g[k + 1] > g[k] + Pow2(8 - n)
  {
    Powers();
    assert n == 1 || n == 2 || n == 3 || n == 4 || n == 5 || n == 6 || n == 7;
    if forall j :: 0 <= j < |g| - 1 ==> g[j + 1] <= g[j] + Pow2(8 - n) {
      GapsAddUp(g, Pow2(8 - n), |g| - 1);
      assert false;
    } else {
      k :| 0 <= k < |g| - 1 && g[k + 1] > g[k] + Pow2(8 - n);
    }
  }

  lemma {:induction false} GapsAddUp(g: seq<byte>, step: nat, n: nat)
    requires g != [] && g[0] == 0 && n < |g| && forall j :: 0 <= j < |g| - 1 ==> g[j + 1] <= g[j] + step
    ensures g[n] <= n * step
  {
    if n > 0 {
      GapsAddUp(g, step, n - 1);
      MulAdd(n - 1, 1, step);
      assert g[n - 1 + 1] <= g[n - 1] + step;
    }
  }

  /** The tolerance allows for either neighbour only where there is nothing to choose. */
  lemma EitherNeighbourExactlyWhen(n: nat, g: seq<byte>)
    requires Shows(n, g)
    ensures BothNear(n, g) <==> n == 0 || n >= 8
  {
    if 1 <= n < 8 {
      var k := WideGap(n, g);
      StepIsBelow(n);
      Powers();
      assert Pow2(8 - n) >= 2;
      var v: byte := g[k] + 1;
      hide Shows, Step8;
      assert Between(g, k, v) && !BesideNear(n, g, k, v);
    }
  }

  /** A scaled value cut off to a whole number. */
  function Floor(m: nat, k: nat): (w: byte)
    requires k <= m && m > 0
    ensures Shown(m, k, w)
  {
    FloorFits(m, k);
    k * 255 / m
  }

  lemma FloorFits(m: nat, k: nat)
    requires k <= m && m > 0
    ensures k * 255 / m < 256 && Shown(m, k, k * 255 / m)
  {
    var q, r := k * 255 / m, k * 255 % m;
    assert k * 255 == q * m + r;
    DivMod(m * 255, m, 255, 0);
    DivMod(0, m, 0, 0);
    if q > 255 { MulMono(256, q, m); }
  }

  function Floored(m: nat): (g: seq<byte>)
    requires m > 0
    ensures |g| == m + 1
  {
    seq(m + 1, k requires 0 <= k <= m => Floor(m, k))
  }

  lemma FlooredShows(n: nat)
    requires 1 <= n < 8
    ensures Pow2(n) > 1 && Shows(n, Floored(Pow2(n) - 1))
  {
    assert Pow2(n) == 2 * Pow2(n - 1);
    hide Shown, Pow2;
  }

  /** Five bits: white is white, and 33 lies between 32 and 41, of which 41 is further off than the tolerance. */
  lemma FiveBits()
    ensures var g := Floored(31);
            && Shows(5, g) && g[31] == 255 && g[4] == 32 && g[5] == 41
            && Step8(5) == 7 && Gap(33, g[5]) == 8
  {
    Powers();
    FlooredShows(5);
  }

  // ---------------------------------------------------------------- the default fuzz

  /** What is shown for the values of each channel. */
  datatype Depth = Depth(r: seq<byte>, g: seq<byte>, b: seq<byte>)

  predicate ShowsFormat(f: PixelFormat, d: Depth) {
    Shows(BitLength(f.redmax), d.r) && Shows(BitLength(f.greenmax), d.g) && Shows(BitLength(f.bluemax), d.b)
  }

  /** `w` is shown for what a server makes of `v`. */
  predicate Reproduces(n: nat, g: seq<byte>, v: byte, w: byte) {
    exists k :: 0 <= k < |g| && Picks(n, g, v, k) && w == g[k]
  }

  predicate ReproducesPixel(f: PixelFormat, d: Depth, v: Pixel, w: Pixel) {
    && Reproduces(BitLength(f.redmax), d.r, v.r, w.r) && Reproduces(BitLength(f.greenmax), d.g, v.g, w.g)
    && Reproduces(BitLength(f.bluemax), d.b, v.b, w.b)
  }

  /** A screen whose every channel was cut down to what the format can express. */
  predicate Quantised(f: PixelFormat, d: Depth, screen: Image, target: Image) {
    && screen.Valid() && target.Valid() && screen.width == target.width && screen.height == target.height
    && forall k :: 0 <= k < |screen.pixels| ==> ReproducesPixel(f, d, target.pixels[k], screen.pixels[k])
  }

  /** `fuzz_for_format`. */
  function FuzzForFormat(f: PixelFormat): Option<nat> {
    match ChannelTolerance(f) case None => None case Some(c) => Some(BoundForChannels(c))
  }

  /**
    Whichever way a server rounds, channel by channel and pixel by pixel, and whatever the blur, what a client shows
    of its screen matches at the format's own fuzz.
   */
  lemma QuantisedScreenMatches(f: PixelFormat, d: Depth, screen: Image, target: Image, blur: nat)
    requires f.truecolour && ShowsFormat(f, d) && Quantised(f, d, screen, target)
    ensures Matches(screen, target, FuzzForFormat(f).value, blur)
  {
    hide BoundForChannels, PixelDelta, Scored, NoFurther, Blurred, WorstChannels, WorstDelta, Step8, Matches, BitLength,
         Near, ShowsFormat, ReproducesPixel;
    var c := ChannelTolerance(f).value;
    forall k | 0 <= k < |screen.pixels| ensures NoFurther(screen.pixels[k], target.pixels[k], c) {
      PixelTolerated(f, d, target.pixels[k], screen.pixels[k]);
    }
    var a, b := Blurred(screen, blur).pixels, Blurred(target, blur).pixels;
    forall p | 0 <= p < |a| ensures Near(a[p], b[p], BoundForChannels(c)) {
      BlurNoFurther(screen, target, blur, c, p);
      BoundHolds(a[p], b[p], c);
    }
    MatchesIsClose(screen, target, BoundForChannels(c), blur);
  }

  lemma PixelTolerated(f: PixelFormat, d: Depth, v: Pixel, w: Pixel)
    requires f.truecolour && ShowsFormat(f, d) && ReproducesPixel(f, d, v, w)
    ensures NoFurther(w, v, ChannelTolerance(f).value)
  {
    hide Reproduces, Shows, Step8, BitLength;
    ReproducedNear(BitLength(f.redmax), d.r, v.r, w.r);
    ReproducedNear(BitLength(f.greenmax), d.g, v.g, w.g);
    ReproducedNear(BitLength(f.bluemax), d.b, v.b, w.b);
  }

  lemma ReproducedNear(n: nat, g: seq<byte>, v: byte, w: byte)
    requires Shows(n, g) && Reproduces(n, g, v, w)
    ensures Gap(w, v) <= Step8(n)
  {
    var k :| 0 <= k < |g| && Picks(n, g, v, k) && w == g[k];
    PickedNear(n, g, v, k);
    hide Shows, Picks, Step8;
  }
}
