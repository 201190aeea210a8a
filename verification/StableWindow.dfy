/**
  The window `stableScreen` describes (vncdotool/client.py), in which no frame is further than `fuzz` from the frame
  before it, against the one `_StableWatch` keeps: where the two are the same, and where they are not.
 */
module StableWindow {
  import opened Bytes
  import opened Arith
  import opened ImageMatch
  import opened Scores
  import opened StableWatch

  // ---------------------------------------------------------------- what is described

  /** The frame before event `n`. */
  function Before(es: seq<Event>, n: nat): (b: Option<nat>)
    requires n <= |es|
    ensures b.Some? ==> b.value < n && es[b.value].Frame? && forall j :: b.value < j < n ==> !es[j].Frame?
    ensures b.None? ==> forall j :: 0 <= j < n ==> !es[j].Frame?
  {
    if n == 0 then None else if es[n - 1].Frame? then Some(n - 1) else Before(es, n - 1)
  }

  /** Frame `a` is the first, or further than `fuzz` from the frame before it. */
  ghost predicate Moved(t: Terms, es: seq<Event>, a: nat)
    requires ValidRun(es) && a < |es| && es[a].Frame?
  {
    match Before(es, a) case None => true case Some(b) => !Alike(t, es[a].image, es[b].image)
  }

  /** No frame after `a` has moved. */
  ghost predicate Still(t: Terms, es: seq<Event>, a: nat)
    requires ValidRun(es) && a < |es|
  {
    forall j :: a < j < |es| && es[j].Frame? ==> !Moved(t, es, j)
  }

  /** At `now` the described window has lasted `seconds`. */
  ghost predicate Described(t: Terms, es: seq<Event>, now: real)
    requires ValidRun(es)
  {
    exists a :: 0 <= a < |es| && es[a].Frame? && Moved(t, es, a) && Still(t, es, a) && es[a].now + t.seconds <= now
  }

  /** Some tick of a run found the described window over. */
  ghost predicate ShouldSettle(t: Terms, es: seq<Event>)
    requires ValidRun(es)
  {
    exists k :: 0 <= k < |es| && es[k].Tick? && Described(t, es[..k], es[k].now)
  }

  /** Time does not run backwards. */
  predicate InOrder(es: seq<Event>) { forall j, k :: 0 <= j < k < |es| ==> es[j].now <= es[k].now }

  // ---------------------------------------------------------------- when a match carries over

  /** Nothing but an exact match, or any image of the same size at all. */
  predicate AllOrNothing(t: Terms) { t.fuzz == 0 || t.fuzz >= LARGEST_SCORE }

  lemma AlikeIsSymmetric(t: Terms, x: Image, y: Image)
    requires x.Valid() && y.Valid()
    ensures Alike(t, x, y) == Alike(t, y, x)
  {
    hide Near, Blurred;
    if x.width == y.width && x.height == y.height {
      var a, b := Blurred(x, t.blur).pixels, Blurred(y, t.blur).pixels;
      forall p | 0 <= p < |a| ensures Near(a[p], b[p], t.fuzz) == Near(b[p], a[p], t.fuzz) {
        NearIsSymmetric(a[p], b[p], t.fuzz);
      }
    }
  }

  lemma MatchesCarryOver(t: Terms, x: Image, y: Image, z: Image)
    requires x.Valid() && y.Valid() && z.Valid() && AllOrNothing(t)
    requires Alike(t, x, y) && Alike(t, y, z)
    ensures Alike(t, x, z)
  {
    hide Near, Blurred;
    var a, b, c := Blurred(x, t.blur).pixels, Blurred(y, t.blur).pixels, Blurred(z, t.blur).pixels;
    forall p | 0 <= p < |a| ensures Near(a[p], c[p], t.fuzz) {
      ClosenessAddsUpExactlyWhen(t.fuzz);
      assert Near(a[p], b[p], t.fuzz) && Near(b[p], c[p], t.fuzz);
    }
  }

  // ---------------------------------------------------------------- where they are the same

  /** Every frame of an unbroken window matches the one before it. */
  lemma QuietIsStill(t: Terms, es: seq<Event>, a: nat)
    requires ValidRun(es) && a < |es| && es[a].Frame? && Quiet(t, es, a) && AllOrNothing(t)
    ensures Still(t, es, a)
  {
    hide Alike, Quiet, AllOrNothing;
    forall j | a < j < |es| && es[j].Frame? ensures !Moved(t, es, j) {
      var b := Before(es, j).value;
      QuietAt(t, es, a, j);
      if b != a {
        QuietAt(t, es, a, b);
        AlikeIsSymmetric(t, es[b].image, es[a].image);
        MatchesCarryOver(t, es[j].image, es[a].image, es[b].image);
      }
    }
  }

  /** The frame that restarted the window moved. */
  lemma RestartMoved(t: Terms, es: seq<Event>, a: nat)
    requires ValidRun(es) && a < |es| && es[a].Frame? && Restarts(t, es, a) && AllOrNothing(t)
    ensures Moved(t, es, a)
  {
    hide Alike, AllOrNothing, Restarts, Quiet;
    if Before(es, a).Some? {
      var b := Before(es, a).value;
      var c := RestartCause(t, es, b, a);
      if b != c && Alike(t, es[a].image, es[b].image) {
        QuietAt(t, es[..a], c, b);
        MatchesCarryOver(t, es[a].image, es[b].image, es[c].image);
      }
    }
  }

  lemma QuietAt(t: Terms, es: seq<Event>, c: nat, b: nat)
    requires ValidRun(es) && c < b < |es| && es[c].Frame? && es[b].Frame? && Quiet(t, es, c)
    ensures Alike(t, es[b].image, es[c].image)
  {
    hide Alike;
  }

  /** With nothing in between all and nothing, a tick settles the watch exactly when the described window is over. */
  lemma TickAgrees(t: Terms, es: seq<Event>, now: real)
    requires ValidRun(es) && !Run(t, es).0.settled && AllOrNothing(t)
    ensures Step(t, Run(t, es).0, Tick(now)).0.settled <==> Described(t, es, now)
  {
    hide Alike, Restarts, Quiet, Run, AllOrNothing, Before;
    var w := Run(t, es).0;
    RunStands(t, es);
    if w.baseline.Some? {
      var a: nat :| Anchors(t, es, w, a);
      QuietIsStill(t, es, a);
      RestartMoved(t, es, a);
      OnlyOneStill(t, es, a);
    }
  }

  lemma OnlyOneStill(t: Terms, es: seq<Event>, a: nat)
    requires ValidRun(es) && a < |es| && es[a].Frame? && Moved(t, es, a) && Still(t, es, a)
    ensures forall b :: 0 <= b < |es| && es[b].Frame? && Moved(t, es, b) && Still(t, es, b) ==> b == a
  {
    hide Moved;
  }

  /** Where no time need pass, the first frame settles both at the next tick. */
  lemma TickAgreesAtOnce(t: Terms, es: seq<Event>, now: real)
    requires ValidRun(es) && !Run(t, es).0.settled && t.seconds <= 0.0
    requires InOrder(es + [Tick(now)])
    ensures Step(t, Run(t, es).0, Tick(now)).0.settled <==> Described(t, es, now)
  {
    hide Alike, Restarts, Quiet, Run, Before;
    var w := Run(t, es).0;
    RunStands(t, es);
    forall j | 0 <= j < |es| ensures es[j].now <= now {
      assert (es + [Tick(now)])[j] == es[j] && (es + [Tick(now)])[|es|] == Tick(now);
    }
    if w.baseline.Some? {
      var a: nat :| Anchors(t, es, w, a);
      var b := LastMoved(t, es, |es|, a);
      hide Moved;
      assert es[b].now + t.seconds <= now;
    }
  }

  /** Some frame is the last that moved. */
  lemma {:induction false} LastMoved(t: Terms, es: seq<Event>, n: nat, a: nat) returns (b: nat)
    requires ValidRun(es) && a < n <= |es| && es[a].Frame?
    requires forall j :: n <= j < |es| && es[j].Frame? ==> !Moved(t, es, j)
    ensures b < |es| && es[b].Frame? && Moved(t, es, b) && Still(t, es, b)
    decreases n
  {
    hide Alike;
    if es[n - 1].Frame? && Moved(t, es, n - 1) {
      b := n - 1;
    } else if n - 1 == a {
      b := LastMoved(t, es, a, Before(es, a).value);
    } else {
      b := LastMoved(t, es, n - 1, a);
    }
  }

  lemma SettlesByPrefix(t: Terms, before: seq<Event>, e: Event)
    requires ValidRun(before) && ValidEvent(e)
    ensures ValidRun(before + [e])
    ensures ShouldSettle(t, before + [e]) <==> ShouldSettle(t, before) || (e.Tick? && Described(t, before, e.now))
  {
    hide Described;
    var es := before + [e];
    Extended(before, e);
    forall k | 0 <= k < |before| ensures es[..k] == before[..k] && es[k] == before[k] {}
    assert es[..|before|] == before;
  }

  /** A run of the code settles exactly when it should. */
  ghost predicate Agrees(t: Terms, es: seq<Event>)
    requires ValidRun(es)
  {
    Run(t, es).0.settled <==> ShouldSettle(t, es)
  }

  lemma {:induction false} RunsAgree(t: Terms, es: seq<Event>)
    requires ValidRun(es) && (AllOrNothing(t) || (t.seconds <= 0.0 && InOrder(es)))
    ensures Agrees(t, es)
    decreases |es|
  {
    hide Described, AllOrNothing;
    if es != [] {
      var before, e := es[..|es| - 1], es[|es| - 1];
      assert before + [e] == es;
      RunsAgree(t, before);
      SettlesByPrefix(t, before, e);
      hide ShouldSettle;
      SettledOrNot(t, before, e);
      if !Run(t, before).0.settled && e.Tick? {
        if AllOrNothing(t) { TickAgrees(t, before, e.now); } else { TickAgreesAtOnce(t, before, e.now); }
      }
    }
  }

  lemma SettledOrNot(t: Terms, before: seq<Event>, e: Event)
    requires ValidRun(before) && ValidEvent(e)
    ensures ValidRun(before + [e]) && Run(t, before + [e]).0 == Step(t, Run(t, before).0, e).0
    ensures Run(t, before).0.settled ==> Run(t, before + [e]).0.settled
    ensures e.Frame? ==> Run(t, before + [e]).0.settled == Run(t, before).0.settled
  {
    hide Alike;
    RunExtends(t, before, e, []);
  }

  // ---------------------------------------------------------------- where they are not

  function Single(p: Pixel): (i: Image)
    ensures i.Valid()
  {
    Image(1, 1, [p])
  }

  lemma {:induction false} SumOfSame(values: seq<nat>, v: nat)
    requires forall k :: 0 <= k < |values| ==> values[k] == v
    ensures Sum(values) == |values| * v
    decreases |values|
  {
    if values != [] {
      SumOfSame(values[..|values| - 1], v);
      MulAdd(|values| - 1, 1, v);
    }
  }

  lemma MeanOfSame(values: seq<nat>, v: nat)
    requires values != [] && forall k :: 0 <= k < |values| ==> values[k] == v
    ensures RoundedMean(values) == v
  {
    SumOfSame(values, v);
    var n := |values|;
    assert 2 * (n * v) + n == v * (2 * n) + n;
    DivMod(2 * Sum(values) + n, 2 * n, v, n);
  }

  /** A blur leaves a single pixel as it is. */
  lemma BlurOfSingle(p: Pixel, blur: nat)
    ensures Blurred(Single(p), blur) == Single(p)
  {
    if blur > 0 {
      AverageOfSingle(p, blur, (x: Pixel) => x.r);
      AverageOfSingle(p, blur, (x: Pixel) => x.g);
      AverageOfSingle(p, blur, (x: Pixel) => x.b);
      hide Averaged;
      assert Blurred(Single(p), blur).pixels == [p];
    }
  }

  lemma AverageOfSingle(p: Pixel, blur: nat, channel: Pixel -> byte)
    ensures Averaged(Single(p), 0, blur, channel) == channel(p)
  {
    hide Window, RoundedMean;
    var image, w := Single(p), Window(1, 1, 0, blur);
    var values: seq<nat> := seq(|w|, k requires 0 <= k < |w| => channel(image.pixels[w[k]]) as nat);
    forall k | 0 <= k < |w| ensures values[k] == channel(p) { assert w[k] == 0; }
    MeanOfSame(values, channel(p));
  }

  lemma SinglesMatch(t: Terms, p: Pixel, q: Pixel)
    ensures Alike(t, Single(p), Single(q)) <==> Near(p, q, t.fuzz)
  {
    BlurOfSingle(p, t.blur);
    BlurOfSingle(q, t.blur);
    hide Near, Blurred;
    var a, b := Blurred(Single(p), t.blur).pixels, Blurred(Single(q), t.blur).pixels;
    assert a[0] == p && b[0] == q;
  }

  /** Three frames in the first part of a window's time, and a tick at its end. */
  function Three(t: Terms, x: Image, y: Image, z: Image): (es: seq<Event>)
    requires x.Valid() && y.Valid() && z.Valid()
    ensures ValidRun(es)
  {
    [Frame(0.0, x), Frame(t.seconds / 2.0, y), Frame(t.seconds * 3.0 / 4.0, z), Tick(t.seconds)]
  }

  lemma RunOfThree(t: Terms, x: Image, y: Image, z: Image)
    requires x.Valid() && y.Valid() && z.Valid() && t.seconds > 0.0 && Alike(t, y, x)
    ensures Run(t, Three(t, x, y, z)).0.settled == Alike(t, z, x)
  {
    hide Alike, Run, Step;
    var es := Three(t, x, y, z);
    var w := Watch(Some(x), Some(t.seconds), false);
    RunOfNone(t);
    RunExtends(t, [], es[0], []);
    RunExtends(t, [es[0]], es[1], []);
    RunExtends(t, [es[0], es[1]], es[2], []);
    RunExtends(t, [es[0], es[1], es[2]], es[3], []);
    assert [] + [es[0]] == [es[0]] && [es[0]] + [es[1]] == [es[0], es[1]] && [es[0], es[1]] + [es[2]]
           == [es[0], es[1], es[2]];
    assert [es[0], es[1], es[2]] + [es[3]] == es;
    FrameStep(t, NEW_WATCH, es[0]);
    FrameStep(t, w, es[1]);
    FrameStep(t, w, es[2]);
    TickStep(t, w, t.seconds);
    TickStep(t, Watch(Some(z), Some(t.seconds * 3.0 / 4.0 + t.seconds), false), t.seconds);
  }

  lemma RunOfNone(t: Terms)
    ensures Run(t, []) == (NEW_WATCH, [])
  {
  }

  lemma FrameStep(t: Terms, w: Watch, e: Event)
    requires ValidWatch(w) && ValidEvent(e) && e.Frame? && !w.settled
    ensures Step(t, w, e).0
            == if w.baseline.None? || !Alike(t, e.image, w.baseline.value)
               then Watch(Some(e.image), Some(e.now + t.seconds), false) else w
  {
    hide Alike;
  }

  lemma TickStep(t: Terms, w: Watch, now: real)
    requires ValidWatch(w) && w.deadline.Some? && !w.settled
    ensures Step(t, w, Tick(now)).0.settled <==> w.deadline.value <= now
  {
  }

  lemma DescribedOfThree(t: Terms, x: Image, y: Image, z: Image)
    requires x.Valid() && y.Valid() && z.Valid() && t.seconds > 0.0 && Alike(t, y, x)
    ensures InOrder(Three(t, x, y, z)) && ShouldSettle(t, Three(t, x, y, z)) == Alike(t, z, y)
  {
    hide Alike;
    var es := Three(t, x, y, z);
    var fs := es[..3];
    assert fs[0] == es[0] && fs[1] == es[1] && fs[2] == es[2];
    assert Before(fs, 0) == None && Before(fs, 1) == Some(0) && Before(fs, 2) == Some(1);
    assert Moved(t, fs, 0) && !Moved(t, fs, 1) && Moved(t, fs, 2) == !Alike(t, z, y);
    assert Still(t, fs, 0) == Alike(t, z, y);
    assert Described(t, fs, t.seconds) == Alike(t, z, y);
    assert es[3] == Tick(t.seconds);
  }

  /**
    Three frames, the second like the first: the code holds the last against the first, the description against the
    second.
   */
  lemma ThreeFrames(t: Terms, x: Image, y: Image, z: Image)
    requires x.Valid() && y.Valid() && z.Valid() && t.seconds > 0.0 && Alike(t, y, x)
    ensures var es := Three(t, x, y, z);
            InOrder(es) && Run(t, es).0.settled == Alike(t, z, x) && ShouldSettle(t, es) == Alike(t, z, y)
  {
    RunOfThree(t, x, y, z);
    DescribedOfThree(t, x, y, z);
    hide Alike, Run, ShouldSettle, InOrder;
  }

  /** For any other `fuzz`, and any blur, the code is wrong both ways: too late on one run, too early on another. */
  lemma CodeDiffers(t: Terms) returns (late: seq<Event>, early: seq<Event>)
    requires t.seconds > 0.0 && !AllOrNothing(t)
    ensures ValidRun(late) && InOrder(late) && !Run(t, late).0.settled && ShouldSettle(t, late)
    ensures ValidRun(early) && InOrder(early) && Run(t, early).0.settled && !ShouldSettle(t, early)
  {
    ClosenessAddsUpExactlyWhen(t.fuzz);
    var p, q, s :| Near(p, q, t.fuzz) && Near(q, s, t.fuzz) && !Near(p, s, t.fuzz);
    SinglesMatch(t, p, q);
    SinglesMatch(t, q, s);
    SinglesMatch(t, p, s);
    var x, y, z := Single(p), Single(q), Single(s);
    AlikeIsSymmetric(t, x, y);
    AlikeIsSymmetric(t, y, z);
    AlikeIsSymmetric(t, x, z);
    hide Alike, Run, ShouldSettle, Single, Three, Near;
    ThreeFrames(t, x, y, z);
    ThreeFrames(t, y, x, z);
    late, early := Three(t, x, y, z), Three(t, y, x, z);
  }

  /**
    `_StableWatch` keeps the window that is described, on every run in time order, exactly when no time need pass, only
    exact matches count as unchanged, or every image of the same size does.
   */
  lemma DescribedExactlyWhen(t: Terms)
    ensures (forall es: seq<Event> :: ValidRun(es) && InOrder(es) ==> Agrees(t, es))
            <==> t.seconds <= 0.0 || AllOrNothing(t)
  {
    hide AllOrNothing, Run, ShouldSettle, ValidRun, InOrder;
    if t.seconds <= 0.0 || AllOrNothing(t) {
      forall es: seq<Event> | ValidRun(es) && InOrder(es) ensures Agrees(t, es) { RunsAgree(t, es); }
    } else {
      var late, _ := CodeDiffers(t);
      assert !Agrees(t, late);
    }
  }

  function GreyRun(a: byte, b: byte, c: byte): (es: seq<Event>)
    ensures ValidRun(es)
  {
    [Frame(0.0, Single(Grey(a))), Frame(1.0, Single(Grey(b))), Frame(1.5, Single(Grey(c))), Tick(2.0)]
  }

  /** Two seconds and a fuzz of one: a grey that drifts up by one at a time, and one that drops before it rises. */
  lemma GreysDiffer()
    ensures var t := Terms(2.0, 1, 0);
            && !Run(t, GreyRun(0, 1, 2)).0.settled && ShouldSettle(t, GreyRun(0, 1, 2))
            && Run(t, GreyRun(1, 0, 2)).0.settled && !ShouldSettle(t, GreyRun(1, 0, 2))
  {
    var t := Terms(2.0, 1, 0);
    GreyDelta(0, 1);
    GreyDelta(1, 2);
    GreyDelta(0, 2);
    SinglesMatch(t, Grey(1), Grey(0));
    SinglesMatch(t, Grey(2), Grey(1));
    SinglesMatch(t, Grey(2), Grey(0));
    var x, y, z := Single(Grey(0)), Single(Grey(1)), Single(Grey(2));
    AlikeIsSymmetric(t, x, y);
    hide Alike, Run, ShouldSettle, Single, Near, Grey;
    assert GreyRun(0, 1, 2) == Three(t, x, y, z) && GreyRun(1, 0, 2) == Three(t, y, x, z);
    ThreeFrames(t, x, y, z);
    ThreeFrames(t, y, x, z);
  }
}
