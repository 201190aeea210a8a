/** Every run of refreshes, paints, resizes and updates: the client's small state against the whole history. */
module RefreshRuns {
  import opened Bytes
  import opened Refresh

  lemma NothingInNoArea()
    ensures NO_AREA.Area() == {}
  {
  }

  lemma SinceExtends(h: History, x: Input, i: nat)
    requires i < |h|
    ensures Since(h + [x], i) == if x.Resize? then |h| else Since(h, i)
  {
    Prefix(h, x, |h|);
  }

  lemma SizeExtends(first: Size, h: History, x: Input)
    ensures SizeAfter(first, h + [x]) == if x.Resize? then x.size else SizeAfter(first, h)
  {
    Prefix(h, x, |h|);
  }

  lemma OutstandingExtends(first: Size, h: History, x: Input)
    ensures Outstanding(first, h + [x])
            == if x.Refresh? then Some(|h|) else if Fires(first, h + [x]) then None else Outstanding(first, h)
  {
    Prefix(h, x, |h|);
    hide Fires;
  }

  lemma FiresWhen(first: Size, h: History, x: Input)
    requires !x.Refresh?
    ensures Fires(first, h + [x])
            <==> (x.CommitUpdate? && x.rectangles != [] && HasScreen(h) && Outstanding(first, h).Some?
                  && var i := Outstanding(first, h).value; Satisfied(first, h, i) || AskedAgain(h, Since(h, i)))
  {
    Prefix(h, x, |h|);
    hide HasScreen, Satisfied, AskedAgain, Outstanding;
  }

  /** The mask is empty exactly when nothing more is owed. */
  lemma EmptyMask(first: Size, h: History, i: nat, m: Mask)
    requires i < |h| && h[i].Refresh? && MaskIs(first, h, i, m)
    ensures m.unpainted == {} <==> Satisfied(first, h, i)
  {
    NothingInNoArea();
    hide Covered, Collapsed, AskedAgain, Size.Area;
    if m.unpainted == {} && !h[i].incremental && !Collapsed(first, h, i) {
      forall p | p in SizeAfter(first, h).Area() ensures Covered(h, Since(h, i), p) {
        assert p !in m.unpainted;
      }
    }
  }

  lemma MaskAfterRefresh(first: Size, h: History, incremental: bool)
    ensures var k := h + [Refresh(incremental)];
            MaskIs(first, k, |h|, if incremental then Owed() else Awaiting(SizeAfter(first, h)))
  {
    NothingInNoArea();
    Prefix(h, Refresh(incremental), |h|);
    SizeExtends(first, h, Refresh(incremental));
    hide HasScreen, SizeAfter, Size.Area;
  }

  lemma MaskAfterPaint(first: Size, h: History, x: Input, i: nat, m: Mask)
    requires i < |h| && h[i].Refresh? && MaskIs(first, h, i, m)
    requires x.Paint? || (x.Copy? && HasScreen(h))
    ensures MaskIs(first, h + [x], i, PaintRect(m, x.box))
  {
    SinceExtends(h, x, i);
    SizeExtends(first, h, x);
    AskedExtends(h, x, Since(h, i));
    CollapsedExtends(first, h, x, i);
    Prefix(h, x, i);
    var from, k, painted := Since(h, i), h + [x], PaintRect(m, x.box);
    hide HasScreen, SizeAfter, Size.Area, AskedAgain, Collapsed, Covered, Since;
    if !h[i].incremental && !Collapsed(first, h, i) {
      forall p ensures p in painted.unpainted <==> p in SizeAfter(first, k).Area() && !Covered(k, from, p) {
        CoveredExtends(h, x, from, p);
      }
    }
  }

  /** An input that paints nothing and resizes nothing. */
  predicate Idle(h: History, x: Input) {
    || (x.Paint? && x.box.width * x.box.height == 0)
    || (x.Copy? && !HasScreen(h))
    || (x.CommitUpdate? && (x.rectangles == [] || !HasScreen(h)))
  }

  lemma NoArea(box: Box, p: Point)
    requires box.width * box.height == 0
    ensures !box.Covers(p)
  {
  }

  lemma CoveredUnchanged(h: History, x: Input, from: nat)
    requires from < |h| && (Idle(h, x) || x.CommitUpdate?)
    ensures forall p :: Covered(h + [x], from, p) == Covered(h, from, p)
  {
    forall p ensures Covered(h + [x], from, p) == Covered(h, from, p) {
      CoveredExtends(h, x, from, p);
      if x.Paint? { NoArea(x.box, p); }
    }
  }

  lemma MaskAfterIdle(first: Size, h: History, x: Input, i: nat, m: Mask)
    requires i < |h| && h[i].Refresh? && MaskIs(first, h, i, m) && Idle(h, x)
    ensures MaskIs(first, h + [x], i, m)
  {
    SinceExtends(h, x, i);
    SizeExtends(first, h, x);
    AskedExtends(h, x, Since(h, i));
    CollapsedExtends(first, h, x, i);
    Prefix(h, x, i);
    CoveredUnchanged(h, x, Since(h, i));
    hide HasScreen, SizeAfter, Size.Area, AskedAgain, Collapsed, Covered, Since;
  }

  lemma MaskAfterShortfall(first: Size, h: History, x: Input, i: nat, m: Mask)
    requires i < |h| && h[i].Refresh? && MaskIs(first, h, i, m)
    requires x.CommitUpdate? && x.rectangles != [] && HasScreen(h) && m.retries == 0 && m.unpainted != {}
    ensures MaskIs(first, h + [x], i, m.(retries := 1))
  {
    SinceExtends(h, x, i);
    SizeExtends(first, h, x);
    AskedExtends(h, x, Since(h, i));
    CollapsedExtends(first, h, x, i);
    Prefix(h, x, i);
    CoveredUnchanged(h, x, Since(h, i));
    hide HasScreen, SizeAfter, Size.Area, AskedAgain, Collapsed, Covered, Since;
  }

  lemma MaskAfterResize(first: Size, h: History, size: Size, i: nat, m: Mask)
    requires i < |h| && h[i].Refresh? && MaskIs(first, h, i, m)
    ensures MaskIs(first, h + [Resize(size)], i, if m.size != NO_AREA then Awaiting(size) else m)
  {
    NothingInNoArea();
    var x := Resize(size);
    SinceExtends(h, x, i);
    SizeExtends(first, h, x);
    CollapsedExtends(first, h, x, i);
    Prefix(h, x, i);
    hide HasScreen, SizeAfter, Size.Area, Collapsed, Since;
  }

  lemma RefreshesExtends(h: History, x: Input, i: nat)
    requires i <= |h|
    ensures Refreshes((h + [x])[..i]) == Refreshes(h[..i])
    ensures Refreshes(h + [x]) == Refreshes(h) + if x.Refresh? then 1 else 0
  {
    Prefix(h, x, i);
    Prefix(h, x, |h|);
  }

  /** Anything but a refresh and a commit keeps a refresh outstanding, and its mask right. */
  lemma DeferredExtends(first: Size, h: History, c: Client, x: Input)
    requires StateIs(first, h, c) && !x.Refresh? && !x.CommitUpdate?
    ensures DeferredIs(first, h + [x], Outstanding(first, h), Step(c, x).0)
  {
    var o := Outstanding(first, h);
    hide HasScreen, SizeAfter, Size.Area, MaskIs, Refreshes, PaintRect, Outstanding;
    if o.Some? {
      RefreshesExtends(h, x, o.value);
      match x
      case Paint(box) =>
        if box.width * box.height == 0 { MaskAfterIdle(first, h, x, o.value, c.fullscreen); }
        else { MaskAfterPaint(first, h, x, o.value, c.fullscreen); }
      case Copy(box) =>
        if c.screen { MaskAfterPaint(first, h, x, o.value, c.fullscreen); }
        else { MaskAfterIdle(first, h, x, o.value, c.fullscreen); }
      case Resize(size) => MaskAfterResize(first, h, size, o.value, c.fullscreen);
      case _ => assert false;
    } else {
      OwedUnpainted(x);
    }
  }

  lemma OwedUnpainted(x: Input)
    ensures (x.Paint? || x.Copy?) ==> PaintRect(Owed(), x.box) == Owed()
  {
    NothingInNoArea();
    if x.Paint? || x.Copy? { assert PaintRect(Owed(), x.box).unpainted == {}; }
  }

  lemma CommitExtends(first: Size, h: History, c: Client, rectangles: seq<Box>)
    requires StateIs(first, h, c)
    ensures var x := CommitUpdate(rectangles);
            DeferredIs(first, h + [x], if Fires(first, h + [x]) then None else Outstanding(first, h),
                       Commit(c, rectangles).0)
  {
    var x := CommitUpdate(rectangles);
    var o := Outstanding(first, h);
    FiresWhen(first, h, x);
    hide HasScreen, SizeAfter, Size.Area, Refreshes, Outstanding, Fires, AskedAgain, Since, MaskedIs, Satisfied,
         Collapsed;
    if o.Some? {
      RefreshesExtends(h, x, o.value);
      EmptyMask(first, h, o.value, c.fullscreen);
      hide MaskIs;
      if rectangles == [] || !c.screen {
        MaskAfterIdle(first, h, x, o.value, c.fullscreen);
      } else if c.fullscreen.unpainted != {} && c.fullscreen.retries == 0 {
        RetriesCount(first, h, o.value, c.fullscreen);
        MaskAfterShortfall(first, h, x, o.value, c.fullscreen);
      } else {
        RetriesCount(first, h, o.value, c.fullscreen);
      }
    }
  }

  lemma RetriesCount(first: Size, h: History, i: nat, m: Mask)
    requires i < |h| && h[i].Refresh? && MaskIs(first, h, i, m)
    ensures m.retries == if AskedAgain(h, Since(h, i)) then 1 else 0
  {
  }

  /** One step keeps the state the history's. */
  lemma StateExtends(first: Size, h: History, c: Client, x: Input)
    requires StateIs(first, h, c)
    ensures StateIs(first, h + [x], Step(c, x).0)
  {
    FieldsExtend(first, h, c, x);
    hide *;
    OutstandingExtends(first, h, x);
    match x
    case Refresh(incremental) => RefreshExtends(first, h, c, incremental);
    case CommitUpdate(rectangles) =>
      StepOfCommit(c, rectangles);
      CommitExtends(first, h, c, rectangles);
    case _ =>
      FiresWhen(first, h, x);
      DeferredExtends(first, h, c, x);
  }

  lemma StepOfCommit(c: Client, rectangles: seq<Box>)
    ensures Step(c, CommitUpdate(rectangles)).0 == Commit(c, rectangles).0
  {
    hide Commit;
  }

  /** All but the outstanding refresh. */
  lemma FieldsExtend(first: Size, h: History, c: Client, x: Input)
    requires StateIs(first, h, c)
    ensures DeferredIs(first, h + [x], Outstanding(first, h + [x]), Step(c, x).0)
            ==> StateIs(first, h + [x], Step(c, x).0)
  {
    ScreenExtends(h, x);
    SizeExtends(first, h, x);
    RefreshesExtends(h, x, |h|);
    hide HasScreen, SizeAfter, Size.Area, DeferredIs, Outstanding, Refreshes, PaintRect;
  }

  lemma RefreshExtends(first: Size, h: History, c: Client, incremental: bool)
    requires StateIs(first, h, c)
    ensures DeferredIs(first, h + [Refresh(incremental)], Some(|h|), Step(c, Refresh(incremental)).0)
  {
    MaskAfterRefresh(first, h, incremental);
    Prefix(h, Refresh(incremental), |h|);
    hide MaskIs;
  }

  /** After any history the client's few fields say what the history says. */
  lemma {:induction false} RunIs(first: Size, h: History)
    ensures StateIs(first, h, Run(NewClient(first), h).0)
    decreases |h|
  {
    hide Step, MaskIs, HasScreen;
    if h == [] {
      assert !HasScreen(h) by { ScreenOfNothing(); }
    } else {
      var before := h[..|h| - 1];
      assert h == before + [h[|h| - 1]];
      RunIs(first, before);
      StateExtends(first, before, Run(NewClient(first), before).0, h[|h| - 1]);
    }
  }

  lemma ScreenOfNothing()
    ensures !HasScreen([])
  {
  }

  // ---------------------------------------------------------------- what an update's end decides

  /** The pixels of the framebuffer as it is that nothing has painted since. */
  ghost function Unpainted(first: Size, h: History, from: nat): set<Point> {
    set p | p in SizeAfter(first, h).Area() && !Covered(h, from, p)
  }

  /** `commitUpdate` after any history: wait, ask again, warn, or answer. */
  lemma CommitDecides(first: Size, h: History, rectangles: seq<Box>)
    ensures var outs := Commit(Run(NewClient(first), h).0, rectangles).1;
            match Outstanding(first, h)
            case None => outs == []
            case Some(i) =>
              var from, answer := Since(h, i), Fired(Refreshes(h[..i]));
              outs == if rectangles == [] || !HasScreen(h) then [Asked(false, SizeAfter(first, h))]
                      else if Satisfied(first, h, i) then [answer]
                      else if AskedAgain(h, from) then [Warned(|Unpainted(first, h, from)|), answer]
                      else [Asked(false, SizeAfter(first, h))]
  {
    RunIs(first, h);
    var c := Run(NewClient(first), h).0;
    var o := Outstanding(first, h);
    hide HasScreen, SizeAfter, Size.Area, Refreshes, Outstanding, AskedAgain, Since, Collapsed, Covered, Run;
    if o.Some? {
      EmptyMask(first, h, o.value, c.fullscreen);
      RetriesCount(first, h, o.value, c.fullscreen);
      if !Satisfied(first, h, o.value) { assert c.fullscreen.unpainted == Unpainted(first, h, Since(h, o.value)); }
    }
  }

  /** While a refresh is outstanding, at most one update that counted has fallen short since. */
  lemma {:induction false} AskedAgainOnce(first: Size, h: History, j: nat, k: nat)
    requires Outstanding(first, h).Some?
    requires var from := Since(h, Outstanding(first, h).value);
             from < j < |h| && from < k < |h| && Counts(h, j) && Counts(h, k)
    ensures j == k
    decreases |h|
  {
    var x, before := h[|h| - 1], h[..|h| - 1];
    assert h == before + [x];
    OutstandingExtends(first, before, x);
    var i := Outstanding(first, h).value;
    assert !x.Refresh? && i < |before|;
    SinceExtends(before, x, i);
    FiresWhen(first, before, x);
    assert forall n: nat :: n < |before| ==> before[n] == h[n] && before[..n] == h[..n];
    assert forall n: nat :: n < |before| ==> Counts(before, n) == Counts(h, n);
    hide HasScreen, Satisfied, Outstanding, Fires;
    assert AskedAgain(before, Since(before, i)) ==> !Counts(h, |before|);
    if j < |before| && k < |before| { AskedAgainOnce(first, before, j, k); }
  }

  // ---------------------------------------------------------------- the requests sent

  /** What was put out after the first `k` inputs of a history. */
  function OutputsSince(c: Client, h: History, k: nat): seq<Output>
    requires k <= |h|
    decreases |h|
  {
    if |h| == k then [] else OutputsSince(c, h[..|h| - 1], k) + Step(Run(c, h[..|h| - 1]).0, h[|h| - 1]).1
  }

  lemma {:induction false} OutputsAddUp(c: Client, h: History, k: nat)
    requires k <= |h|
    ensures Run(c, h).1 == Run(c, h[..k]).1 + OutputsSince(c, h, k)
    decreases |h|
  {
    hide Step;
    if |h| == k {
      assert h[..k] == h;
    } else {
      var before := h[..|h| - 1];
      assert before[..k] == h[..k];
      OutputsAddUp(c, before, k);
    }
  }

  /** Updates since then that could not complete a refresh: no rectangles, or no screen yet. */
  function EmptyUpdates(h: History, from: nat): nat {
    if |h| <= from + 1 then 0
    else
      var before, x := h[..|h| - 1], h[|h| - 1];
      EmptyUpdates(before, from) + if x.CommitUpdate? && (x.rectangles == [] || !HasScreen(before)) then 1 else 0
  }

  /** Nothing but requests for the whole framebuffer, `n` of them. */
  predicate AskedTimes(outs: seq<Output>, size: Size, n: nat) {
    |outs| == n && forall k :: 0 <= k < n ==> outs[k] == Asked(false, size)
  }

  function Again(h: History, from: nat): nat { if AskedAgain(h, from) then 1 else 0 }

  /** All that has been put out since refresh `i`, or since the last resize, are these requests. */
  ghost predicate RequestsCounted(first: Size, h: History, i: nat)
    requires i < |h|
  {
    var from := Since(h, i);
    AskedTimes(OutputsSince(NewClient(first), h, from + 1), SizeAfter(first, h),
               EmptyUpdates(h, from) + Again(h, from))
  }

  /**
    While a refresh is outstanding, all that has been put out since it, or since the last resize, is one request for
    each update with no rectangles or no screen, and one more if an update that counted fell short.
   */
  lemma RequestsAreCounted(first: Size, h: History)
    requires Outstanding(first, h).Some?
    ensures var from := Since(h, Outstanding(first, h).value);
            AskedTimes(OutputsSince(NewClient(first), h, from + 1), SizeAfter(first, h),
                       EmptyUpdates(h, from) + Again(h, from))
  {
    RequestsCount(first, h);
    hide Outstanding, Since, AskedTimes, OutputsSince, SizeAfter, EmptyUpdates, Again;
  }

  lemma {:induction false} RequestsCount(first: Size, h: History)
    requires Outstanding(first, h).Some?
    ensures RequestsCounted(first, h, Outstanding(first, h).value)
    decreases |h|
  {
    var x, before := h[|h| - 1], h[..|h| - 1];
    assert h == before + [x];
    hide *;
    if x.Refresh? || x.Resize? {
      CountsFromNow(first, before, x);
    } else {
      StillOutstanding(first, before, x);
      RequestsCount(first, before);
      RequestCounted(first, before, x, Outstanding(first, h).value);
    }
  }

  function Requests(size: Size, n: nat): seq<Output> { seq(n, k => Asked(false, size)) }

  /** In a whole run: after what was put out up to the request or the last resize come just these requests. */
  lemma RequestsOfRun(first: Size, h: History, i: nat)
    requires Outstanding(first, h) == Some(i)
    ensures var from := Since(h, i);
            Run(NewClient(first), h).1
            == Run(NewClient(first), h[..from + 1]).1
               + Requests(SizeAfter(first, h), EmptyUpdates(h, from) + Again(h, from))
  {
    hide *;
    RequestsAreCounted(first, h);
    OutputsAddUp(NewClient(first), h, Since(h, i) + 1);
    RequestsAre(OutputsSince(NewClient(first), h, Since(h, i) + 1), SizeAfter(first, h),
                EmptyUpdates(h, Since(h, i)) + Again(h, Since(h, i)));
  }

  lemma RequestsAre(outs: seq<Output>, size: Size, n: nat)
    requires AskedTimes(outs, size, n)
    ensures outs == Requests(size, n)
  {
  }

  lemma CountsFromNow(first: Size, before: History, x: Input)
    requires (x.Refresh? || x.Resize?) && Outstanding(first, before + [x]).Some?
    ensures RequestsCounted(first, before + [x], Outstanding(first, before + [x]).value)
  {
    hide Outstanding, AskedAgain, SizeAfter, Fires;
    OutstandingExtends(first, before, x);
    NothingSince(before + [x], |before|);
  }

  lemma StillOutstanding(first: Size, before: History, x: Input)
    requires !x.Refresh? && Outstanding(first, before + [x]).Some?
    ensures Outstanding(first, before) == Outstanding(first, before + [x]) && !Fires(first, before + [x])
  {
    OutstandingExtends(first, before, x);
    hide Outstanding, Fires;
  }

  /** What one input that does not answer it adds to the requests of a refresh. */
  lemma RequestAdded(first: Size, before: History, x: Input, i: nat)
    requires Outstanding(first, before) == Some(i) && !x.Refresh? && !x.Resize? && !Fires(first, before + [x])
    ensures var from := Since(before, i);
            var told := Step(Run(NewClient(first), before).0, x).1;
            && AskedTimes(told, SizeAfter(first, before), |told|)
            && EmptyUpdates(before, from) + Again(before, from) + |told|
               == EmptyUpdates(before + [x], from) + Again(before + [x], from)
  {
    FiresWhen(first, before, x);
    AskedExtends(before, x, Since(before, i));
    OneMoreOutput(first, before, x, Since(before, i));
    if x.CommitUpdate? { CommitDecides(first, before, x.rectangles); }
    hide HasScreen, AskedAgain, Fires, Satisfied, Outstanding, Commit, Run, Since, SizeAfter, EmptyUpdates,
         OutputsSince;
  }

  lemma RequestCounted(first: Size, before: History, x: Input, i: nat)
    requires Outstanding(first, before) == Some(i) && !x.Refresh? && !x.Resize? && !Fires(first, before + [x])
    requires RequestsCounted(first, before, i)
    ensures RequestsCounted(first, before + [x], i)
  {
    hide Outstanding, Fires, Since, SizeAfter, OutputsSince, EmptyUpdates, Again, AskedTimes, Run, Step;
    RequestAdded(first, before, x, i);
    SinceExtends(before, x, i);
    SizeExtends(first, before, x);
    var from, c := Since(before, i), NewClient(first);
    OneMoreOutput(first, before, x, from);
    var told := Step(Run(c, before).0, x).1;
    AskedJoins(OutputsSince(c, before, from + 1), told, SizeAfter(first, before),
               EmptyUpdates(before, from) + Again(before, from), |told|);
  }

  lemma AskedJoins(a: seq<Output>, b: seq<Output>, size: Size, n: nat, m: nat)
    requires AskedTimes(a, size, n) && AskedTimes(b, size, m)
    ensures AskedTimes(a + b, size, n + m)
  {
  }

  lemma NothingSince(h: History, from: nat)
    requires |h| == from + 1
    ensures !AskedAgain(h, from)
  {
  }

  lemma OneMoreOutput(first: Size, before: History, x: Input, from: nat)
    requires from < |before|
    ensures OutputsSince(NewClient(first), before + [x], from + 1)
            == OutputsSince(NewClient(first), before, from + 1) + Step(Run(NewClient(first), before).0, x).1
    ensures EmptyUpdates(before + [x], from)
            == EmptyUpdates(before, from) + if x.CommitUpdate? && (x.rectangles == [] || !HasScreen(before)) then 1
            else 0
  {
    Prefix(before, x, |before|);
    hide Step, Run, HasScreen;
  }

  /**
    A full refresh of a framebuffer that has not been 0x0 since it was asked for is answered without the warning
    exactly when every pixel of the current size has been painted since the request or the last resize; with the
    warning exactly when pixels are missing and the server has already been asked once more than the updates that
    could not complete it account for.
   */
  lemma AnswersWhenPainted(first: Size, h: History, i: nat, rectangles: seq<Box>)
    requires Outstanding(first, h) == Some(i) && !h[i].incremental && !Collapsed(first, h, i)
    requires rectangles != [] && HasScreen(h)
    ensures var outs := Commit(Run(NewClient(first), h).0, rectangles).1;
            var from, answer := Since(h, i), Fired(Refreshes(h[..i]));
            && (outs == [answer] <==> AllCovered(first, h, from))
            && (outs == [Warned(|Unpainted(first, h, from)|), answer]
                <==> !AllCovered(first, h, from)
                     && |OutputsSince(NewClient(first), h, from + 1)| == EmptyUpdates(h, from) + 1)
  {
    hide *;
    CommitDecides(first, h, rectangles);
    RequestsAreCounted(first, h);
    var from := Since(h, i);
    SatisfiedIs(first, h, i);
    AgainIs(h, from);
    AskedCount(OutputsSince(NewClient(first), h, from + 1), SizeAfter(first, h),
               EmptyUpdates(h, from) + Again(h, from));
    WhichAnswer(Commit(Run(NewClient(first), h).0, rectangles).1, AllCovered(first, h, from), AskedAgain(h, from),
                |Unpainted(first, h, from)|, Refreshes(h[..i]), SizeAfter(first, h));
  }

  lemma SatisfiedIs(first: Size, h: History, i: nat)
    requires i < |h| && h[i].Refresh? && !h[i].incremental && !Collapsed(first, h, i)
    ensures Satisfied(first, h, i) == AllCovered(first, h, Since(h, i))
  {
    hide Collapsed, AllCovered, Since;
  }

  lemma AgainIs(h: History, from: nat)
    ensures Again(h, from) == 1 <==> AskedAgain(h, from)
    ensures Again(h, from) <= 1
  {
    hide AskedAgain;
  }

  lemma AskedCount(outs: seq<Output>, size: Size, n: nat)
    requires AskedTimes(outs, size, n)
    ensures |outs| == n
  {
  }

  lemma WhichAnswer(outs: seq<Output>, painted: bool, again: bool, missing: nat, refresh: nat, size: Size)
    requires outs == if painted then [Fired(refresh)]
                     else if again then [Warned(missing), Fired(refresh)] else [Asked(false, size)]
    ensures outs == [Fired(refresh)] <==> painted
    ensures outs == [Warned(missing), Fired(refresh)] <==> !painted && again
  {
    assert outs[0] == if painted then Fired(refresh) else if again then Warned(missing) else Asked(false, size);
  }

  /** Otherwise nothing is waited for: the first update that counts answers it, whatever it painted. */
  lemma CollapsedIsAnsweredAtOnce(first: Size, h: History, i: nat, rectangles: seq<Box>)
    requires Outstanding(first, h) == Some(i) && Collapsed(first, h, i)
    requires rectangles != [] && HasScreen(h)
    ensures Commit(Run(NewClient(first), h).0, rectangles).1 == [Fired(Refreshes(h[..i]))]
  {
    CommitDecides(first, h, rectangles);
  }

  /** A framebuffer that was 0x0 for a moment: its refresh is answered with nothing of the new size painted. */
  lemma AnEmptyMomentLosesTheRefresh()
    ensures var h := [Refresh(false), Resize(NO_AREA), Resize(Size(2, 2))];
            && Commit(Run(NewClient(Size(4, 3)), h).0, [Box(0, 0, 1, 1)]).1 == [Fired(0)]
            && Outstanding(Size(4, 3), h) == Some(0) && Since(h, 0) == 2
            && Unpainted(Size(4, 3), h, 2) == Size(2, 2).Area() != {}
  {
    var first, h := Size(4, 3), [Refresh(false), Resize(NO_AREA), Resize(Size(2, 2))];
    var a, b := [Refresh(false)], [Refresh(false), Resize(NO_AREA)];
    assert a[..0] == [] && b[..1] == a && h[..2] == b && h[..0] == [];
    assert Outstanding(first, a) == Some(0) && Outstanding(first, b) == Some(0) && Outstanding(first, h) == Some(0);
    assert h[1] == Resize(NO_AREA) && h[2].Resize?;
    assert HasScreen(h) && Collapsed(first, h, 0);
    CollapsedIsAnsweredAtOnce(first, h, 0, [Box(0, 0, 1, 1)]);
    assert Refreshes([]) == 0;
    assert Point(0, 0) in Size(2, 2).Area();
  }

  // ---------------------------------------------------------------- every refresh is answered at most once

  /** Refreshes answered so far, each younger than the one before and older than what is outstanding. */
  ghost predicate InOrder(outs: seq<Output>, c: Client) {
    && (forall a, b :: 0 <= a < b < |outs| && outs[a].Fired? && outs[b].Fired? ==> outs[a].refresh < outs[b].refresh)
    && (forall a :: 0 <= a < |outs| && outs[a].Fired? ==> outs[a].refresh < c.made)
    && (c.deferred.Some? ==>
          c.deferred.value < c.made
          && forall a :: 0 <= a < |outs| && outs[a].Fired? ==> outs[a].refresh < c.deferred.value)
  }

  lemma StepInOrder(outs: seq<Output>, c: Client, x: Input)
    requires InOrder(outs, c)
    ensures InOrder(outs + Step(c, x).1, Step(c, x).0)
  {
    hide PaintRect, Size.Area;
  }

  /** Every refresh is called back at most once, and never after a later one. */
  lemma {:induction false} EachIsAnsweredOnce(first: Size, h: History)
    ensures var r := Run(NewClient(first), h); InOrder(r.1, r.0)
    decreases |h|
  {
    hide Step;
    if h != [] {
      var before := Run(NewClient(first), h[..|h| - 1]);
      EachIsAnsweredOnce(first, h[..|h| - 1]);
      StepInOrder(before.1, before.0, h[|h| - 1]);
    }
  }
}
