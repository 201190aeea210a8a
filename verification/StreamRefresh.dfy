/**
  The pump's callbacks as the refresh machine hears them: `updateRectangle`, `copyRectangle`, `updateDesktopSize`
  and `commitUpdate` of vncdotool/client.py, called by vncdotool/rfb.py. What a refresh waits for is said of the
  server's own rectangles.
 */
module StreamRefresh {
  import opened Bytes
  import opened Generators
  import opened GeneratorFacts
  import opened Pump
  import opened Delivery
  import R = Refresh
  import RefreshRuns

  function BoxOf(rect: Rect): R.Box { R.Box(rect.x, rect.y, rect.w, rect.h) }

  function Boxes(rects: seq<Rect>): (bs: seq<R.Box>)
    ensures |bs| == |rects|
  {
    seq(|rects|, i requires 0 <= i < |rects| => BoxOf(rects[i]))
  }

  /** What one callback tells the refresh machine. */
  function Heard(e: Event): Option<R.Input> {
    match e
    case Pasted(rect, _) => Some(R.Paint(BoxOf(rect)))
    case Did(Copied(_, _, rect)) => Some(R.Copy(BoxOf(rect)))
    case Did(Resized(w, h)) => Some(R.Resize(R.Size(w, h)))
    case Commit(rects) => Some(R.CommitUpdate(Boxes(rects)))
    case _ => None
  }

  function Inputs(events: seq<Event>): R.History
    decreases |events|
  {
    if events == [] then []
    else
      var before := Inputs(events[..|events| - 1]);
      match Heard(events[|events| - 1]) case None => before case Some(x) => before + [x]
  }

  lemma {:induction false} InputsConcat(a: seq<Event>, b: seq<Event>)
    ensures Inputs(a + b) == Inputs(a) + Inputs(b)
    decreases |b|
  {
    hide Heard;
    if b == [] {
      assert a + b == a;
    } else {
      var last := |b| - 1;
      assert (a + b)[..|a + b| - 1] == a + b[..last] && (a + b)[|a + b| - 1] == b[last];
      InputsConcat(a, b[..last]);
    }
  }

  // ---------------------------------------------------------------- one framebuffer size

  function SizeOf(s: Shared): R.Size { R.Size(s.width, s.height) }

  lemma {:induction false} SizeConcat(first: R.Size, a: R.History, b: R.History)
    ensures R.SizeAfter(first, a + b) == R.SizeAfter(R.SizeAfter(first, a), b)
    decreases |b|
  {
    if b == [] {
      assert a + b == a;
    } else {
      var last := |b| - 1;
      assert (a + b)[..|a + b| - 1] == a + b[..last] && (a + b)[|a + b| - 1] == b[last];
      SizeConcat(first, a, b[..last]);
    }
  }

  /** The callbacks of a turn resize the framebuffer just as the turn does. */
  predicate Resizes(before: Shared, after: Shared, events: seq<Event>) {
    SizeOf(after) == R.SizeAfter(SizeOf(before), Inputs(events))
  }

  lemma ResizesThen(before: Shared, between: Shared, after: Shared, a: seq<Event>, b: seq<Event>)
    requires Resizes(before, between, a) && Resizes(between, after, b)
    ensures Resizes(before, after, a + b)
  {
    InputsConcat(a, b);
    SizeConcat(SizeOf(before), Inputs(a), Inputs(b));
    hide Inputs, R.SizeAfter;
  }

  /** A callback that is not a resize. */
  lemma {:induction false} NoResize(s: Shared, events: seq<Event>)
    requires forall k :: 0 <= k < |events| ==> !(events[k].Did? && events[k].effect.Resized?)
    ensures Resizes(s, s, events)
    decreases |events|
  {
    if events != [] {
      var last := |events| - 1;
      NoResize(s, events[..last]);
      if Heard(events[last]).Some? {
        RefreshRuns.SizeExtends(SizeOf(s), Inputs(events[..last]), Heard(events[last]).value);
      }
    }
  }

  predicate KeepsSize(before: Shared, reply: Reply) { Resizes(before, reply.shared, Effects(reply.effects)) }

  lemma QuietKeepsSize(s: Shared, reply: Reply)
    requires SizeOf(reply.shared) == SizeOf(s) && forall k :: 0 <= k < |reply.effects| ==> !reply.effects[k].Resized?
    ensures KeepsSize(s, reply)
  {
    NoResize(s, Effects(reply.effects));
  }

  lemma StartKeepsSize(f: Format, s: Shared, encoding: int, rect: Rect)
    ensures KeepsSize(s, Start(f, s, encoding, rect))
  {
    hide HexReply, KeepsSize;
    var reply := Start(f, s, encoding, rect);
    if encoding == DESKTOP_SIZE {
      ResizeKeepsSize(s, rect);
    } else {
      HexIsQuiet(f, s, rect);
      QuietKeepsSize(s, reply);
    }
  }

  lemma HexIsQuiet(f: Format, s: Shared, rect: Rect)
    ensures forall r :: HexReply(rect, f, r, s).effects == [] && HexReply(rect, f, r, s).shared == s
  {
  }

  lemma ResizeKeepsSize(s: Shared, rect: Rect)
    ensures KeepsSize(s, Reply(Finish(false, None), [Resized(rect.w, rect.h)], s.(width := rect.w, height := rect.h)))
  {
    var es := Effects([Resized(rect.w, rect.h)]);
    assert es[..0] == [] && es[0] == Did(Resized(rect.w, rect.h));
    assert Inputs(es) == [] + [R.Resize(R.Size(rect.w, rect.h))];
    RefreshRuns.SizeExtends(SizeOf(s), [], R.Resize(R.Size(rect.w, rect.h)));
  }

  lemma ResumeKeepsSize(libs: Libraries, f: Format, s: Shared, g: Gen, block: seq<byte>)
    requires Valid(f, g) && |block| == Want(f, g)
    ensures KeepsSize(s, Resume(libs, f, s, g, block))
  {
    hide KeepsSize;
    ResumeIsSmall(libs, f, s, g, block);
    QuietKeepsSize(s, Resume(libs, f, s, g, block));
  }

  lemma ResumeIsSmall(libs: Libraries, f: Format, s: Shared, g: Gen, block: seq<byte>)
    requires Valid(f, g) && |block| == Want(f, g)
    ensures var reply := Resume(libs, f, s, g, block);
            SizeOf(reply.shared) == SizeOf(s) && forall k :: 0 <= k < |reply.effects| ==> !reply.effects[k].Resized?
  {
  }

  lemma StartMessageKeepsSize(s: Shared, message: nat)
    ensures KeepsSize(s, StartMessage(s, message))
  {
    hide KeepsSize;
    QuietKeepsSize(s, StartMessage(s, message));
  }

  predicate TurnKeepsSize(before: Shared, turn: Turn) { Resizes(before, turn.0.shared, turn.1) }

  lemma DoConnectionKeepsSize(c: Client)
    ensures TurnKeepsSize(c.shared, DoConnection(c))
  {
    NoResize(c.shared, DoConnection(c).1);
  }

  lemma ThenKeepsSize(s: Shared, first: seq<Event>, between: Shared, turn: Turn)
    requires Resizes(s, between, first) && TurnKeepsSize(between, turn)
    ensures TurnKeepsSize(s, Then(first, turn))
  {
    ResizesThen(s, between, turn.0.shared, first, turn.1);
    hide Resizes;
  }

  lemma FinishKeepsSize(c: Client, rect: Rect, changed: bool, paste: Option<Paste>)
    ensures TurnKeepsSize(c.shared, FinishRectangle(c, rect, changed, paste))
  {
    hide ExactPaste, DoConnection, Resizes;
    var after := if changed then c.(rectanglePos := c.rectanglePos + [rect]) else c;
    var told := (if paste.Some? then [Pasted(rect, paste.value)] else []) + [RectDone(rect, changed)];
    NoResize(c.shared, [Failed(WrongPasteLength)]);
    NoResize(c.shared, told);
    DoConnectionKeepsSize(after);
    ThenKeepsSize(c.shared, told, c.shared, DoConnection(after));
  }

  lemma PumpRectKeepsSize(c: Client, rect: Rect, reply: Reply)
    requires KeepsSize(c.shared, reply)
    ensures TurnKeepsSize(c.shared, PumpRect(c, rect, reply))
  {
    hide FinishRectangle, Resizes;
    var after := c.(shared := reply.shared);
    NoResize(reply.shared, []);
    match reply.action
    case Ask(g) => ThenKeepsSize(c.shared, Effects(reply.effects), reply.shared, (after.(handler := Suspended(g)), []));
    case Raise(why) =>
      NoResize(reply.shared, [Failed(why)]);
      ThenKeepsSize(c.shared, Effects(reply.effects), reply.shared, Abort(after, why));
    case Finish(changed, paste) =>
      FinishKeepsSize(after, rect, changed, paste);
      ThenKeepsSize(c.shared, Effects(reply.effects), reply.shared, FinishRectangle(after, rect, changed, paste));
  }

  lemma PumpMessageKeepsSize(c: Client, reply: Reply)
    requires KeepsSize(c.shared, reply)
    ensures TurnKeepsSize(c.shared, PumpMessage(c, reply))
  {
    hide Resizes;
    var after := c.(shared := reply.shared);
    NoResize(reply.shared, []);
    match reply.action
    case Ask(g) => ThenKeepsSize(c.shared, Effects(reply.effects), reply.shared, (after.(handler := Suspended(g)), []));
    case Raise(why) =>
      NoResize(reply.shared, [Failed(why)]);
      ThenKeepsSize(c.shared, Effects(reply.effects), reply.shared, Abort(after, why));
    case Finish(_, _) =>
      NoResize(reply.shared, [MessageDone]);
      ThenKeepsSize(c.shared, Effects(reply.effects), reply.shared, (after.(handler := Connection), [MessageDone]));
  }

  lemma HandleRectangleKeepsSize(c: Client, block: seq<byte>)
    requires |block| == 12
    ensures TurnKeepsSize(c.shared, HandleRectangle(c, block))
  {
    hide Start, PumpRect, DoConnection, Resizes;
    var rect := Rect(U16(block[..2]), U16(block[2..4]), U16(block[4..6]), U16(block[6..8]));
    var encoding := S32(block[8..12]);
    NoResize(c.shared, [LastRect]);
    NoResize(c.shared, [Dispatched(rect)]);
    DoConnectionKeepsSize(c);
    DoConnectionKeepsSize(c.(rectangles := 0));
    ThenKeepsSize(c.shared, [LastRect], c.shared, DoConnection(c.(rectangles := 0)));
    if encoding != LAST_RECT && c.rectangles > 0 {
      var after, reply := c.(rectangles := c.rectangles - 1), Start(c.format, c.shared, encoding, rect);
      StartKeepsSize(c.format, c.shared, encoding, rect);
      PumpRectKeepsSize(after, rect, reply);
      ThenKeepsSize(c.shared, [Dispatched(rect)], c.shared, PumpRect(after, rect, reply));
    }
  }

  lemma StepKeepsSize(w: World, c: Client, block: seq<byte>)
    requires Live(c) && |block| == Expected(c) && !c.handler.ServerInit?
    ensures TurnKeepsSize(c.shared, Step(w, c, block)) && !Step(w, c, block).0.handler.ServerInit?
  {
    StepLeavesInit(w, c, block);
    hide Resume, Valid, Want, HandleRectangle, PumpRect, PumpMessage, DoConnection, StartMessage, Resizes;
    match c.handler
    case ServerName(_) => NoResize(c.shared, [Made]);
    case Connection =>
      NoResize(c.shared, []);
      StartMessageKeepsSize(c.shared, block[0]);
      PumpMessageKeepsSize(c, StartMessage(c.shared, block[0]));
    case UpdateHeader =>
      var count := U16(block[1..3]);
      NoResize(c.shared, [Begin(count)]);
      DoConnectionKeepsSize(c.(rectangles := count, rectanglePos := []));
      ThenKeepsSize(c.shared, [Begin(count)], c.shared, DoConnection(c.(rectangles := count, rectanglePos := [])));
    case RectHeader => HandleRectangleKeepsSize(c, block);
    case Suspended(g) =>
      ResumeKeepsSize(w.libs, c.format, c.shared, g, block);
      var reply := Resume(w.libs, c.format, c.shared, g, block);
      if IsMessage(g) { PumpMessageKeepsSize(c, reply); } else { PumpRectKeepsSize(c, RectOf(g), reply); }
  }

  lemma StepLeavesInit(w: World, c: Client, block: seq<byte>)
    requires Live(c) && |block| == Expected(c) && !c.handler.ServerInit?
    ensures !Step(w, c, block).0.handler.ServerInit?
  {
    hide Resume, Start, StartMessage, Valid, Want, ReadFormat, ExactPaste;
  }

  lemma {:induction false} DrainKeepsSize(w: World, c: Client, packet: seq<byte>)
    requires RgbImages(w.libs) && Sound(c) && !c.handler.ServerInit?
    ensures var d := Drain(w, c, packet); Resizes(c.shared, d.0.shared, d.2)
    decreases |packet|, if !c.aborted && Expected(c) == 0 then 1 else 0
  {
    hide Step, Expected, RgbImages, Sound, Resizes;
    if c.aborted || |packet| < Expected(c) {
      NoResize(c.shared, []);
    } else {
      var n := Expected(c);
      StepKeeps(w, c, packet[..n]);
      StepKeepsSize(w, c, packet[..n]);
      var turn := Step(w, c, packet[..n]);
      DrainKeepsSize(w, turn.0, packet[n..]);
      var rest := Drain(w, turn.0, packet[n..]);
      ResizesThen(c.shared, turn.0.shared, rest.0.shared, turn.1, rest.2);
    }
  }

  /** The size the pump checks rectangles against is always the one the refresh machine has heard of. */
  lemma SizesAgree(w: World, c: Client, packet: seq<byte>, packets: seq<seq<byte>>)
    requires RgbImages(w.libs) && AtRest(c, packet) && !c.handler.ServerInit?
    ensures var d := Deliver(w, c, packet, packets); SizeOf(d.0.shared) == R.SizeAfter(SizeOf(c.shared), Inputs(d.2))
  {
    DeliverIsDrain(w, c, packet, packets);
    DrainSound(c, packet);
    DrainKeepsSize(w, c, packet + Flatten(packets));
    hide Deliver, Drain, AtRest, RgbImages;
  }

  // ---------------------------------------------------------------- what the stream has painted

  /** There is a screen after these callbacks, if there was (`shown`) or they made one. */
  predicate ScreenBy(shown: bool, events: seq<Event>) {
    shown || exists k :: 0 <= k < |events| && MakesScreen(events[k])
  }

  predicate MakesScreen(e: Event) {
    (e.Pasted? && e.rect.w * e.rect.h > 0) || (e.Did? && e.effect.Resized?)
  }

  /** Some rectangle of the stream, pasted or copied since the last resize, covers `p`. */
  predicate CoveredBy(shown: bool, events: seq<Event>, p: R.Point)
    decreases |events|
  {
    if events == [] then false
    else
      var before := events[..|events| - 1];
      match events[|events| - 1]
      case Pasted(rect, _) => BoxOf(rect).Covers(p) || CoveredBy(shown, before, p)
      case Did(Copied(_, _, rect)) => (ScreenBy(shown, before) && BoxOf(rect).Covers(p)) || CoveredBy(shown, before, p)
      case Did(Resized(_, _)) => false
      case _ => CoveredBy(shown, before, p)
  }

  /** The history of a full refresh asked for after `h`, and the callbacks since. */
  function Asking(h: R.History, events: seq<Event>): (k: R.History)
    ensures |k| > |h| && k[|h|] == R.Refresh(false)
  {
    h + [R.Refresh(false)] + Inputs(events)
  }

  lemma AskingExtends(h: R.History, events: seq<Event>)
    requires events != []
    ensures var before := Asking(h, events[..|events| - 1]);
            Asking(h, events) == match Heard(events[|events| - 1]) case None => before case Some(x) => before + [x]
  {
    var before := Inputs(events[..|events| - 1]);
    var x := Heard(events[|events| - 1]);
    hide Heard;
    if x.Some? { assert h + [R.Refresh(false)] + (before + [x.value]) == h + [R.Refresh(false)] + before + [x.value]; }
  }

  lemma AskingNothing(h: R.History)
    ensures Asking(h, []) == h + [R.Refresh(false)]
  {
  }

  lemma {:induction false} ScreenIs(h: R.History, events: seq<Event>)
    ensures R.HasScreen(Asking(h, events)) <==> ScreenBy(R.HasScreen(h), events)
    decreases |events|
  {
    hide R.HasScreen, ScreenBy, Asking;
    if events == [] {
      AskingNothing(h);
      R.ScreenExtends(h, R.Refresh(false));
      ScreenByNothing(R.HasScreen(h));
    } else {
      var last, before := |events| - 1, events[..|events| - 1];
      ScreenIs(h, before);
      AskingExtends(h, events);
      if Heard(events[last]).Some? { R.ScreenExtends(Asking(h, before), Heard(events[last]).value); }
      ScreenByExtends(R.HasScreen(h), before, events[last]);
      assert before + [events[last]] == events;
    }
  }

  lemma ScreenByNothing(shown: bool)
    ensures ScreenBy(shown, []) == shown
  {
  }

  lemma ScreenByExtends(shown: bool, before: seq<Event>, e: Event)
    ensures ScreenBy(shown, before + [e]) <==> ScreenBy(shown, before) || MakesScreen(e)
  {
    var events := before + [e];
    assert events[|before|] == e && forall k :: 0 <= k < |before| ==> events[k] == before[k];
    hide MakesScreen;
  }

  lemma {:induction false} CoveredIs(h: R.History, events: seq<Event>, p: R.Point)
    ensures var k := Asking(h, events);
            R.Covered(k, R.Since(k, |h|), p) <==> CoveredBy(R.HasScreen(h), events, p)
    decreases |events|
  {
    hide R.HasScreen, ScreenBy, Asking, R.Covered, R.Since;
    if events == [] {
      AskingNothing(h);
      SinceNothing(h);
      NothingCoveredYet(h + [R.Refresh(false)], p);
    } else {
      var last, before := |events| - 1, events[..|events| - 1];
      CoveredIs(h, before, p);
      ScreenIs(h, before);
      AskingExtends(h, events);
      if Heard(events[last]).Some? { CoveredMore(Asking(h, before), |h|, Heard(events[last]).value, p); }
    }
  }

  lemma SinceNothing(h: R.History)
    ensures R.Since(h + [R.Refresh(false)], |h|) == |h|
  {
  }

  lemma CoveredMore(k: R.History, i: nat, x: R.Input, p: R.Point)
    requires i < |k|
    ensures R.Covered(k + [x], R.Since(k + [x], i), p)
            <==> match x
                 case Resize(_) => false
                 case Paint(box) => R.Covered(k, R.Since(k, i), p) || box.Covers(p)
                 case Copy(box) => R.Covered(k, R.Since(k, i), p) || (R.HasScreen(k) && box.Covers(p))
                 case _ => R.Covered(k, R.Since(k, i), p)
  {
    RefreshRuns.SinceExtends(k, x, i);
    hide R.HasScreen, R.Covered, R.Since;
    if x.Resize? { NothingCoveredYet(k + [x], p); } else { R.CoveredExtends(k, x, R.Since(k, i), p); }
  }

  lemma NothingCoveredYet(k: R.History, p: R.Point)
    requires k != []
    ensures !R.Covered(k, |k| - 1, p)
  {
  }

  lemma {:induction false} CollapsedIs(first: R.Size, h: R.History, events: seq<Event>)
    ensures R.Collapsed(first, Asking(h, events), |h|)
            <==> R.SizeAfter(first, h) == R.NO_AREA || Did(Resized(0, 0)) in events
    decreases |events|
  {
    hide Asking, R.SizeAfter;
    if events == [] {
      AskingNothing(h);
      CollapsedNothing(first, h);
    } else {
      hide R.Collapsed;
      var last, before := |events| - 1, events[..|events| - 1];
      CollapsedIs(first, h, before);
      AskingExtends(h, events);
      if Heard(events[last]).Some? { R.CollapsedExtends(first, Asking(h, before), Heard(events[last]).value, |h|); }
      assert before + [events[last]] == events;
    }
  }

  lemma CollapsedNothing(first: R.Size, h: R.History)
    ensures R.Collapsed(first, h + [R.Refresh(false)], |h|) <==> R.SizeAfter(first, h) == R.NO_AREA
  {
    assert (h + [R.Refresh(false)])[..|h|] == h;
    hide R.SizeAfter;
  }

  /** A refresh still to be answered when the update that ends `events` ends could be completed by it. */
  ghost predicate CouldComplete(first: R.Size, h: R.History, events: seq<Event>, rects: seq<Rect>) {
    && rects != [] && ScreenBy(R.HasScreen(h), events)
    && R.Outstanding(first, Asking(h, events)) == Some(|h|)
    && R.SizeAfter(first, h) != R.NO_AREA && Did(Resized(0, 0)) !in events
  }

  /** The stream's rectangles cover the whole of a framebuffer. */
  ghost predicate CoversAll(shown: bool, events: seq<Event>, size: R.Size) {
    forall p :: p in size.Area() ==> CoveredBy(shown, events, p)
  }

  /** A commit answers the refresh asked for after `h`, and does not warn. */
  ghost predicate Answers(first: R.Size, h: R.History, events: seq<Event>, rects: seq<Rect>) {
    R.Commit(R.Run(R.NewClient(first), Asking(h, events)).0, Boxes(rects)).1 == [R.Fired(R.Refreshes(h))]
  }

  lemma RefreshWaitsForRectangles(first: R.Size, h: R.History, events: seq<Event>, rects: seq<Rect>)
    requires CouldComplete(first, h, events, rects)
    ensures Answers(first, h, events, rects)
            <==> CoversAll(R.HasScreen(h), events, R.SizeAfter(first, Asking(h, events)))
  {
    var k := Asking(h, events);
    assert k[..|h|] == h;
    hide R.Outstanding, R.Commit, R.Run, R.HasScreen, ScreenBy, R.SizeAfter, R.Collapsed, R.Covered, R.Since, CoveredBy,
         R.Size.Area, R.Refreshes, RefreshRuns.EmptyUpdates, RefreshRuns.OutputsSince, RefreshRuns.Unpainted, Asking;
    ScreenIs(h, events);
    CollapsedIs(first, h, events);
    AllCoveredIs(first, h, events);
    RefreshRuns.AnswersWhenPainted(first, k, |h|, Boxes(rects));
    hide R.AllCovered;
  }

  lemma AllCoveredIs(first: R.Size, h: R.History, events: seq<Event>)
    ensures var k := Asking(h, events);
            R.AllCovered(first, k, R.Since(k, |h|))
            <==> CoversAll(R.HasScreen(h), events, R.SizeAfter(first, k))
  {
    var k := Asking(h, events);
    hide R.HasScreen, R.SizeAfter, R.Covered, R.Since, CoveredBy, R.Size.Area, Asking;
    forall p: R.Point ensures R.Covered(k, R.Since(k, |h|), p) == CoveredBy(R.HasScreen(h), events, p) {
      CoveredIs(h, events, p);
    }
    var area, from := R.SizeAfter(first, k).Area(), R.Since(k, |h|);
    if R.AllCovered(first, k, from) {
      forall p | p in area ensures CoveredBy(R.HasScreen(h), events, p) { assert R.Covered(k, from, p); }
    } else {
      var p :| p in area && !R.Covered(k, from, p);
      assert !CoveredBy(R.HasScreen(h), events, p);
    }
  }

  // ---------------------------------------------------------------- when the update ends

  /** A commit ends its turn, with the parser waiting for a message; and what is pasted has all its pixels. */
  predicate Orderly(turn: Turn) {
    && (forall k :: 0 <= k < |turn.1| && turn.1[k].Commit? ==> k == |turn.1| - 1 && Waits(turn.0))
    && forall k :: 0 <= k < |turn.1| && turn.1[k].Pasted? ==> ExactPaste(turn.1[k].rect, turn.1[k].paste)
  }

  predicate Waits(c: Client) { !c.aborted && c.handler.Connection? }

  lemma ThenOrderly(first: seq<Event>, turn: Turn)
    requires Orderly(turn) && forall k :: 0 <= k < |first| ==> !first[k].Commit?
    requires forall k :: 0 <= k < |first| && first[k].Pasted? ==> ExactPaste(first[k].rect, first[k].paste)
    ensures Orderly(Then(first, turn))
  {
    hide ExactPaste, Waits;
    var events := first + turn.1;
    assert forall k :: |first| <= k < |events| ==> events[k] == turn.1[k - |first|];
  }

  lemma FinishOrderly(c: Client, rect: Rect, changed: bool, paste: Option<Paste>)
    requires !c.aborted
    ensures Orderly(FinishRectangle(c, rect, changed, paste))
  {
    hide ExactPaste;
    if !(paste.Some? && !ExactPaste(rect, paste.value)) {
      var after := if changed then c.(rectanglePos := c.rectanglePos + [rect]) else c;
      var told := (if paste.Some? then [Pasted(rect, paste.value)] else []) + [RectDone(rect, changed)];
      assert Orderly(DoConnection(after));
      ThenOrderly(told, DoConnection(after));
    }
  }

  lemma ReplyOrderly(c: Client, g: Option<Rect>, reply: Reply)
    requires !c.aborted
    ensures Orderly(if g.Some? then PumpRect(c, g.value, reply) else PumpMessage(c, reply))
  {
    hide FinishRectangle, Orderly;
    var after, told := c.(shared := reply.shared), Effects(reply.effects);
    match reply.action
    case Ask(gen) =>
      NothingOrderly(after.(handler := Suspended(gen)));
      ThenOrderly(told, (after.(handler := Suspended(gen)), []));
    case Raise(why) =>
      OneOrderly(after.(aborted := true), Failed(why));
      ThenOrderly(told, Abort(after, why));
    case Finish(changed, paste) =>
      if g.Some? {
        FinishOrderly(after, g.value, changed, paste);
        ThenOrderly(told, FinishRectangle(after, g.value, changed, paste));
      } else {
        OneOrderly(after.(handler := Connection), MessageDone);
        ThenOrderly(told, (after.(handler := Connection), [MessageDone]));
      }
  }

  lemma NothingOrderly(c: Client)
    ensures Orderly((c, []))
  {
  }

  lemma OneOrderly(c: Client, e: Event)
    requires !e.Pasted? && (e.Commit? ==> Waits(c))
    ensures Orderly((c, [e]))
  {
  }

  lemma DoConnectionOrderly(c: Client)
    requires !c.aborted
    ensures Orderly(DoConnection(c))
  {
  }

  lemma HandleRectangleOrderly(c: Client, block: seq<byte>)
    requires |block| == 12 && !c.aborted
    ensures Orderly(HandleRectangle(c, block))
  {
    hide Start, PumpRect, DoConnection, Orderly;
    var rect := Rect(U16(block[..2]), U16(block[2..4]), U16(block[4..6]), U16(block[6..8]));
    var encoding := S32(block[8..12]);
    DoConnectionOrderly(c);
    if encoding == LAST_RECT {
      DoConnectionOrderly(c.(rectangles := 0));
      ThenOrderly([LastRect], DoConnection(c.(rectangles := 0)));
    } else if c.rectangles > 0 {
      var after, reply := c.(rectangles := c.rectangles - 1), Start(c.format, c.shared, encoding, rect);
      ReplyOrderly(after, Some(rect), reply);
      ThenOrderly([Dispatched(rect)], PumpRect(after, rect, reply));
    }
  }

  lemma StepOrderly(w: World, c: Client, block: seq<byte>)
    requires Live(c) && |block| == Expected(c)
    ensures Orderly(Step(w, c, block))
  {
    hide Resume, Valid, Want, HandleRectangle, PumpRect, PumpMessage, DoConnection, StartMessage, Orderly, ReadFormat;
    match c.handler
    case ServerInit => NothingOrderly(Step(w, c, block).0);
    case ServerName(_) => OneOrderly(Step(w, c, block).0, Made);
    case Connection =>
      NothingOrderly(c.(handler := UpdateHeader));
      ReplyOrderly(c, None, StartMessage(c.shared, block[0]));
    case UpdateHeader =>
      var after := c.(rectangles := U16(block[1..3]), rectanglePos := []);
      DoConnectionOrderly(after);
      ThenOrderly([Begin(U16(block[1..3]))], DoConnection(after));
    case RectHeader => HandleRectangleOrderly(c, block);
    case Suspended(g) =>
      ReplyOrderly(c, if IsMessage(g) then None else Some(RectOf(g)), Resume(w.libs, c.format, c.shared, g, block));
  }

  lemma WaitsForMore(w: World, c: Client)
    requires RgbImages(w.libs) && Waits(c)
    ensures Sound(c) && Drain(w, c, []) == (c, [], [])
  {
  }

  lemma {:induction false} PastesAreWhole(w: World, c: Client, packet: seq<byte>, k: nat)
    requires RgbImages(w.libs) && Sound(c)
    requires var events := Drain(w, c, packet).2; k < |events| && events[k].Pasted?
    ensures var e := Drain(w, c, packet).2[k]; ExactPaste(e.rect, e.paste)
    decreases |packet|, if !c.aborted && Expected(c) == 0 then 1 else 0
  {
    hide Step, Expected, RgbImages, Sound, ExactPaste;
    var n := Expected(c);
    StepKeeps(w, c, packet[..n]);
    StepOrderly(w, c, packet[..n]);
    var turn := Step(w, c, packet[..n]);
    if k >= |turn.1| { PastesAreWhole(w, turn.0, packet[n..], k - |turn.1|); }
  }

  /** The bytes after which an update ended: they give the callbacks up to its commit and no more. */
  lemma {:induction false} CommitIsReached(w: World, c: Client, packet: seq<byte>, k: nat) returns (m: nat)
    requires RgbImages(w.libs) && Sound(c)
    requires var events := Drain(w, c, packet).2; k < |events| && events[k].Commit?
    ensures m <= |packet| && Drain(w, c, packet[..m]).2 == Drain(w, c, packet).2[..k + 1]
    decreases |packet|, if !c.aborted && Expected(c) == 0 then 1 else 0
  {
    hide Step, Expected, RgbImages, Sound, Waits;
    var n := Expected(c);
    StepKeeps(w, c, packet[..n]);
    StepOrderly(w, c, packet[..n]);
    var turn := Step(w, c, packet[..n]);
    if k < |turn.1| {
      m := n;
      WaitsForMore(w, turn.0);
      assert packet[..n][..n] == packet[..n] && packet[..n][n..] == [];
    } else {
      var more := CommitIsReached(w, turn.0, packet[n..], k - |turn.1|);
      m := n + more;
      assert packet[..m][..n] == packet[..n] && packet[..m][n..] == packet[n..][..more];
      var rest := Drain(w, turn.0, packet[n..]).2;
      assert (turn.1 + rest)[..k + 1] == turn.1 + rest[..k - |turn.1| + 1];
    }
  }

  /** The refresh machine's framebuffer is the parser's. */
  lemma SameFramebuffer(w: World, c: Client, data: seq<byte>, first: R.Size, h: R.History, events: seq<Event>, e: Event)
    requires RgbImages(w.libs) && Sound(c) && !c.handler.ServerInit?
    requires SizeOf(c.shared) == R.SizeAfter(first, h) && Drain(w, c, data).2 == events + [e] && e.Commit?
    ensures SizeOf(Drain(w, c, data).0.shared) == R.SizeAfter(first, Asking(h, events))
  {
    DrainKeepsSize(w, c, data);
    InputsConcat(events, [e]);
    var told := Inputs([e]);
    assert [e][..0] == [] && told == [R.CommitUpdate(Boxes(e.rects))];
    RefreshRuns.SizeExtends(SizeOf(c.shared), Inputs(events), told[0]);
    RefreshRuns.SizeExtends(first, h, R.Refresh(false));
    SizeConcat(first, h + [R.Refresh(false)], Inputs(events));
    hide Drain, Inputs, R.SizeAfter, RgbImages, Sound;
  }

  /** Whatever is pasted has its rectangle's exact number of pixels. */
  predicate AllWhole(events: seq<Event>) {
    forall k :: 0 <= k < |events| && events[k].Pasted? ==> ExactPaste(events[k].rect, events[k].paste)
  }

  /** At the commit that ends `events`, `data` bytes into the stream. */
  lemma RefreshAtCommit(w: World, c: Client, data: seq<byte>, first: R.Size, h: R.History, events: seq<Event>, e: Event)
    requires RgbImages(w.libs) && Sound(c) && !c.handler.ServerInit?
    requires SizeOf(c.shared) == R.SizeAfter(first, h) && Drain(w, c, data).2 == events + [e]
    requires e.Commit? && CouldComplete(first, h, events, e.rects)
    ensures Answers(first, h, events, e.rects)
            <==> CoversAll(R.HasScreen(h), events, SizeOf(Drain(w, c, data).0.shared))
  {
    hide *;
    SameFramebuffer(w, c, data, first, h, events, e);
    RefreshWaitsForRectangles(first, h, events, e.rects);
  }

  lemma AllAreWhole(w: World, c: Client, data: seq<byte>)
    requires RgbImages(w.libs) && Sound(c)
    ensures AllWhole(Drain(w, c, data).2)
  {
    hide RgbImages, Sound, Drain, ExactPaste;
    var events := Drain(w, c, data).2;
    forall k | 0 <= k < |events| && events[k].Pasted? ensures ExactPaste(events[k].rect, events[k].paste) {
      PastesAreWhole(w, c, data, k);
    }
  }

  /** Somewhere in the bytes that are still to be handled. */
  lemma RefreshInStream(w: World, c: Client, stream: seq<byte>, first: R.Size, h: R.History, n: nat)
    returns (m: nat)
    requires RgbImages(w.libs) && Sound(c) && !c.handler.ServerInit? && SizeOf(c.shared) == R.SizeAfter(first, h)
    requires var events := Drain(w, c, stream).2;
             n < |events| && events[n].Commit? && CouldComplete(first, h, events[..n], events[n].rects)
    ensures m <= |stream| && Drain(w, c, stream[..m]).2 == Drain(w, c, stream).2[..n + 1]
    ensures AllWhole(Drain(w, c, stream[..m]).2)
    ensures var events := Drain(w, c, stream).2;
            Answers(first, h, events[..n], events[n].rects)
            <==> CoversAll(R.HasScreen(h), events[..n], SizeOf(Drain(w, c, stream[..m]).0.shared))
  {
    hide *;
    m := CommitIsReached(w, c, stream, n);
    var events := Drain(w, c, stream).2;
    assert events[..n + 1] == events[..n] + [events[n]];
    RefreshAtCommit(w, c, stream[..m], first, h, events[..n], events[n]);
    AllAreWhole(w, c, stream[..m]);
  }

  /**
    A full refresh asked for with the parser anywhere (`c`, `packet`) after any history `h` that has told of the
    framebuffer's size, and whatever the server then sends: an update that could complete it, ending `m` bytes on,
    does so without the warning exactly when the stream's own rectangles, pasted with all their pixels or copied since
    the request and the last resize, cover every pixel of the parser's framebuffer at that moment.
   */
  lemma RefreshWaitsForTheStream(w: World, c: Client, packet: seq<byte>, packets: seq<seq<byte>>, first: R.Size,
                                 h: R.History, n: nat)
    returns (m: nat)
    requires RgbImages(w.libs) && AtRest(c, packet) && !c.handler.ServerInit?
    requires SizeOf(c.shared) == R.SizeAfter(first, h)
    requires var events := Deliver(w, c, packet, packets).2;
             n < |events| && events[n].Commit? && CouldComplete(first, h, events[..n], events[n].rects)
    ensures m <= |packet + Flatten(packets)|
    ensures var events, at := Deliver(w, c, packet, packets).2, Drain(w, c, (packet + Flatten(packets))[..m]);
            && at.2 == events[..n + 1] && AllWhole(at.2)
            && (Answers(first, h, events[..n], events[n].rects)
                <==> CoversAll(R.HasScreen(h), events[..n], SizeOf(at.0.shared)))
  {
    hide *;
    DrainSound(c, packet);
    DeliverIsDrain(w, c, packet, packets);
    m := RefreshInStream(w, c, packet + Flatten(packets), first, h, n);
  }
}
