/** The pump, with its handlers parked between packets, does what reading the stream in one go does. */
module Refinement {
  import opened Bytes
  import opened Generators
  import opened GeneratorFacts
  import opened Pump
  import opened Delivery
  import opened PlainParser
  import HM = HextileMachine

  // ---------------------------------------------------------------- a generator given its blocks from a stream

  predicate CanRun(f: Format, reply: Reply) { reply.action.Ask? ==> Valid(f, reply.action.gen) }

  /** One resumption leaves something that can be resumed, of the same rectangle or message. */
  lemma ResumeRuns(libs: Libraries, f: Format, s: Shared, g: Gen, block: seq<byte>)
    requires RgbImages(libs) && Valid(f, g) && |block| == Want(f, g)
    ensures var reply := Resume(libs, f, s, g, block);
            && CanRun(f, reply) && (block == [] ==> AsksSomething(f, reply))
            && (reply.action.Ask? ==> IsMessage(reply.action.gen) == IsMessage(g)
                                      && (!IsMessage(g) ==> RectOf(reply.action.gen) == RectOf(g)))
  {
    hide Resume, Valid, Want, RgbImages;
    if IsMessage(g) { MessageStays(libs, f, s, g, block); } else { ResumeStaysInRect(libs, f, s, g, block); }
  }

  function Drive(libs: Libraries, f: Format, reply: Reply, data: seq<byte>): Body
    requires RgbImages(libs) && CanRun(f, reply)
    decreases |data|, if reply.action.Ask? && Want(f, reply.action.gen) == 0 then 1 else 0
  {
    match reply.action
    case Finish(changed, paste) => Done(changed, paste, reply.effects, reply.shared, data)
    case Raise(why) => Stop(why, reply.shared)
    case Ask(g) =>
      var n := Want(f, g);
      if |data| < n then More
      else
        ResumeRuns(libs, f, reply.shared, g, data[..n]);
        Drive(libs, f, Resume(libs, f, reply.shared, g, data[..n]), data[n..])
  }

  /** Nothing is called back before a decoder or message handler returns. */
  predicate Quiet(reply: Reply) { !reply.action.Finish? ==> reply.effects == [] }

  lemma ResumeIsQuiet(libs: Libraries, f: Format, s: Shared, g: Gen, block: seq<byte>)
    requires Valid(f, g) && |block| == Want(f, g)
    ensures Quiet(Resume(libs, f, s, g, block))
  {
  }

  lemma StartIsQuiet(f: Format, s: Shared, encoding: int, rect: Rect)
    ensures Quiet(Start(f, s, encoding, rect))
  {
    hide HM.Tile;
  }

  // ---------------------------------------------------------------- the pump drives it

  /** `_pump` for a rectangle, or for a message. */
  function PumpFor(c: Client, to: Option<Rect>, reply: Reply): Turn {
    match to case None => PumpMessage(c, reply) case Some(rect) => PumpRect(c, rect, reply)
  }

  /** Where a generator that returned leaves the pump. */
  function Land(c: Client, to: Option<Rect>, changed: bool, paste: Option<Paste>): Turn {
    match to
    case None => (c.(handler := Connection), [MessageDone])
    case Some(rect) => FinishRectangle(c, rect, changed, paste)
  }

  predicate Belongs(f: Format, to: Option<Rect>, reply: Reply) {
    match to
    case None => reply.action.Ask? ==> Valid(f, reply.action.gen) && IsMessage(reply.action.gen)
    case Some(rect) => InRect(f, rect, reply)
  }

  /** The callbacks of a turn and of all that `data` then leads to. */
  function Onward(w: World, turn: Turn, data: seq<byte>): seq<Event>
    requires RgbImages(w.libs) && Sound(turn.0)
  {
    turn.1 + Drain(w, turn.0, data).2
  }

  predicate Exact(to: Option<Rect>, paste: Option<Paste>) {
    to.Some? && paste.Some? ==> ExactPaste(to.value, paste.value)
  }

  lemma LandForgetsHandler(c: Client, h: Handler, to: Option<Rect>, changed: bool, paste: Option<Paste>)
    requires Exact(to, paste)
    ensures Land(c.(handler := h), to, changed, paste) == Land(c, to, changed, paste)
    ensures Sound(Land(c, to, changed, paste).0)
  {
    hide ExactPaste;
  }

  /** What a body makes the pump call back, once the rest of the stream is drained. */
  function Meaning(w: World, c: Client, to: Option<Rect>, body: Body): seq<Event>
    requires RgbImages(w.libs) && (body.Done? ==> Exact(to, body.paste))
  {
    match body
    case More => []
    case Stop(why, _) => [Failed(why)]
    case Done(changed, paste, effects, after, rest) =>
      LandForgetsHandler(c.(shared := after), Connection, to, changed, paste);
      Effects(effects) + Onward(w, Land(c.(shared := after), to, changed, paste), rest)
  }

  lemma MeaningForgetsHandler(w: World, c: Client, h: Handler, s: Shared, to: Option<Rect>, body: Body)
    requires RgbImages(w.libs) && (body.Done? ==> Exact(to, body.paste))
    ensures Meaning(w, c.(handler := h, shared := s), to, body) == Meaning(w, c, to, body)
  {
    hide Onward, Land, RgbImages;
    if body.Done? {
      LandForgetsHandler(c.(shared := body.shared), h, to, body.changed, body.paste);
      assert c.(handler := h, shared := s).(shared := body.shared) == c.(shared := body.shared).(handler := h);
    }
  }

  lemma PumpAsks(c: Client, to: Option<Rect>, reply: Reply)
    requires reply.action.Ask? && reply.effects == []
    ensures PumpFor(c, to, reply) == (c.(handler := Suspended(reply.action.gen), shared := reply.shared), [])
  {
    assert Effects([]) + [] == [];
  }

  lemma PumpRaises(c: Client, to: Option<Rect>, reply: Reply)
    requires reply.action.Raise? && reply.effects == []
    ensures PumpFor(c, to, reply).1 == [Failed(reply.action.why)] && PumpFor(c, to, reply).0.aborted
  {
  }

  lemma PumpFinishes(c: Client, to: Option<Rect>, reply: Reply)
    requires reply.action.Finish?
    ensures PumpFor(c, to, reply)
            == Then(Effects(reply.effects), Land(c.(shared := reply.shared), to, reply.action.changed,
                                                 reply.action.paste))
  {
    hide FinishRectangle;
  }

  lemma DriveIsPumped(w: World, c: Client, to: Option<Rect>, reply: Reply, data: seq<byte>)
    requires RgbImages(w.libs) && !c.aborted && Belongs(c.format, to, reply) && Quiet(reply)
    ensures var turn, body := PumpFor(c, to, reply), Drive(w.libs, c.format, reply, data);
            && Sound(turn.0) && (body.Done? ==> Exact(to, body.paste))
            && Onward(w, turn, data) == Meaning(w, c, to, body)
    decreases |data|, if reply.action.Ask? && Want(c.format, reply.action.gen) == 0 then 1 else 0
  {
    hide Resume, Valid, Want, RgbImages, ExactPaste, PumpFor, Land, FinishRectangle, Step, Drain;
    match reply.action
    case Finish(changed, paste) =>
      PumpFinishes(c, to, reply);
      var land := Land(c.(shared := reply.shared), to, changed, paste);
      LandForgetsHandler(c.(shared := reply.shared), Connection, to, changed, paste);
      var after := Drain(w, land.0, data).2;
      assert (Effects(reply.effects) + land.1) + after == Effects(reply.effects) + (land.1 + after);
    case Raise(why) =>
      PumpRaises(c, to, reply);
      AbortedDrain(w, PumpFor(c, to, reply).0, data);
    case Ask(g) =>
      PumpAsks(c, to, reply);
      var parked := PumpFor(c, to, reply).0;
      BeforeNothing(Drain(w, parked, data));
      AskIsPumped(w, c, to, reply, data);
  }

  lemma AbortedDrain(w: World, c: Client, data: seq<byte>)
    requires RgbImages(w.libs) && Sound(c) && c.aborted
    ensures Drain(w, c, data).2 == []
  {
  }

  lemma AskIsPumped(w: World, c: Client, to: Option<Rect>, reply: Reply, data: seq<byte>)
    requires RgbImages(w.libs) && !c.aborted && Belongs(c.format, to, reply) && Quiet(reply) && reply.action.Ask?
    ensures var parked, body := c.(handler := Suspended(reply.action.gen), shared := reply.shared),
                                Drive(w.libs, c.format, reply, data);
            && Sound(parked) && (body.Done? ==> Exact(to, body.paste))
            && Drain(w, parked, data).2 == Meaning(w, c, to, body)
    decreases |data|, if Want(c.format, reply.action.gen) == 0 then 1 else 0, 0
  {
    hide Resume, Valid, Want, RgbImages, ExactPaste, PumpFor, Land, FinishRectangle, Meaning;
    var g := reply.action.gen;
    var parked := c.(handler := Suspended(g), shared := reply.shared);
    var n := Want(c.format, g);
    if n <= |data| {
      var block, rest := data[..n], data[n..];
      var next := Resume(w.libs, c.format, reply.shared, g, block);
      DrainStep(w, parked, data);
      ResumeRuns(w.libs, c.format, reply.shared, g, block);
      ResumeIsQuiet(w.libs, c.format, reply.shared, g, block);
      ResumeBelongs(w.libs, c.format, reply.shared, g, to, block);
      StepPumps(w, parked, g, to, block);
      DriveIsPumped(w, parked, to, next, rest);
      MeaningForgetsHandler(w, c, Suspended(g), reply.shared, to, Drive(w.libs, c.format, next, rest));
    } else {
      CutShort(w, c, to);
    }
  }

  lemma CutShort(w: World, c: Client, to: Option<Rect>)
    requires RgbImages(w.libs)
    ensures Meaning(w, c, to, More) == []
  {
  }

  lemma ResumeBelongs(libs: Libraries, f: Format, s: Shared, g: Gen, to: Option<Rect>, block: seq<byte>)
    requires RgbImages(libs) && Valid(f, g) && |block| == Want(f, g)
    requires match to case None => IsMessage(g) case Some(rect) => !IsMessage(g) && RectOf(g) == rect
    ensures Belongs(f, to, Resume(libs, f, s, g, block))
  {
    hide Resume, Valid, Want, RgbImages, ExactPaste;
    if IsMessage(g) { MessageStays(libs, f, s, g, block); } else { ResumeStaysInRect(libs, f, s, g, block); }
  }

  lemma StepPumps(w: World, c: Client, g: Gen, to: Option<Rect>, block: seq<byte>)
    requires Live(c) && c.handler == Suspended(g) && |block| == Expected(c)
    requires match to case None => IsMessage(g) case Some(rect) => !IsMessage(g) && RectOf(g) == rect
    ensures Step(w, c, block) == PumpFor(c, to, Resume(w.libs, c.format, c.shared, g, block))
  {
    hide Resume, Valid, Want, PumpRect, PumpMessage;
  }
}
