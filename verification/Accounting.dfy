/**
  Update accounting over whole runs of the pump: which sequences of callbacks any server stream can lead to.
 */
module Accounting {
  import opened Bytes
  import opened Generators
  import opened GeneratorFacts
  import opened Pump
  import opened Delivery
  import HM = HextileMachine

  /** Between two rectangles of an update, or inside one. */
  datatype Spot = Between | Open(rect: Rect) | Painted(rect: Rect)

  /** Where a run of callbacks has got to. */
  datatype Phase =
    | Starting
    | Idle
    | Updating(announced: nat, dispatched: nat, ended: bool, changed: seq<Rect>, spot: Spot)
    | Dead

  /** The callbacks an update may make next; None where the event cannot happen. */
  function Next(p: Phase, e: Event): Option<Phase> {
    match p
    case Starting => if e.Made? then Some(Idle) else None
    case Idle =>
      (match e
       case Begin(count) => Some(Updating(count, 0, false, [], Between))
       case Did(_) => Some(Idle)
       case MessageDone => Some(Idle)
       case Failed(why) => if why.WrongPasteLength? then None else Some(Dead)
       case _ => None)
    case Updating(announced, dispatched, ended, changed, spot) =>
      (match spot
       case Between =>
         if e.Commit? then
           if (ended || dispatched == announced) && e.rects == changed then Some(Idle) else None
         else if ended || dispatched == announced then None
         else if e.LastRect? then Some(p.(ended := true))
         else if e.Dispatched? then Some(p.(dispatched := dispatched + 1, spot := Open(e.rect)))
         else None
       case Open(rect) =>
         if e.Did? then Some(p)
         else if e.Pasted? && e.rect == rect && ExactPaste(rect, e.paste) then Some(p.(spot := Painted(rect)))
         else if e.RectDone? && e.rect == rect then Some(Finished(p, e.changed))
         else if e.Failed? && !e.why.WrongPasteLength? then Some(Dead)
         else None
       case Painted(rect) => if e.RectDone? && e.rect == rect then Some(Finished(p, e.changed)) else None)
    case Dead => None
  }

  function Finished(p: Phase, changed: bool): Phase
    requires p.Updating? && !p.spot.Between?
  {
    p.(spot := Between, changed := if changed then p.changed + [p.spot.rect] else p.changed)
  }

  function Follow(p: Phase, events: seq<Event>): Option<Phase>
    decreases |events|
  {
    if events == [] then Some(p)
    else match Next(p, events[0]) case None => None case Some(q) => Follow(q, events[1..])
  }

  lemma {:induction false} FollowConcat(p: Phase, a: seq<Event>, b: seq<Event>)
    requires Follow(p, a).Some?
    ensures Follow(p, a + b) == Follow(Follow(p, a).value, b)
    decreases |a|
  {
    hide Next;
    if a == [] {
      assert a + b == b;
    } else {
      assert (a + b)[0] == a[0] && (a + b)[1..] == a[1..] + b;
      FollowConcat(Next(p, a[0]).value, a[1..], b);
    }
  }

  /** The parser's state says where its callbacks have got to. */
  predicate Tracks(c: Client, p: Phase) {
    if c.aborted then p.Dead?
    else match c.handler
      case ServerInit => p.Starting?
      case ServerName(_) => p.Starting?
      case Connection => p.Idle?
      case UpdateHeader => p.Idle?
      case RectHeader => InUpdate(c, p, Between) && c.rectangles > 0
      case Suspended(g) => if IsMessage(g) then p.Idle? else InUpdate(c, p, Open(RectOf(g)))
  }

  /** In the middle of an update, with its remaining rectangles and what has changed so far. */
  predicate InUpdate(c: Client, p: Phase, spot: Spot) {
    && p.Updating? && !p.ended && p.dispatched + c.rectangles == p.announced && p.changed == c.rectanglePos
    && p.spot == spot
  }

  /** A turn's callbacks are possible, and its parser tracks them. */
  ghost predicate Accounts(p: Phase, turn: Turn) {
    Follow(p, turn.1).Some? && Tracks(turn.0, Follow(p, turn.1).value)
  }

  lemma {:induction false} FollowOne(p: Phase, e: Event)
    ensures Follow(p, [e]) == Next(p, e)
  {
    hide Next;
    assert [e][1..] == [];
  }

  lemma ThenAccounts(p: Phase, first: seq<Event>, turn: Turn)
    requires Follow(p, first).Some? && Accounts(Follow(p, first).value, turn)
    ensures Accounts(p, Then(first, turn))
  {
    hide Follow, Tracks;
    FollowConcat(p, first, turn.1);
  }

  lemma {:induction false} FollowEffects(p: Phase, effects: seq<Effect>)
    requires p.Idle? || (p.Updating? && p.spot.Open?)
    ensures Follow(p, Effects(effects)) == Some(p)
    decreases |effects|
  {
    if effects != [] {
      assert Effects(effects)[1..] == Effects(effects[1..]);
      FollowEffects(p, effects[1..]);
    }
  }

  /** After a rectangle, or at the start of an update, or after a LastRect. */
  lemma DoConnectionAccounts(c: Client, p: Phase)
    requires !c.aborted && p.Updating? && p.spot.Between? && p.changed == c.rectanglePos
    requires if p.ended then c.rectangles == 0 else p.dispatched + c.rectangles == p.announced
    ensures Accounts(p, DoConnection(c))
  {
    if c.rectangles == 0 { FollowOne(p, Commit(c.rectanglePos)); }
  }

  lemma AbortAccounts(c: Client, p: Phase, why: Why)
    requires p.Idle? || (p.Updating? && p.spot.Open?)
    requires !why.WrongPasteLength?
    ensures Accounts(p, Abort(c, why))
  {
    FollowOne(p, Failed(why));
  }

  lemma FinishAccounts(c: Client, p: Phase, rect: Rect, changed: bool, paste: Option<Paste>)
    requires !c.aborted && InUpdate(c, p, Open(rect))
    requires paste.Some? ==> ExactPaste(rect, paste.value)
    ensures Accounts(p, FinishRectangle(c, rect, changed, paste))
  {
    hide DoConnection, Tracks, ExactPaste;
    var pasted := if paste.Some? then [Pasted(rect, paste.value)] else [];
    var q := if paste.Some? then p.(spot := Painted(rect)) else p;
    if paste.Some? { FollowOne(p, Pasted(rect, paste.value)); }
    assert Follow(p, pasted) == Some(q);
    FollowOne(q, RectDone(rect, changed));
    FollowConcat(p, pasted, [RectDone(rect, changed)]);
    var after := if changed then c.(rectanglePos := c.rectanglePos + [rect]) else c;
    DoConnectionAccounts(after, Finished(q, changed));
    hide Follow;
    ThenAccounts(p, pasted + [RectDone(rect, changed)], DoConnection(after));
  }

  /** No decoder and no message handler blames the paste. */
  predicate Blameless(reply: Reply) { reply.action.Raise? ==> !reply.action.why.WrongPasteLength? }

  lemma PumpRectAccounts(c: Client, p: Phase, rect: Rect, reply: Reply)
    requires !c.aborted && InUpdate(c, p, Open(rect)) && InRect(c.format, rect, reply) && Blameless(reply)
    ensures Accounts(p, PumpRect(c, rect, reply))
  {
    hide Valid, ExactPaste, FinishRectangle, Follow;
    FollowEffects(p, reply.effects);
    var after := c.(shared := reply.shared);
    match reply.action
    case Ask(g) =>
      NothingFollows(p);
      ThenAccounts(p, Effects(reply.effects), (after.(handler := Suspended(g)), []));
    case Raise(why) =>
      AbortAccounts(after, p, why);
      ThenAccounts(p, Effects(reply.effects), Abort(after, why));
    case Finish(changed, paste) =>
      FinishAccounts(after, p, rect, changed, paste);
      ThenAccounts(p, Effects(reply.effects), FinishRectangle(after, rect, changed, paste));
  }

  lemma NothingFollows(p: Phase)
    ensures Follow(p, []) == Some(p)
  {
  }

  lemma PumpMessageAccounts(c: Client, p: Phase, reply: Reply)
    requires !c.aborted && p.Idle? && Blameless(reply)
    requires reply.action.Ask? ==> IsMessage(reply.action.gen)
    ensures Accounts(p, PumpMessage(c, reply))
  {
    hide Follow;
    FollowEffects(p, reply.effects);
    var after := c.(shared := reply.shared);
    match reply.action
    case Ask(g) =>
      NothingFollows(p);
      ThenAccounts(p, Effects(reply.effects), (after.(handler := Suspended(g)), []));
    case Raise(why) =>
      AbortAccounts(after, p, why);
      ThenAccounts(p, Effects(reply.effects), Abort(after, why));
    case Finish(_, _) =>
      FollowOne(p, MessageDone);
      ThenAccounts(p, Effects(reply.effects), (after.(handler := Connection), [MessageDone]));
  }

  lemma StartIsBlameless(f: Format, s: Shared, encoding: int, rect: Rect)
    ensures Blameless(Start(f, s, encoding, rect))
  {
    hide HM.Tile;
  }

  lemma ResumeIsBlameless(libs: Libraries, f: Format, s: Shared, g: Gen, block: seq<byte>)
    requires Valid(f, g) && |block| == Want(f, g)
    ensures Blameless(Resume(libs, f, s, g, block))
  {
  }

  lemma HandleRectangleAccounts(c: Client, p: Phase, block: seq<byte>)
    requires !c.aborted && c.handler.RectHeader? && Tracks(c, p) && |block| == 12
    ensures Accounts(p, HandleRectangle(c, block))
  {
    hide Start, PumpRect, Follow, DoConnection;
    var rect := Rect(U16(block[..2]), U16(block[2..4]), U16(block[4..6]), U16(block[6..8]));
    var encoding := S32(block[8..12]);
    if encoding == LAST_RECT {
      FollowOne(p, LastRect);
      DoConnectionAccounts(c.(rectangles := 0), p.(ended := true));
      ThenAccounts(p, [LastRect], DoConnection(c.(rectangles := 0)));
    } else {
      var after := c.(rectangles := c.rectangles - 1);
      var reply := Start(c.format, c.shared, encoding, rect);
      FollowOne(p, Dispatched(rect));
      StartStaysInRect(c.format, c.shared, encoding, rect);
      StartIsBlameless(c.format, c.shared, encoding, rect);
      PumpRectAccounts(after, p.(dispatched := p.dispatched + 1, spot := Open(rect)), rect, reply);
      ThenAccounts(p, [Dispatched(rect)], PumpRect(after, rect, reply));
    }
  }

  lemma SuspendedAccounts(w: World, c: Client, p: Phase, g: Gen, block: seq<byte>)
    requires RgbImages(w.libs) && !c.aborted && c.handler == Suspended(g) && Tracks(c, p)
    requires Valid(c.format, g) && |block| == Want(c.format, g)
    ensures Accounts(p, PumpReply(c, g, Resume(w.libs, c.format, c.shared, g, block)))
  {
    hide Resume, Valid, Want, RgbImages, PumpRect, PumpMessage, Accounts;
    var reply := Resume(w.libs, c.format, c.shared, g, block);
    ResumeIsBlameless(w.libs, c.format, c.shared, g, block);
    if IsMessage(g) {
      MessageStays(w.libs, c.format, c.shared, g, block);
      PumpMessageAccounts(c, p, reply);
    } else {
      ResumeStaysInRect(w.libs, c.format, c.shared, g, block);
      PumpRectAccounts(c, p, RectOf(g), reply);
    }
  }

  lemma StepAccounts(w: World, c: Client, p: Phase, block: seq<byte>)
    requires RgbImages(w.libs) && Live(c) && |block| == Expected(c) && Tracks(c, p)
    ensures Accounts(p, Step(w, c, block))
  {
    hide Resume, Start, Valid, Want, RgbImages, ReadFormat, HandleRectangle, PumpReply, PumpMessage, DoConnection,
         Follow;
    match c.handler
    case ServerInit => NothingFollows(p);
    case ServerName(_) => FollowOne(p, Made);
    case Connection =>
      if block[0] == 0 {
        NothingFollows(p);
      } else {
        ValidStart(c.format, c.shared, block[0]);
        PumpMessageAccounts(c, p, StartMessage(c.shared, block[0]));
      }
    case UpdateHeader =>
      var count := U16(block[1..3]);
      FollowOne(p, Begin(count));
      var after := c.(rectangles := count, rectanglePos := []);
      DoConnectionAccounts(after, Updating(count, 0, false, [], Between));
      ThenAccounts(p, [Begin(count)], DoConnection(after));
    case RectHeader => HandleRectangleAccounts(c, p, block);
    case Suspended(g) => SuspendedAccounts(w, c, p, g, block);
  }

  lemma {:induction false} DrainAccounts(w: World, c: Client, p: Phase, packet: seq<byte>)
    requires RgbImages(w.libs) && Sound(c) && Tracks(c, p)
    ensures var d := Drain(w, c, packet); Accounts(p, (d.0, d.2))
    decreases |packet|, if !c.aborted && Expected(c) == 0 then 1 else 0
  {
    hide Step, Expected, RgbImages, Sound, Tracks, Follow;
    if c.aborted || |packet| < Expected(c) {
      NothingFollows(p);
    } else {
      var n := Expected(c);
      StepKeeps(w, c, packet[..n]);
      var turn := Step(w, c, packet[..n]);
      StepAccounts(w, c, p, packet[..n]);
      var q := Follow(p, turn.1).value;
      DrainAccounts(w, turn.0, q, packet[n..]);
      var rest := Drain(w, turn.0, packet[n..]);
      ThenAccounts(p, turn.1, (rest.0, rest.2));
    }
  }

  // ---------------------------------------------------------------- what an accepted run says

  function Dispatches(events: seq<Event>): nat {
    if events == [] then 0 else (if events[0].Dispatched? then 1 else 0) + Dispatches(events[1..])
  }

  function Changed(events: seq<Event>): seq<Rect> {
    if events == [] then []
    else (if events[0].RectDone? && events[0].changed then [events[0].rect] else []) + Changed(events[1..])
  }

  /** The callbacks between a Begin and the Commit that ends its update. */
  lemma {:induction false} UpdateIsAccounted(p: Phase, body: seq<Event>)
    requires p.Updating? && Counted(p) && Follow(p, body).Some?
    requires forall e :: e in body ==> !e.Commit?
    ensures var q := Follow(p, body).value;
            !q.Dead? ==>
              && q.Updating? && q.announced == p.announced && Counted(q)
              && q.dispatched == p.dispatched + Dispatches(body)
              && q.changed == p.changed + Changed(body)
              && q.ended == (p.ended || LastRect in body)
    decreases |body|
  {
    if body != [] {
      UpdateStep(p, body[0]);
      assert Follow(p, body) == Follow(Next(p, body[0]).value, body[1..]);
      assert body == [body[0]] + body[1..] && forall e :: e in body[1..] ==> e in body;
      BodyAddsUp(body);
      hide Next, Counted, Follow, Dispatches, Changed;
      var q := Next(p, body[0]).value;
      if q.Dead? {
        DeadIsSilent(body[1..]);
      } else {
        UpdateIsAccounted(q, body[1..]);
        assert p.changed + Changed(body) == q.changed + Changed(body[1..]);
      }
    }
  }

  lemma UpdateStep(p: Phase, e: Event)
    requires p.Updating? && Counted(p) && !e.Commit? && Next(p, e).Some?
    ensures var q := Next(p, e).value;
            !q.Dead? ==>
              && q.Updating? && q.announced == p.announced && Counted(q)
              && q.dispatched == p.dispatched + Dispatches([e]) && q.changed == p.changed + Changed([e])
              && q.ended == (p.ended || e.LastRect?)
  {
    assert [e][1..] == [] && [e][0] == e;
  }

  lemma BodyAddsUp(body: seq<Event>)
    requires body != []
    ensures Dispatches(body) == Dispatches([body[0]]) + Dispatches(body[1..])
    ensures Changed(body) == Changed([body[0]]) + Changed(body[1..])
  {
    assert [body[0]][1..] == [];
  }

  predicate Counted(p: Phase)
    requires p.Updating?
  {
    p.dispatched <= p.announced && (p.ended ==> p.dispatched < p.announced)
  }

  lemma DeadIsSilent(events: seq<Event>)
    requires Follow(Dead, events).Some?
    ensures events == []
  {
  }

  lemma {:induction false} FollowPrefix(p: Phase, a: seq<Event>, b: seq<Event>)
    requires Follow(p, a + b).Some?
    ensures Follow(p, a).Some? && Follow(Follow(p, a).value, b) == Follow(p, a + b)
    decreases |a|
  {
    hide Next;
    if a == [] {
      assert a + b == b;
    } else {
      assert (a + b)[0] == a[0] && (a + b)[1..] == a[1..] + b;
      FollowPrefix(Next(p, a[0]).value, a[1..], b);
    }
  }

  /** Every run of callbacks is one the automaton allows, and the parser knows where it has got to. */
  lemma RunsAreAccounted(w: World, packets: seq<seq<byte>>)
    requires RgbImages(w.libs)
    ensures var d := Deliver(w, NewClient(), [], packets); Accounts(Starting, (d.0, d.2))
  {
    DeliverIsDrain(w, NewClient(), [], packets);
    DrainAccounts(w, NewClient(), Starting, [] + Flatten(packets));
  }

  /** What the parser has told the outside, over a whole connection. */
  function Callbacks(w: World, packets: seq<seq<byte>>): seq<Event>
    requires RgbImages(w.libs)
  {
    Deliver(w, NewClient(), [], packets).2
  }

  /**
    Any server stream in any packets: an update that commits dispatched exactly the rectangles it announced,
    or fewer and a LastRect, and commits exactly those that changed, in wire order.
   */
  lemma CommitsWhatChanged(w: World, packets: seq<seq<byte>>, pre: seq<Event>, count: nat, body: seq<Event>,
                           rects: seq<Rect>, post: seq<Event>)
    requires RgbImages(w.libs)
    requires Callbacks(w, packets) == pre + ([Begin(count)] + (body + ([Commit(rects)] + post)))
    requires forall e :: e in body ==> !e.Commit?
    ensures rects == Changed(body)
    ensures Dispatches(body) <= count && (Dispatches(body) == count <==> LastRect !in body)
  {
    RunsAreAccounted(w, packets);
    hide *;
    UpdateCommits(pre, count, body, rects, post);
  }

  /** The same of any callbacks the automaton accepts. */
  lemma UpdateCommits(pre: seq<Event>, count: nat, body: seq<Event>, rects: seq<Rect>, post: seq<Event>)
    requires Follow(Starting, pre + ([Begin(count)] + (body + ([Commit(rects)] + post)))).Some?
    requires forall e :: e in body ==> !e.Commit?
    ensures rects == Changed(body)
    ensures Dispatches(body) <= count && (Dispatches(body) == count <==> LastRect !in body)
  {
    FollowPrefix(Starting, pre, [Begin(count)] + (body + ([Commit(rects)] + post)));
    var idle, p := Follow(Starting, pre).value, Updating(count, 0, false, [], Between);
    FollowPrefix(idle, [Begin(count)], body + ([Commit(rects)] + post));
    FollowOne(idle, Begin(count));
    FollowPrefix(p, body, [Commit(rects)] + post);
    var q := Follow(p, body).value;
    FollowPrefix(q, [Commit(rects)], post);
    FollowOne(q, Commit(rects));
    UpdateIsAccounted(p, body);
    hide Follow, Dispatches, Changed;
    assert [] + Changed(body) == Changed(body);
  }

  /** An abort is the last thing anyone hears of a connection, and the length of a paste is never its reason. */
  lemma NothingAfterAbort(w: World, packets: seq<seq<byte>>, pre: seq<Event>, why: Why, post: seq<Event>)
    requires RgbImages(w.libs)
    requires Callbacks(w, packets) == pre + ([Failed(why)] + post)
    ensures post == [] && why != WrongPasteLength
    ensures Deliver(w, NewClient(), [], packets).0.aborted
  {
    RunsAreAccounted(w, packets);
    hide Deliver;
    FollowPrefix(Starting, pre, [Failed(why)] + post);
    var p := Follow(Starting, pre).value;
    FollowPrefix(p, [Failed(why)], post);
    FollowOne(p, Failed(why));
    DeadIsSilent(post);
  }

  /** Whatever is pasted, from any stream, is exactly its rectangle in its declared format. */
  lemma PastesAreExact(w: World, packets: seq<seq<byte>>, pre: seq<Event>, rect: Rect, paste: Paste, post: seq<Event>)
    requires RgbImages(w.libs)
    requires Callbacks(w, packets) == pre + ([Pasted(rect, paste)] + post)
    ensures ExactPaste(rect, paste)
  {
    RunsAreAccounted(w, packets);
    hide Deliver, ExactPaste, Tracks;
    FollowPrefix(Starting, pre, [Pasted(rect, paste)] + post);
    var p := Follow(Starting, pre).value;
    FollowPrefix(p, [Pasted(rect, paste)], post);
    FollowOne(p, Pasted(rect, paste));
  }
}
