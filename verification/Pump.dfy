/**
  The pump of vncdotool/rfb.py from ServerInit on: the parked handler, the drain loop, the framing of a
  FramebufferUpdate (section 7.6.1 of RFC 6143) and the abort that stops it for good.
 */
module Pump {
  import opened Bytes
  import opened CPixels
  import opened Generators
  import opened GeneratorFacts

  /** The handler `expect` parked, with what it will be called with. */
  datatype Handler =
    | ServerInit
    | ServerName(len: nat)
    | Connection
    | UpdateHeader
    | RectHeader
    | Suspended(gen: Gen)

  /** The parser's state, apart from the bytes it has not taken yet. */
  datatype Client = Client(
    handler: Handler, format: Format, announced: PixelFormat, shared: Shared,
    rectangles: nat, rectanglePos: seq<Rect>, aborted: bool)

  /** What the parser does to the outside, in order. */
  datatype Event =
    | Made
    | Begin(count: nat)
    | Dispatched(rect: Rect)
    | LastRect
    | Did(effect: Effect)
    | Pasted(rect: Rect, paste: Paste)
    | RectDone(rect: Rect, changed: bool)
    | MessageDone
    | Commit(rects: seq<Rect>)
    | Failed(why: Why)

  /** The libraries, and the format `vncConnectionMade` leaves the connection in. */
  datatype World = World(libs: Libraries, settle: PixelFormat -> Format)

  function NewClient(): Client {
    Client(ServerInit, PixelFormat(32, 24, false, true, 255, 255, 255, 0, 8, 16),
           PixelFormat(32, 24, false, true, 255, 255, 255, 0, 8, 16),
           Shared(0, 0, [], [[], [], [], []]), 0, [], false)
  }

  /** What a client between two blocks looks like; an aborted one is never called again. */
  predicate Sound(c: Client) {
    c.aborted || ((c.handler.Suspended? ==> Valid(c.format, c.handler.gen))
                  && (c.handler.RectHeader? ==> c.rectangles > 0))
  }

  predicate Live(c: Client) { Sound(c) && !c.aborted }

  /** `_expected_len`. */
  function Expected(c: Client): nat
    requires Live(c)
  {
    match c.handler
    case ServerInit => 24
    case ServerName(n) => n
    case Connection => 1
    case UpdateHeader => 3
    case RectHeader => 12
    case Suspended(g) => Want(c.format, g)
  }

  type Turn = (Client, seq<Event>)

  /** `abortConnection`. */
  function Abort(c: Client, why: Why): Turn { (c.(aborted := true), [Failed(why)]) }

  /** `_doConnection`. */
  function DoConnection(c: Client): Turn {
    if c.rectangles > 0 then (c.(handler := RectHeader), [])
    else (c.(handler := Connection), [Commit(c.rectanglePos)])
  }

  function Then(first: seq<Event>, turn: Turn): Turn { (turn.0, first + turn.1) }

  /** `_finishRectangle`. */
  function FinishRectangle(c: Client, rect: Rect, changed: bool, paste: Option<Paste>): Turn {
    if paste.Some? && !ExactPaste(rect, paste.value) then Abort(c, WrongPasteLength)
    else
      var pasted := if paste.Some? then [Pasted(rect, paste.value)] else [];
      var after := if changed then c.(rectanglePos := c.rectanglePos + [rect]) else c;
      Then(pasted + [RectDone(rect, changed)], DoConnection(after))
  }

  function Effects(effects: seq<Effect>): (es: seq<Event>)
    ensures |es| == |effects| && forall i :: 0 <= i < |es| ==> es[i] == Did(effects[i])
  {
    seq(|effects|, i requires 0 <= i < |effects| => Did(effects[i]))
  }

  /** `_pump` with what the generator did, for a rectangle. */
  function PumpRect(c: Client, rect: Rect, reply: Reply): Turn {
    var after := c.(shared := reply.shared);
    Then(Effects(reply.effects),
         match reply.action
         case Ask(g) => (after.(handler := Suspended(g)), [])
         case Raise(why) => Abort(after, why)
         case Finish(changed, paste) => FinishRectangle(after, rect, changed, paste))
  }

  /** `_pump` with what the generator did, for a message. */
  function PumpMessage(c: Client, reply: Reply): Turn {
    var after := c.(shared := reply.shared);
    Then(Effects(reply.effects),
         match reply.action
         case Ask(g) => (after.(handler := Suspended(g)), [])
         case Raise(why) => Abort(after, why)
         case Finish(_, _) => (after.(handler := Connection), [MessageDone]))
  }

  /** A signed 32-bit number. */
  function S32(b: seq<byte>): int
    requires |b| == 4
  {
    if U32(b) >= 0x8000_0000 then U32(b) - 0x1_0000_0000 else U32(b)
  }

  /** `_handleRectangle`. */
  function HandleRectangle(c: Client, block: seq<byte>): Turn
    requires |block| == 12
  {
    var rect := Rect(U16(block[..2]), U16(block[2..4]), U16(block[4..6]), U16(block[6..8]));
    var encoding := S32(block[8..12]);
    if encoding == LAST_RECT then Then([LastRect], DoConnection(c.(rectangles := 0)))
    else if c.rectangles > 0 then
      var after := c.(rectangles := c.rectangles - 1);
      Then([Dispatched(rect)], PumpRect(after, rect, Start(c.format, c.shared, encoding, rect)))
    else DoConnection(c)
  }

  /** The format structure of ServerInit, section 7.4 of RFC 6143. */
  function ReadFormat(b: seq<byte>): PixelFormat
    requires |b| == 16
  {
    PixelFormat(b[0], b[1], b[2] != 0, b[3] != 0, U16(b[4..6]), U16(b[6..8]), U16(b[8..10]), b[10], b[11], b[12])
  }

  /** A format that fits its structure. */
  predicate Packable(f: PixelFormat) {
    && f.bpp < 0x100 && f.depth < 0x100 && f.redmax < 0x1_0000 && f.greenmax < 0x1_0000 && f.bluemax < 0x1_0000
    && f.redshift < 0x100 && f.greenshift < 0x100 && f.blueshift < 0x100
  }

  /** `to_bytes`, with its three bytes of padding. */
  function FormatBytes(f: PixelFormat): (b: seq<byte>)
    requires Packable(f)
    ensures |b| == 16
  {
    [f.bpp, f.depth, if f.bigendian then 1 else 0, if f.truecolour then 1 else 0]
    + (Pack16(f.redmax) + (Pack16(f.greenmax) + (Pack16(f.bluemax) + [f.redshift, f.greenshift, f.blueshift, 0, 0, 0])))
  }

  /** A format written to the wire is the format read from it. */
  lemma FormatReadsBack(f: PixelFormat)
    requires Packable(f)
    ensures ReadFormat(FormatBytes(f)) == f
  {
    var b := FormatBytes(f);
    assert b[4..6] == Pack16(f.redmax) && b[6..8] == Pack16(f.greenmax) && b[8..10] == Pack16(f.bluemax);
  }

  /** The parked handler called with its block. */
  function Step(w: World, c: Client, block: seq<byte>): Turn
    requires Live(c) && |block| == Expected(c)
  {
    match c.handler
    case ServerInit =>
      var announced := ReadFormat(block[4..20]);
      (c.(handler := ServerName(U32(block[20..24])), announced := announced,
          shared := c.shared.(width := U16(block[..2]), height := U16(block[2..4]))), [])
    case ServerName(_) => (c.(handler := Connection, format := w.settle(c.announced)), [Made])
    case Connection =>
      if block[0] == 0 then (c.(handler := UpdateHeader), [])
      else PumpMessage(c, StartMessage(c.shared, block[0]))
    case UpdateHeader =>
      var count := U16(block[1..3]);
      Then([Begin(count)], DoConnection(c.(rectangles := count, rectanglePos := [])))
    case RectHeader => HandleRectangle(c, block)
    case Suspended(g) => PumpReply(c, g, Resume(w.libs, c.format, c.shared, g, block))
  }

  /** `_pump` with what a parked generator did. */
  function PumpReply(c: Client, g: Gen, reply: Reply): Turn {
    if IsMessage(g) then PumpMessage(c, reply) else PumpRect(c, RectOf(g), reply)
  }

  /** `_handleExpected`: handlers are called while their block is there. What is left is the new `_packet`. */
  function Drain(w: World, c: Client, packet: seq<byte>): (r: (Client, seq<byte>, seq<Event>))
    requires RgbImages(w.libs) && Sound(c)
    ensures AtRest(r.0, r.1)
    decreases |packet|, if !c.aborted && Expected(c) == 0 then 1 else 0
  {
    if c.aborted then (c, [], [])
    else if |packet| < Expected(c) then (c, packet, [])
    else
      var n := Expected(c);
      StepKeeps(w, c, packet[..n]);
      var turn := Step(w, c, packet[..n]);
      var rest := Drain(w, turn.0, packet[n..]);
      (rest.0, rest.1, turn.1 + rest.2)
  }

  /** No block is waiting to be handled. */
  predicate AtRest(c: Client, packet: seq<byte>) {
    Sound(c) && if c.aborted then packet == [] else |packet| < Expected(c)
  }

  // ---------------------------------------------------------------- every step keeps the parser sound

  /** A parser that is not done asks for something after it has asked for nothing. */
  predicate Hungry(c: Client)
    requires Sound(c)
  {
    c.aborted || Expected(c) > 0
  }

  lemma DoConnectionIsHungry(c: Client)
    ensures var d := DoConnection(c).0; Sound(d) && Hungry(d)
  {
  }

  lemma PumpRectKeeps(c: Client, rect: Rect, reply: Reply)
    requires InRect(c.format, rect, reply)
    ensures Sound(PumpRect(c, rect, reply).0)
    ensures AsksSomething(c.format, reply) ==> Hungry(PumpRect(c, rect, reply).0)
  {
    hide Valid, Want, ExactPaste;
  }

  lemma PumpMessageKeeps(c: Client, reply: Reply)
    requires reply.action.Ask? ==> Valid(c.format, reply.action.gen)
    ensures Sound(PumpMessage(c, reply).0)
    ensures AsksSomething(c.format, reply) ==> Hungry(PumpMessage(c, reply).0)
  {
    hide Valid, Want;
    var after := PumpMessage(c, reply).0;
    if reply.action.Ask? { assert after.format == c.format && after.handler == Suspended(reply.action.gen); }
  }

  lemma HandleRectangleKeeps(c: Client, block: seq<byte>)
    requires |block| == 12
    ensures Sound(HandleRectangle(c, block).0)
  {
    hide Start, PumpRect, Valid, Want;
    var rect := Rect(U16(block[..2]), U16(block[2..4]), U16(block[4..6]), U16(block[6..8]));
    if c.rectangles > 0 {
      StartStaysInRect(c.format, c.shared, S32(block[8..12]), rect);
      PumpRectKeeps(c.(rectangles := c.rectangles - 1), rect, Start(c.format, c.shared, S32(block[8..12]), rect));
    }
  }

  lemma SuspendedKeeps(w: World, c: Client, g: Gen, block: seq<byte>)
    requires RgbImages(w.libs) && Valid(c.format, g) && |block| == Want(c.format, g)
    ensures var turn := PumpReply(c, g, Resume(w.libs, c.format, c.shared, g, block));
            Sound(turn.0) && (block == [] ==> Hungry(turn.0))
  {
    hide Resume, Valid, Want, RgbImages, PumpRect, PumpMessage;
    var reply := Resume(w.libs, c.format, c.shared, g, block);
    if IsMessage(g) {
      MessageStays(w.libs, c.format, c.shared, g, block);
      PumpMessageKeeps(c, reply);
    } else {
      ResumeStaysInRect(w.libs, c.format, c.shared, g, block);
      PumpRectKeeps(c, RectOf(g), reply);
    }
  }

  /** Every call leaves a parser that can be called again, and no two calls in a row take nothing. */
  lemma StepKeeps(w: World, c: Client, block: seq<byte>)
    requires RgbImages(w.libs) && Live(c) && |block| == Expected(c)
    ensures Sound(Step(w, c, block).0)
    ensures block == [] ==> Hungry(Step(w, c, block).0)
  {
    hide Resume, Start, Valid, Want, RgbImages, ReadFormat, HandleRectangle, PumpReply, PumpMessage;
    match c.handler
    case ServerInit =>
    case ServerName(_) =>
    case Connection =>
      PumpMessageKeeps(c, StartMessage(c.shared, block[0])) by { ValidStart(c.format, c.shared, block[0]); }
    case UpdateHeader =>
    case RectHeader => HandleRectangleKeeps(c, block);
    case Suspended(g) => SuspendedKeeps(w, c, g, block);
  }

  lemma ValidStart(f: Format, s: Shared, message: nat)
    ensures var a := StartMessage(s, message).action; a.Ask? ==> Valid(f, a.gen) && IsMessage(a.gen)
  {
  }
}
