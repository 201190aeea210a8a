/** `RFBClient` of vncdotool/rfb.py from ServerInit on, as an object its callbacks and handlers update. */
module RfbClient {
  import opened Bytes
  import opened CPixels
  import opened Generators
  import opened GeneratorFacts
  import opened Pump
  import opened Delivery

  class RFBClient {
    const world: World
    var packet: seq<byte>
    var expectedHandler: Handler
    var expectedLen: nat
    var pixelFormat: Format
    var announced: PixelFormat
    var shared: Shared
    var rectangles: nat
    var rectanglePos: seq<Rect>
    var aborted: bool
    var callbacks: seq<Event>

    /** The state as the model of the pump sees it. */
    ghost function Now(): Client
      reads this
    {
      Client(expectedHandler, pixelFormat, announced, shared, rectangles, rectanglePos, aborted)
    }

    /** The length `expect` stored belongs to the handler it parked. */
    ghost predicate Armed()
      reads this
    {
      Sound(Now()) && (!aborted ==> expectedLen == Expected(Now()))
    }

    ghost predicate Valid()
      reads this
    {
      RgbImages(world.libs) && Armed() && AtRest(Now(), packet)
    }

    /** The object after a turn of the model, with `queue` waiting and `log` already called back. */
    ghost predicate After(turn: Turn, queue: seq<byte>, log: seq<Event>)
      reads this
    {
      Now() == turn.0 && packet == (if turn.0.aborted then [] else queue) && callbacks == log + turn.1
    }

    constructor (world: World)
      requires RgbImages(world.libs)
      ensures this.world == world && Valid() && Now() == NewClient() && packet == [] && callbacks == []
    {
      this.world := world;
      packet, callbacks := [], [];
      expectedHandler, expectedLen := ServerInit, 24;
      pixelFormat := PixelFormat(32, 24, false, true, 255, 255, 255, 0, 8, 16);
      announced := PixelFormat(32, 24, false, true, 255, 255, 255, 0, 8, 16);
      shared := Shared(0, 0, [], [[], [], [], []]);
      rectangles, rectanglePos, aborted := 0, [], false;
    }

    /** `abortConnection`. */
    method AbortConnection(why: Why)
      modifies this
      ensures After(Abort(old(Now()), why), [], old(callbacks))
    {
      aborted := true;
      packet := [];
      callbacks := callbacks + [Failed(why)];
    }

    /** `expect`, called from inside the loop. */
    method Expect(handler: Handler, size: nat)
      modifies `expectedHandler, `expectedLen
      ensures expectedHandler == handler && expectedLen == size
    {
      expectedHandler, expectedLen := handler, size;
    }

    /** `_doConnection`. */
    method DoConnection()
      requires !aborted
      modifies this
      ensures Armed() && After(Pump.DoConnection(old(Now())), old(packet), old(callbacks))
    {
      if rectangles > 0 {
        Expect(RectHeader, 12);
      } else {
        callbacks := callbacks + [Commit(rectanglePos)];
        Expect(Connection, 1);
      }
    }

    /** `_finishRectangle`. */
    method FinishRectangle(rect: Rect, changed: bool, paste: Option<Paste>)
      requires !aborted
      modifies this
      ensures Armed() && After(Pump.FinishRectangle(old(Now()), rect, changed, paste), old(packet), old(callbacks))
    {
      if paste.Some? {
        if !ExactPaste(rect, paste.value) {
          AbortConnection(WrongPasteLength);
          return;
        }
        callbacks := callbacks + [Pasted(rect, paste.value)];
      }
      callbacks := callbacks + [RectDone(rect, changed)];
      if changed { rectanglePos := rectanglePos + [rect]; }
      DoConnection();
    }

    /** `_pump` with what a rectangle's generator did. */
    method PumpRectangle(rect: Rect, reply: Reply)
      requires !aborted && InRect(pixelFormat, rect, reply)
      modifies this
      ensures Armed() && After(PumpRect(old(Now()), rect, reply), old(packet), old(callbacks))
    {
      hide ExactPaste, Generators.Valid, Generators.Want;
      shared := reply.shared;
      callbacks := callbacks + Effects(reply.effects);
      match reply.action
      case Ask(g) => Expect(Suspended(g), Want(pixelFormat, g));
      case Raise(why) => AbortConnection(why);
      case Finish(changed, paste) => FinishRectangle(rect, changed, paste);
    }

    /** `_pump` with what a message handler did. */
    method PumpMessage(reply: Reply)
      requires !aborted && (reply.action.Ask? ==> Generators.Valid(pixelFormat, reply.action.gen))
      modifies this
      ensures Armed() && After(Pump.PumpMessage(old(Now()), reply), old(packet), old(callbacks))
    {
      hide Generators.Valid, Generators.Want;
      shared := reply.shared;
      callbacks := callbacks + Effects(reply.effects);
      match reply.action
      case Ask(g) => Expect(Suspended(g), Want(pixelFormat, g));
      case Raise(why) => AbortConnection(why);
      case Finish(_, _) =>
        callbacks := callbacks + [MessageDone];
        Expect(Connection, 1);
    }

    /** `_handleRectangle`. */
    method HandleRectangle(block: seq<byte>)
      requires !aborted && |block| == 12
      modifies this
      ensures Armed() && After(Pump.HandleRectangle(old(Now()), block), old(packet), old(callbacks))
    {
      hide Start, PumpRect, InRect;
      var rect := Rect(U16(block[..2]), U16(block[2..4]), U16(block[4..6]), U16(block[6..8]));
      var encoding := S32(block[8..12]);
      if encoding == LAST_RECT {
        callbacks := callbacks + [LastRect];
        rectangles := 0;
      }
      if rectangles > 0 {
        rectangles := rectangles - 1;
        callbacks := callbacks + [Dispatched(rect)];
        StartStaysInRect(pixelFormat, shared, encoding, rect);
        PumpRectangle(rect, Start(pixelFormat, shared, encoding, rect));
      } else {
        DoConnection();
      }
    }

    /** `_handleFramebufferUpdate`. */
    method HandleFramebufferUpdate(block: seq<byte>)
      requires !aborted && |block| == 3 && expectedHandler.UpdateHeader?
      modifies this
      ensures Armed() && After(Step(world, old(Now()), block), old(packet), old(callbacks))
    {
      rectangles, rectanglePos := U16(block[1..3]), [];
      callbacks := callbacks + [Begin(rectangles)];
      DoConnection();
    }

    /** `_handleConnection`. */
    method HandleConnection(block: seq<byte>)
      requires !aborted && |block| == 1 && expectedHandler.Connection?
      modifies this
      ensures Armed() && After(Step(world, old(Now()), block), old(packet), old(callbacks))
    {
      hide Pump.PumpMessage, StartMessage;
      if block[0] == 0 {
        Expect(UpdateHeader, 3);
      } else {
        ValidStart(pixelFormat, shared, block[0]);
        PumpMessage(StartMessage(shared, block[0]));
      }
    }

    /** `_handleServerInit`. */
    method HandleServerInit(block: seq<byte>)
      requires !aborted && |block| == 24 && expectedHandler.ServerInit?
      modifies this
      ensures Armed() && After(Step(world, old(Now()), block), old(packet), old(callbacks))
    {
      shared := shared.(width := U16(block[..2]), height := U16(block[2..4]));
      announced := ReadFormat(block[4..20]);
      Expect(ServerName(U32(block[20..24])), U32(block[20..24]));
    }

    /** `_handleServerName`. */
    method HandleServerName()
      requires !aborted && expectedHandler.ServerName?
      modifies this
      ensures Armed()
      ensures forall block :: |block| == Expected(old(Now())) ==>
                After(Step(world, old(Now()), block), old(packet), old(callbacks))
    {
      pixelFormat := world.settle(announced);
      callbacks := callbacks + [Made];
      Expect(Connection, 1);
    }

    /** The parked handler called with its block, already taken off the packet. */
    method CallHandler(block: seq<byte>)
      requires RgbImages(world.libs) && Live(Now()) && |block| == Expected(Now())
      modifies this
      ensures Armed() && After(Step(world, old(Now()), block), old(packet), old(callbacks))
    {
      hide Resume, Generators.Valid, Generators.Want, RgbImages, Pump.HandleRectangle, PumpRect, Pump.PumpMessage;
      match expectedHandler
      case ServerInit => HandleServerInit(block);
      case ServerName(_) => HandleServerName();
      case Connection => HandleConnection(block);
      case UpdateHeader => HandleFramebufferUpdate(block);
      case RectHeader => HandleRectangle(block);
      case Suspended(g) =>
        var reply := Resume(world.libs, pixelFormat, shared, g, block);
        if IsMessage(g) {
          MessageStays(world.libs, pixelFormat, shared, g, block);
          PumpMessage(reply);
        } else {
          ResumeStaysInRect(world.libs, pixelFormat, shared, g, block);
          PumpRectangle(RectOf(g), reply);
        }
    }

    /** `_handleExpected`: it always comes to an end, and is `Drain`. */
    method HandleExpected()
      requires RgbImages(world.libs) && Armed() && !aborted
      modifies this
      ensures Valid()
      ensures var d := Drain(world, old(Now()), old(packet));
              Now() == d.0 && packet == d.1 && callbacks == old(callbacks) + d.2
    {
      hide Step, Expected, RgbImages, Sound, Generators.Valid;
      ghost var done: seq<Event> := [];
      BeforeNothing(Drain(world, Now(), packet));
      while |packet| >= expectedLen && !aborted
        invariant Armed() && callbacks == old(callbacks) + done
        invariant aborted ==> packet == []
        invariant Drain(world, old(Now()), old(packet)) == Before(done, Drain(world, Now(), packet))
        decreases |packet|, if !aborted && expectedLen == 0 then 1 else 0
      {
        ghost var c, queue := Now(), packet;
        var block := packet[..expectedLen];
        packet := packet[expectedLen..];
        StepKeeps(world, c, block);
        DrainStep(world, c, queue);
        CallHandler(block);
        ghost var turn := Step(world, c, block);
        if turn.0.aborted { AbortedDrains(world, turn.0, queue[|block|..], packet); }
        BeforeTwice(done, turn.1, Drain(world, Now(), packet));
        done := done + turn.1;
      }
      RestingDrain(world, Now(), packet);
    }

    /** `dataReceived`. */
    method DataReceived(data: seq<byte>)
      requires Valid()
      modifies this
      ensures Valid()
      ensures var r := Receive(world, old(Now()), old(packet), data);
              Now() == r.0 && packet == r.1 && callbacks == old(callbacks) + r.2
    {
      if aborted { return; }
      packet := packet + data;
      HandleExpected();
    }
  }

  lemma AbortedDrains(w: World, c: Client, a: seq<byte>, b: seq<byte>)
    requires RgbImages(w.libs) && Sound(c) && c.aborted
    ensures Drain(w, c, a) == Drain(w, c, b)
  {
  }

  lemma RestingDrain(w: World, c: Client, packet: seq<byte>)
    requires RgbImages(w.libs) && Sound(c) && (if c.aborted then packet == [] else |packet| < Expected(c))
    ensures AtRest(c, packet) && Drain(w, c, packet) == (c, packet, [])
  {
    hide Step;
  }
}
