/**
  The main result about the pump: for every byte stream, in any packets, what a connection calls back is what
  plain recursive descent reads off the stream.
 */
module WholeStream {
  import opened Bytes
  import opened Generators
  import opened GeneratorFacts
  import opened Pump
  import opened Delivery
  import opened PlainParser
  import opened Refinement
  import opened BodyReading
  import opened Accounting
  import opened Grid
  import Tiles
  import ZrleRect
  import ZrleRoundTrip

  /** A connected client, waiting for a message. */
  predicate Waiting(c: Client) { !c.aborted && c.handler.Connection? }

  lemma {:induction false} ServerIsRead(w: World, c: Client, data: seq<byte>)
    requires RgbImages(w.libs) && Waiting(c)
    ensures Drain(w, c, data).2 == ReadServer(w, c.format, c.shared, data)
    decreases |data|, 0
  {
    hide Drain, RgbImages, ReadRects, ReadMessage, PumpMessage, StartMessage, DoConnection, Meaning;
    if data == [] {
      Starved(w, c, data);
    } else {
      var rest := data[1..];
      assert data[..1] == [data[0]];
      DrainStep(w, c, data);
      if data[0] == 0 {
        var header := c.(handler := UpdateHeader);
        BeforeNothing(Drain(w, header, rest));
        UpdateIsRead(w, header, rest);
        if |data| >= 4 { assert rest[1..3] == data[2..4] && rest[3..] == data[4..]; }
      } else {
        MessageIsCalled(w, c, data[0], rest);
      }
    }
  }

  lemma Starved(w: World, c: Client, data: seq<byte>)
    requires RgbImages(w.libs) && Live(c) && |data| < Expected(c)
    ensures Drain(w, c, data).2 == []
  {
    hide Step, Expected;
  }

  /** Everything after the first byte of an update. */
  lemma {:induction false} UpdateIsRead(w: World, c: Client, data: seq<byte>)
    requires RgbImages(w.libs) && !c.aborted && c.handler.UpdateHeader?
    ensures Drain(w, c, data).2
            == if |data| < 3 then []
               else [Begin(U16(data[1..3]))] + ReadRects(w, c.format, c.shared, U16(data[1..3]), [], data[3..])
    decreases |data|, 2
  {
    hide Drain, RgbImages, ReadRects, DoConnection;
    if |data| < 3 {
      Starved(w, c, data);
    } else {
      DrainStep(w, c, data);
      assert data[..3][1..3] == data[1..3];
      var after := c.(rectangles := U16(data[1..3]), rectanglePos := []);
      RectsAreRead(w, after, data[3..]);
      ConcatAssociates([Begin(U16(data[1..3]))], DoConnection(after).1, Drain(w, DoConnection(after).0, data[3..]).2);
    }
  }

  /** A message other than an update, and what follows it. */
  lemma {:induction false} MessageIsCalled(w: World, c: Client, message: nat, data: seq<byte>)
    requires RgbImages(w.libs) && Waiting(c)
    ensures var turn := PumpMessage(c, StartMessage(c.shared, message));
            Sound(turn.0)
            && Onward(w, turn, data)
               == match ReadMessage(c.shared, message, data)
                  case More => []
                  case Stop(why, _) => [Failed(why)]
                  case Done(_, _, effects, after, rest) =>
                    Effects(effects) + ([MessageDone] + ReadServer(w, c.format, after, rest))
    decreases |data|, 3
  {
    hide Drain, RgbImages, ReadMessage, PumpMessage, StartMessage, ReadServer, Drive, Onward;
    MessageIsRead(w.libs, c.format, c.shared, message, data);
    StartedMessage(c.format, c.shared, message);
    DriveIsPumped(w, c, None, StartMessage(c.shared, message), data);
    var body := ReadMessage(c.shared, message, data);
    if body.Done? {
      var after := c.(shared := body.shared);
      ServerIsRead(w, after, body.rest);
      LandedMessage(w, after, body.changed, body.paste, body.rest);
    }
  }

  lemma StartedMessage(f: Format, s: Shared, message: nat)
    ensures Belongs(f, None, StartMessage(s, message)) && Quiet(StartMessage(s, message))
  {
  }

  lemma LandedMessage(w: World, c: Client, changed: bool, paste: Option<Paste>, data: seq<byte>)
    requires RgbImages(w.libs) && Waiting(c)
    ensures var land := Land(c, None, changed, paste);
            Sound(land.0) && Onward(w, land, data) == [MessageDone] + Drain(w, c, data).2
  {
    assert c.(handler := Connection) == c;
    hide Drain, RgbImages;
  }

  /** The rectangles an update still owes, from `_doConnection` on. */
  lemma {:induction false} RectsAreRead(w: World, c: Client, data: seq<byte>)
    requires RgbImages(w.libs) && !c.aborted
    ensures Sound(DoConnection(c).0)
    ensures Onward(w, DoConnection(c), data) == ReadRects(w, c.format, c.shared, c.rectangles, c.rectanglePos, data)
    decreases |data|, 1
  {
    hide Drain, RgbImages, ReadServer, ReadBody, HandleRectangle, ReadFormat;
    if c.rectangles == 0 {
      ServerIsRead(w, c.(handler := Connection), data);
    } else {
      var header := c.(handler := RectHeader);
      assert DoConnection(c) == (header, []) && Onward(w, (header, []), data) == Drain(w, header, data).2;
      if |data| < 12 {
        Starved(w, header, data);
      } else {
        DrainStep(w, header, data);
        HeaderIsRead(w, header, data);
      }
    }
  }

  function HeaderRect(data: seq<byte>): Rect
    requires |data| >= 12
  {
    Rect(U16(data[..2]), U16(data[2..4]), U16(data[4..6]), U16(data[6..8]))
  }

  lemma SameHeader(data: seq<byte>)
    requires |data| >= 12
    ensures var b := data[..12]; HeaderRect(b) == HeaderRect(data) && b[8..12] == data[8..12]
  {
    var b := data[..12];
    assert b[..2] == data[..2] && b[2..4] == data[2..4] && b[4..6] == data[4..6] && b[6..8] == data[6..8];
  }

  lemma {:induction false} HeaderIsRead(w: World, c: Client, data: seq<byte>)
    requires RgbImages(w.libs) && !c.aborted && c.handler.RectHeader? && c.rectangles > 0 && |data| >= 12
    ensures Sound(HandleRectangle(c, data[..12]).0)
    ensures Onward(w, HandleRectangle(c, data[..12]), data[12..])
            == ReadRects(w, c.format, c.shared, c.rectangles, c.rectanglePos, data)
    decreases |data|, 0
  {
    hide Drain, RgbImages, ReadServer, ReadBody, PumpRect, Start, S32, Onward;
    SameHeader(data);
    HandleRectangleKeeps(c, data[..12]);
    var rect, encoding := HeaderRect(data), S32(data[8..12]);
    if encoding == LAST_RECT {
      var after := c.(rectangles := 0);
      RectsAreRead(w, after, data[12..]);
      OnwardThen(w, [LastRect], DoConnection(after), data[12..]);
    } else {
      var after := c.(rectangles := c.rectangles - 1);
      RectIsRead(w, after, encoding, rect, data[12..]);
      OnwardThen(w, [Dispatched(rect)], PumpRect(after, rect, Start(c.format, c.shared, encoding, rect)), data[12..]);
    }
  }

  lemma OnwardThen(w: World, first: seq<Event>, turn: Turn, data: seq<byte>)
    requires RgbImages(w.libs) && Sound(turn.0)
    ensures Sound(Then(first, turn).0) && Onward(w, Then(first, turn), data) == first + Onward(w, turn, data)
  {
    hide Drain, RgbImages;
    ConcatAssociates(first, turn.1, Drain(w, turn.0, data).2);
  }

  /** One rectangle's body, and the rest of the update. */
  lemma {:induction false} RectIsRead(w: World, c: Client, encoding: int, rect: Rect, data: seq<byte>)
    requires RgbImages(w.libs) && !c.aborted
    ensures var turn := PumpRect(c, rect, Start(c.format, c.shared, encoding, rect));
            Sound(turn.0)
            && Onward(w, turn, data)
               == match ReadBody(w.libs, c.format, c.shared, encoding, rect, data)
                  case More => []
                  case Stop(why, _) => [Failed(why)]
                  case Done(some, paste, effects, after, rest) =>
                    Effects(effects)
                    + ((if paste.Some? then [Pasted(rect, paste.value)] else [])
                       + ([RectDone(rect, some)]
                          + ReadRects(w, c.format, after, c.rectangles,
                                      if some then c.rectanglePos + [rect] else c.rectanglePos, rest)))
    decreases |data|, 4
  {
    hide Drain, RgbImages, ReadBody, PumpRect, Start, ReadRects, Drive, Onward, Land;
    BodyIsRead(w.libs, c.format, c.shared, encoding, rect, data);
    StartStaysInRect(c.format, c.shared, encoding, rect);
    StartIsQuiet(c.format, c.shared, encoding, rect);
    DriveIsPumped(w, c, Some(rect), Start(c.format, c.shared, encoding, rect), data);
    var body := ReadBody(w.libs, c.format, c.shared, encoding, rect, data);
    if body.Done? {
      var done := c.(shared := body.shared);
      var after := if body.changed then done.(rectanglePos := done.rectanglePos + [rect]) else done;
      RectsAreRead(w, after, body.rest);
      LandedRect(w, done, rect, body.changed, body.paste, body.rest);
    }
  }

  lemma LandedRect(w: World, c: Client, rect: Rect, changed: bool, paste: Option<Paste>, data: seq<byte>)
    requires RgbImages(w.libs) && !c.aborted && Exact(Some(rect), paste)
    ensures var land := Land(c, Some(rect), changed, paste);
            var after := if changed then c.(rectanglePos := c.rectanglePos + [rect]) else c;
            Sound(land.0) && Sound(DoConnection(after).0)
            && Onward(w, land, data) == (if paste.Some? then [Pasted(rect, paste.value)] else [])
                                        + ([RectDone(rect, changed)] + Onward(w, DoConnection(after), data))
  {
    hide Drain, RgbImages, ExactPaste, DoConnection;
    LandForgetsHandler(c, Connection, Some(rect), changed, paste);
    var after := if changed then c.(rectanglePos := c.rectanglePos + [rect]) else c;
    var pasted := if paste.Some? then [Pasted(rect, paste.value)] else [];
    DoConnectionIsHungry(after);
    OnwardThen(w, pasted + [RectDone(rect, changed)], DoConnection(after), data);
    ConcatAssociates(pasted, [RectDone(rect, changed)], Onward(w, DoConnection(after), data));
  }

  // ---------------------------------------------------------------- a whole connection

  /** The callbacks of a connection, read off its stream from ServerInit on. */
  function ReadConnection(w: World, data: seq<byte>): seq<Event> {
    if |data| < 24 then []
    else
      var name := U32(data[20..24]);
      if |data| - 24 < name then []
      else
        var size := Shared(U16(data[..2]), U16(data[2..4]), [], [[], [], [], []]);
        [Made] + ReadServer(w, w.settle(ReadFormat(data[4..20])), size, data[24..][name..])
  }

  /** For any stream, in any packets, the pump calls back what a plain reader of the stream reads. */
  lemma PumpReadsTheStream(w: World, packets: seq<seq<byte>>)
    requires RgbImages(w.libs)
    ensures Callbacks(w, packets) == ReadConnection(w, Flatten(packets))
  {
    var c, data := NewClient(), Flatten(packets);
    hide Drain, RgbImages, ReadServer, ReadFormat, Deliver, Flatten;
    DeliverIsDrain(w, c, [], packets);
    assert [] + data == data;
    if |data| < 24 {
      Starved(w, c, data);
    } else {
      var block, rest := data[..24], data[24..];
      assert block[..2] == data[..2] && block[2..4] == data[2..4] && block[4..20] == data[4..20]
             && block[20..24] == data[20..24];
      DrainStep(w, c, data);
      var named := Step(w, c, block).0;
      var name := U32(data[20..24]);
      BeforeNothing(Drain(w, named, rest));
      if |rest| < name {
        Starved(w, named, rest);
      } else {
        DrainStep(w, named, rest);
        ServerIsRead(w, Step(w, named, rest[..name]).0, rest[name..]);
      }
    }
  }

  /** A ZRLE rectangle as a server sends it is pasted as its tiles describe it, and what follows it is read next. */
  lemma EncodedZrleIsPasted(libs: Libraries, f: Format, s: Shared, rect: Rect, tiles: seq<ZrleRoundTrip.Tile>,
                            block: seq<byte>, rest: seq<byte>, px: nat, py: nat)
    requires RequireFits(s, rect.w, rect.h) && px < rect.w && py < rect.h && |block| < 0x1_0000_0000
    requires ZrleRect.Describes(ZrleLayout(f), ShapeOf(rect, f), tiles)
    requires libs.inflate(s.zrle + [block]) == Some(ZrleRect.EncodeFrom(ZrleLayout(f), ShapeOf(rect, f), tiles, 0, 0))
    ensures var l, shape := ZrleLayout(f), ShapeOf(rect, f);
            var body := ReadBody(libs, f, s, ZRLE, rect, Pack32(|block|) + (block + rest));
            && Tiles.Complete(shape, ZrleRect.TILE, ZrleRect.Pictures(l, shape, tiles))
            && body.Done? && body.rest == rest && body.changed && body.paste.Some? && body.paste.value.format == f
            && |body.paste.value.pixels| == shape.Size()
            && Pixel(body.paste.value.pixels, shape, px, py)
               == Tiles.Described(shape, ZrleRect.TILE, ZrleRect.Pictures(l, shape, tiles), px, py)
  {
    hide ZrleRect.Describes, ZrleRect.EncodeFrom, ZrleRect.ReadTiles, ZrleRect.Pictures, Tiles.Complete,
         Tiles.Described, Pixel;
    var data := Pack32(|block|) + (block + rest);
    assert data[..4] == Pack32(|block|) && data[4..] == block + rest;
    assert (block + rest)[..|block|] == block && (block + rest)[|block|..] == rest;
    ZrleRect.RectReadsBack(ZrleLayout(f), ShapeOf(rect, f), tiles, px, py);
  }
}
