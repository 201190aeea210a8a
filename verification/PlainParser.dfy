/**
  The server's stream from the first message on, read by plain recursive descent over bytes that are all there:
  sections 7.6 and 7.7 of RFC 6143, with no suspended handler and no buffer.
 */
module PlainParser {
  import opened Bytes
  import opened Grid
  import opened CPixels
  import opened Tight
  import opened Generators
  import opened Pump
  import HM = HextileMachine
  import HextileTile
  import HextileRect
  import ZrleRect
  import ZrleDecoder

  /** The body of a rectangle or message: cut short, refused, or read with what comes after it. */
  datatype Body =
    | More
    | Stop(why: Why, after: Shared)
    | Done(changed: bool, paste: Option<Paste>, effects: seq<Effect>, shared: Shared, rest: seq<byte>)

  function Painted(pixels: seq<byte>, f: PixelFormat, s: Shared, rest: seq<byte>): Body {
    Done(true, Some(Paste(pixels, f)), [], s, rest)
  }

  function Told(effect: Effect, s: Shared, rest: seq<byte>): Body { Done(false, None, [effect], s, rest) }

  /** The body of a rectangle in an encoding the client decodes. */
  function ReadBody(libs: Libraries, f: Format, s: Shared, encoding: int, rect: Rect, data: seq<byte>): (b: Body)
    ensures b.Done? ==> |b.rest| <= |data|
  {
    if IsPixels(encoding) then
      if RequireFits(s, rect.w, rect.h) then ReadPixels(libs, f, s, encoding, rect, data) else Stop(DoesNotFit, s)
    else if encoding == COPY_RECT then ReadCopy(s, rect, data)
    else if encoding == CURSOR then ReadCursor(f, s, rect, data)
    else if encoding == DESKTOP_SIZE then Told(Resized(rect.w, rect.h), s.(width := rect.w, height := rect.h), data)
    else if encoding == POINTER_POS then Told(PointerAt(rect.x, rect.y), s, data)
    else if encoding == QEMU_KEYS then Told(ExtendedKeys, s, data)
    else Stop(UnknownEncoding(encoding), s)
  }

  predicate IsPixels(encoding: int) {
    || encoding == RAW || encoding == RRE || encoding == CORRE || encoding == HEXTILE || encoding == ZRLE
    || encoding == TIGHT
  }

  function ReadPixels(libs: Libraries, f: Format, s: Shared, encoding: int, rect: Rect, data: seq<byte>): (b: Body)
    requires IsPixels(encoding)
    ensures b.Done? ==> |b.rest| <= |data|
  {
    if encoding == RAW then ReadRaw(f, s, rect, data)
    else if encoding == HEXTILE then ReadHextile(f, s, rect, data)
    else if encoding == ZRLE then ReadZrle(libs, f, s, rect, data)
    else if encoding == TIGHT then ReadTight(libs, f, s, rect, data)
    else ReadRre(f, s, rect, encoding == CORRE, data)
  }

  function ReadRaw(f: Format, s: Shared, rect: Rect, data: seq<byte>): (b: Body)
    ensures b.Done? ==> |b.rest| <= |data|
  {
    var n := rect.w * rect.h * f.Bypp();
    if |data| < n then More else Painted(data[..n], f, s, data[n..])
  }

  function ReadCopy(s: Shared, rect: Rect, data: seq<byte>): (b: Body)
    ensures b.Done? ==> |b.rest| <= |data|
  {
    if |data| < 4 then More
    else
      var srcx, srcy := U16(data[..2]), U16(data[2..4]);
      if srcx + rect.w > s.width || srcy + rect.h > s.height then Stop(CopyOutside, s)
      else Done(true, None, [Copied(srcx, srcy, rect)], s, data[4..])
  }

  function ReadCursor(f: Format, s: Shared, rect: Rect, data: seq<byte>): (b: Body)
    ensures b.Done? ==> |b.rest| <= |data|
  {
    var size: nat := rect.w * rect.h * f.Bypp();
    var n: nat := size + ((rect.w + 7) / 8) * rect.h;
    if |data| < n then More else Done(true, None, [CursorSet(rect, data[..n][..size], data[..n][size..])], s, data[n..])
  }

  /** RRE and CoRRE: a background and a counted list of filled rectangles. */
  function ReadRre(f: Format, s: Shared, rect: Rect, corre: bool, data: seq<byte>): (b: Body)
    ensures b.Done? ==> |b.rest| <= |data|
  {
    var head := 4 + f.Bypp();
    if |data| < head then More
    else
      var shape, count := ShapeOf(rect, f), U32(data[..4]);
      var background := Fill(Zeros(shape.Size()), shape, 0, 0, rect.w, rect.h, data[4..head]);
      if count == 0 then Painted(background, f, s, data[head..])
      else if count > rect.w * rect.h then Stop(TooManySubrects, s)
      else
        var n := SubrectSize(f, corre) * count;
        if |data| - head < n then More
        else
          match RreFills(f, shape, corre, count, data[head..][..n], background)
          case None => Stop(SubrectOutside, s)
          case Some(pixels) => Painted(pixels, f, s, data[head..][n..])
  }

  function ReadHextile(f: Format, s: Shared, rect: Rect, data: seq<byte>): (b: Body)
    ensures b.Done? ==> |b.rest| <= |data|
  {
    var shape := ShapeOf(rect, f);
    HextileShrinks(shape, data);
    match HextileRect.ReadTiles(shape, 0, 0, HextileTile.NOTHING_CARRIED, data, Zeros(shape.Size()))
    case More => More
    case Bad(why) => Stop(BadHextile(why), s)
    case Done(pixels, rest) => Painted(pixels, f, s, rest)
  }

  lemma HextileShrinks(shape: Shape, data: seq<byte>)
    ensures var read := HextileRect.ReadTiles(shape, 0, 0, HextileTile.NOTHING_CARRIED, data, Zeros(shape.Size()));
            read.Done? ==> |read.rest| <= |data|
  {
    hide HM.Tile, HM.Drive, HextileRect.ReadTiles;
    HM.MachineReadsTiles(shape, 0, 0, HextileTile.NOTHING_CARRIED, data, Zeros(shape.Size()));
    DriveShrinks(shape, HM.Tile(shape, 0, 0, HextileTile.NOTHING_CARRIED, Zeros(shape.Size())), data);
  }

  lemma {:induction false} DriveShrinks(shape: Shape, reply: HM.Reply, data: seq<byte>)
    requires HM.ValidReply(shape, reply)
    ensures var read := HM.Drive(shape, reply, data); read.Done? ==> |read.rest| <= |data|
    decreases |data|, if reply.Ask? && HM.Want(shape, reply.hex) == 0 then 1 else 0
  {
    hide HM.Resume, HM.Valid, HM.Want;
    if reply.Ask? {
      var n := HM.Want(shape, reply.hex);
      if n <= |data| {
        if n == 0 { HM.NothingThenSomething(shape, reply.hex, data[..n]); }
        DriveShrinks(shape, HM.Resume(shape, reply.hex, data[..n]), data[n..]);
      }
    }
  }

  /** A counted block of the connection's one ZRLE stream. */
  function ReadZrle(libs: Libraries, f: Format, s: Shared, rect: Rect, data: seq<byte>): (b: Body)
    ensures b.Done? ==> |b.rest| <= |data|
  {
    if |data| < 4 then More
    else
      var n := U32(data[..4]);
      if |data| - 4 < n then More
      else
        var after := s.(zrle := s.zrle + [data[4..][..n]]);
        match libs.inflate(after.zrle)
        case None => Stop(InflateFailed, after)
        case Some(inflated) =>
          match ZrleRect.ReadRect(ZrleLayout(f), ShapeOf(rect, f), inflated)
          case Bad(why) => Stop(BadZrle(why), after)
          case Ok(pixels, _) => Painted(pixels, f, after, data[4..][n..])
  }

  // ---------------------------------------------------------------- Tight

  function ReadTight(libs: Libraries, f: Format, s: Shared, rect: Rect, data: seq<byte>): (b: Body)
    ensures b.Done? ==> |b.rest| <= |data|
  {
    if data == [] then More
    else
      var after, kind: nat, rest := s.(tight := ResetStreams(data[0], s.tight)), data[0] / 16, data[1..];
      var n := TPixelBytes(f);
      if kind == 8 then
        if |rest| < n then More else Painted(Times(rest[..n], rect.w * rect.h), OutputFormat(f), after, rest[n..])
      else if rect.w > MAX_TIGHT_WIDTH then Stop(TightTooWide, after)
      else if kind == 9 then if libs.jpegOffered then ReadJpeg(libs, after, rect, rest) else Stop(JpegNotOffered, after)
      else if kind >= 8 then Stop(BadTightControl, after)
      else if kind < 4 then ReadTightData(libs, f, after, rect, CopyPlan(f, rect, kind), rest)
      else ReadTightFilter(libs, f, after, rect, kind - 4, rest)
  }

  function CopyPlan(f: Format, rect: Rect, stream: nat): (p: TightPlan)
    requires stream < 4
    ensures ValidPlan(f, rect, p)
  {
    TightPlan(stream, None, rect.h * (rect.w * TPixelBytes(f)))
  }

  function ReadTightFilter(libs: Libraries, f: Format, s: Shared, rect: Rect, stream: nat, data: seq<byte>): (b: Body)
    requires stream < 4
    ensures b.Done? ==> |b.rest| <= |data|
  {
    if data == [] then More
    else if data[0] == 0 then ReadTightData(libs, f, s, rect, CopyPlan(f, rect, stream), data[1..])
    else if data[0] != 1 then Stop(BadTightFilter, s)
    else if |data| < 2 then More
    else
      var last: nat := data[1];
      var count, n := last + 1, (last + 1) * TPixelBytes(f);
      if |data| - 2 < n then More
      else
        var palette := ZrleDecoder.Cut(data[2..][..n], count, TPixelBytes(f));
        ReadTightData(libs, f, s, rect, TightPlan(stream, Some(palette), rect.h * RowBytes(count, rect.w)),
                      data[2..][n..])
  }

  function ReadTightData(libs: Libraries, f: Format, s: Shared, rect: Rect, plan: TightPlan, data: seq<byte>): (b: Body)
    requires ValidPlan(f, rect, plan)
    ensures b.Done? ==> |b.rest| <= |data|
  {
    if plan.size < MIN_TO_COMPRESS then
      if |data| < plan.size then More else Unfiltered(f, s, rect, plan, data[..plan.size], data[plan.size..])
    else
      match CompactLength(data)
      case None => More
      case Some((n, block)) =>
        if |block| < n then More
        else
          var history := s.tight[plan.stream] + [Inflation(block[..n], plan.size)];
          var after := s.(tight := s.tight[plan.stream := history]);
          match libs.inflateTight(history)
          case None => Stop(InflateFailed, after)
          case Some(inflated) =>
            if |inflated| != plan.size then Stop(BadTightSize, after)
            else Unfiltered(f, after, rect, plan, inflated, block[n..])
  }

  /** What the filter makes of the data. */
  function Unfiltered(f: Format, s: Shared, rect: Rect, plan: TightPlan, data: seq<byte>, rest: seq<byte>): (b: Body)
    requires ValidPlan(f, rect, plan) && |data| == plan.size
    ensures b.Done? ==> b.rest == rest
  {
    match plan.palette
    case None => Painted(data, OutputFormat(f), s, rest)
    case Some(palette) =>
      match Unpalette(palette, TPixelBytes(f), rect.w, rect.h, data)
      case None => Stop(BadTightIndex, s)
      case Some(pixels) => Painted(pixels, OutputFormat(f), s, rest)
  }

  function ReadJpeg(libs: Libraries, s: Shared, rect: Rect, data: seq<byte>): (b: Body)
    ensures b.Done? ==> |b.rest| <= |data|
  {
    match CompactLength(data)
    case None => More
    case Some((n, block)) =>
      if |block| < n then More
      else
        match libs.jpeg(block[..n])
        case None => Stop(BadJpeg, s)
        case Some(image) =>
          if image.width != rect.w || image.height != rect.h then Stop(BadJpeg, s)
          else Painted(image.rgb, TPIXEL_FORMAT, s, block[n..])
  }

  // ---------------------------------------------------------------- messages and updates

  /** The body of a message other than an update. */
  function ReadMessage(s: Shared, message: nat, data: seq<byte>): (b: Body)
    ensures b.Done? ==> |b.rest| <= |data|
  {
    if message == 1 then
      if |data| < 5 then More
      else
        var first, count := U16(data[1..3]), U16(data[3..5]);
        if 6 * count > MAX_MESSAGE_PAYLOAD then Stop(PayloadTooLong, s)
        else if |data| - 5 < 6 * count then More
        else Told(ColourMapSet(first, Colours(data[5..][..6 * count], count)), s, data[5..][6 * count..])
    else if message == 2 then Told(Rang, s, data)
    else if message == 3 then
      if |data| < 7 then More
      else
        var n := U32(data[3..7]);
        if n > MAX_MESSAGE_PAYLOAD then Stop(PayloadTooLong, s)
        else if |data| - 7 < n then More
        else Told(Clipboard(data[7..][..n]), s, data[7..][n..])
    else if message == 248 then
      if |data| < 8 then More
      else
        var n: nat := data[7];
        if |data| - 8 < n then More
        else Done(false, None, Fence(U32(data[3..7]), data[8..][..n]), s, data[8..][n..])
    else Stop(UnknownMessage(message), s)
  }

  /** What a stream of messages makes a client in format `f` do. */
  function ReadServer(w: World, f: Format, s: Shared, data: seq<byte>): seq<Event>
    decreases |data|, 0
  {
    if data == [] then []
    else if data[0] == 0 then
      if |data| < 4 then []
      else
        var count := U16(data[2..4]);
        [Begin(count)] + ReadRects(w, f, s, count, [], data[4..])
    else
      match ReadMessage(s, data[0], data[1..])
      case More => []
      case Stop(why, _) => [Failed(why)]
      case Done(_, _, effects, after, rest) => Effects(effects) + ([MessageDone] + ReadServer(w, f, after, rest))
  }

  /** `count` more rectangles, those in `changed` already having changed something. */
  function ReadRects(w: World, f: Format, s: Shared, count: nat, changed: seq<Rect>, data: seq<byte>): seq<Event>
    decreases |data|, 1
  {
    if count == 0 then [Commit(changed)] + ReadServer(w, f, s, data)
    else if |data| < 12 then []
    else
      var rect := Rect(U16(data[..2]), U16(data[2..4]), U16(data[4..6]), U16(data[6..8]));
      var encoding := S32(data[8..12]);
      if encoding == LAST_RECT then [LastRect] + ([Commit(changed)] + ReadServer(w, f, s, data[12..]))
      else
        [Dispatched(rect)]
        + match ReadBody(w.libs, f, s, encoding, rect, data[12..])
          case More => []
          case Stop(why, _) => [Failed(why)]
          case Done(some, paste, effects, after, rest) =>
            Effects(effects)
            + ((if paste.Some? then [Pasted(rect, paste.value)] else [])
               + ([RectDone(rect, some)]
                  + ReadRects(w, f, after, count - 1, if some then changed + [rect] else changed, rest)))
  }
}
