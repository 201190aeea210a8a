/**
  The decoders and message handlers the pump drives (vncdotool/decoders/, vncdotool/messages/), each Python
  generator as the datatype of its suspension points: what it asks for, and what one block leads to.
 */
module Generators {
  import opened Bytes
  import opened Grid
  import opened Tiles
  import opened CPixels
  import opened Tight
  import HextileTile
  import HM = HextileMachine
  import ZrleTile
  import ZrleRect
  import ZrleDecoder

  datatype Rect = Rect(x: nat, y: nat, w: nat, h: nat)

  /** A pixel format a client can be left in: its width is a whole number of bytes. */
  type Format = f: PixelFormat | f.bpp == 8 || f.bpp == 16 || f.bpp == 24 || f.bpp == 32
    witness PixelFormat(32, 24, false, true, 255, 255, 255, 0, 8, 16)

  /** An image a JPEG library decoded to RGB. */
  datatype Image = Image(width: nat, height: nat, rgb: seq<byte>)

  /** One call of a Tight stream: the compressed block and how much it should hold. */
  datatype Inflation = Inflation(block: seq<byte>, size: nat)

  /** The four Tight streams, each as the calls made on it since it was last reset. */
  type TightStreams = s: seq<seq<Inflation>> | |s| == 4 witness [[], [], [], []]

  /** The libraries, as functions of everything a stream has been given; None is their exception. */
  datatype Libraries = Libraries(
    inflate: seq<seq<byte>> -> Option<seq<byte>>,
    inflateTight: seq<Inflation> -> Option<seq<byte>>,
    jpeg: seq<byte> -> Option<Image>,
    jpegOffered: bool)

  /** The part of the client a decoder may look at or change. */
  datatype Shared = Shared(width: nat, height: nat, zrle: seq<seq<byte>>, tight: TightStreams)

  /** Callbacks a decoder or message handler makes. */
  datatype Effect =
    | Copied(srcx: nat, srcy: nat, rect: Rect)
    | CursorSet(rect: Rect, image: seq<byte>, mask: seq<byte>)
    | Resized(width: nat, height: nat)
    | PointerAt(x: nat, y: nat)
    | ExtendedKeys
    | Rang
    | ColourMapSet(first: nat, colours: seq<(nat, nat, nat)>)
    | Clipboard(text: seq<byte>)
    | FenceAnswered(flags: nat, payload: seq<byte>)

  datatype Why =
    | DoesNotFit | CopyOutside | TooManySubrects | SubrectOutside | BadHextile(hextile: HextileTile.Reason)
    | InflateFailed | BadZrle(zrle: ZrleTile.Reason) | TightTooWide | JpegNotOffered | BadJpeg
    | BadTightControl | BadTightFilter | BadTightSize | BadTightIndex | PayloadTooLong
    | UnknownEncoding(encoding: int) | UnknownMessage(message: nat) | WrongPasteLength

  /** What is left of a Tight rectangle once its filter is known. */
  datatype TightPlan = TightPlan(stream: nat, palette: Option<Pixels>, size: nat)

  datatype Gen =
    | RawBody(rect: Rect)
    | CopySource(rect: Rect)
    | RreHeader(rect: Rect, corre: bool)
    | RreBody(rect: Rect, corre: bool, count: nat, grid: seq<byte>)
    | HexPart(rect: Rect, hex: HM.Hex)
    | ZrleLength(rect: Rect)
    | ZrleBlock(rect: Rect, n: nat)
    | TightControl(rect: Rect)
    | TightFill(rect: Rect)
    | TightFilter(rect: Rect, stream: nat)
    | TightPaletteSize(rect: Rect, stream: nat)
    | TightPalette(rect: Rect, stream: nat, count: nat)
    | TightRaw(rect: Rect, plan: TightPlan)
    | TightLength(rect: Rect, plan: TightPlan, digits: seq<byte>)
    | TightBlock(rect: Rect, plan: TightPlan, n: nat)
    | TightJpegLength(rect: Rect, digits: seq<byte>)
    | TightJpeg(rect: Rect, n: nat)
    | CursorBody(rect: Rect)
    | ColourHead
    | ColourBody(first: nat, count: nat)
    | CutHead
    | CutBody(n: nat)
    | FenceHead
    | FenceBody(flags: nat, n: nat)

  /** Handlers of whole messages, rather than of one rectangle. */
  predicate IsMessage(g: Gen) {
    g.ColourHead? || g.ColourBody? || g.CutHead? || g.CutBody? || g.FenceHead? || g.FenceBody?
  }

  predicate IsTight(g: Gen) {
    || g.TightControl? || g.TightFill? || g.TightFilter? || g.TightPaletteSize? || g.TightPalette? || g.TightRaw?
    || g.TightLength? || g.TightBlock? || g.TightJpegLength? || g.TightJpeg?
  }

  datatype Paste = Paste(pixels: seq<byte>, format: PixelFormat)

  datatype Action =
    | Ask(gen: Gen)
    | Finish(changed: bool, paste: Option<Paste>)
    | Raise(why: Why)

  datatype Reply = Reply(action: Action, effects: seq<Effect>, shared: Shared)

  function Just(action: Action, shared: Shared): Reply { Reply(action, [], shared) }

  const MAX_DESKTOP_SIZE := 0x1_0000
  const MAX_MESSAGE_PAYLOAD := 0x10_0000

  function ShapeOf(rect: Rect, f: Format): Shape { Shape(rect.w, rect.h, f.Bypp()) }

  /** `cpixel_bytes` and `cpixel_offset` as a ZRLE decoder uses them. */
  function ZrleLayout(f: Format): (l: Layout)
    ensures ValidLayout(l) && l.bypp == f.Bypp()
  {
    Layout(CPixelBytes(f), f.Bypp(), if CPixelBytes(f) == 3 then CPixelOffset(f) else 0)
  }

  function SubrectSize(f: Format, corre: bool): nat { f.Bypp() + if corre then 4 else 8 }

  /** A generator that can be stopped where it says, for a client in format `f`. */
  predicate Valid(f: Format, g: Gen) {
    match g
    case RreBody(rect, _, count, grid) => |grid| == ShapeOf(rect, f).Size() && count > 0
    case HexPart(rect, hex) => HM.Valid(ShapeOf(rect, f), hex)
    case TightPaletteSize(_, stream) => stream < 4
    case TightPalette(_, stream, count) => stream < 4 && 1 <= count <= 256
    case TightFilter(_, stream) => stream < 4
    case TightRaw(rect, plan) => ValidPlan(f, rect, plan) && plan.size > 0
    case TightLength(rect, plan, digits) => ValidPlan(f, rect, plan) && CompactLength(digits).None?
    case TightBlock(rect, plan, _) => ValidPlan(f, rect, plan)
    case TightJpegLength(_, digits) => CompactLength(digits).None?
    case _ => true
  }

  predicate ValidPlan(f: Format, rect: Rect, plan: TightPlan) {
    && plan.stream < 4
    && match plan.palette
       case None => plan.size == rect.h * (rect.w * TPixelBytes(f))
       case Some(palette) =>
         && 1 <= |palette| && Uniform(palette, TPixelBytes(f))
         && plan.size == rect.h * RowBytes(|palette|, rect.w)
  }

  /** The bytes a generator is waiting for. */
  function Want(f: Format, g: Gen): nat
    requires Valid(f, g)
  {
    match g
    case RawBody(rect) => rect.w * rect.h * f.Bypp()
    case CopySource(_) => 4
    case RreHeader(_, _) => 4 + f.Bypp()
    case RreBody(_, corre, count, _) => SubrectSize(f, corre) * count
    case HexPart(rect, hex) => HM.Want(ShapeOf(rect, f), hex)
    case ZrleLength(_) => 4
    case ZrleBlock(_, n) => n
    case TightControl(_) => 1
    case TightFill(_) => TPixelBytes(f)
    case TightFilter(_, _) => 1
    case TightPaletteSize(_, _) => 1
    case TightPalette(_, _, count) => count * TPixelBytes(f)
    case TightRaw(_, plan) => plan.size
    case TightLength(_, _, _) => 1
    case TightBlock(_, _, n) => n
    case TightJpegLength(_, _) => 1
    case TightJpeg(_, n) => n
    case CursorBody(rect) => rect.w * rect.h * f.Bypp() + ((rect.w + 7) / 8) * rect.h
    case ColourHead => 5
    case ColourBody(_, count) => 6 * count
    case CutHead => 7
    case CutBody(n) => n
    case FenceHead => 8
    case FenceBody(_, n) => n
  }

  // ---------------------------------------------------------------- starting a rectangle

  const RAW := 0
  const COPY_RECT := 1
  const RRE := 2
  const CORRE := 4
  const HEXTILE := 5
  const TIGHT := 7
  const ZRLE := 16
  const DESKTOP_SIZE := -223
  const LAST_RECT := -224
  const POINTER_POS := -232
  const CURSOR := -239
  const QEMU_KEYS := -258

  /** `requireFits`; a client with no size yet refuses nothing but the impossible. */
  predicate RequireFits(s: Shared, w: nat, h: nat) {
    && w <= (if s.width != 0 then s.width else MAX_DESKTOP_SIZE)
    && h <= (if s.height != 0 then s.height else MAX_DESKTOP_SIZE)
  }

  /** The Hextile generator's replies as the pump's. */
  function HexReply(rect: Rect, f: Format, reply: HM.Reply, s: Shared): Reply {
    match reply
    case Ask(hex) => Just(Ask(HexPart(rect, hex)), s)
    case Complete(grid) => Just(Finish(true, Some(Paste(grid, f))), s)
    case Raise(why) => Just(Raise(BadHextile(why)), s)
  }

  /** The first `send(None)` to the decoder of an encoding. */
  function Start(f: Format, s: Shared, encoding: int, rect: Rect): Reply {
    if encoding == RAW || encoding == RRE || encoding == CORRE || encoding == HEXTILE || encoding == ZRLE
        || encoding == TIGHT then
      if !RequireFits(s, rect.w, rect.h) then Just(Raise(DoesNotFit), s)
      else if encoding == RAW then Just(Ask(RawBody(rect)), s)
      else if encoding == RRE then Just(Ask(RreHeader(rect, false)), s)
      else if encoding == CORRE then Just(Ask(RreHeader(rect, true)), s)
      else if encoding == ZRLE then Just(Ask(ZrleLength(rect)), s)
      else if encoding == TIGHT then Just(Ask(TightControl(rect)), s)
      else
        var shape := ShapeOf(rect, f);
        HexReply(rect, f, HM.Tile(shape, 0, 0, HextileTile.NOTHING_CARRIED, Zeros(shape.Size())), s)
    else if encoding == COPY_RECT then Just(Ask(CopySource(rect)), s)
    else if encoding == CURSOR then Just(Ask(CursorBody(rect)), s)
    else if encoding == DESKTOP_SIZE then
      Reply(Finish(false, None), [Resized(rect.w, rect.h)], s.(width := rect.w, height := rect.h))
    else if encoding == POINTER_POS then Reply(Finish(false, None), [PointerAt(rect.x, rect.y)], s)
    else if encoding == QEMU_KEYS then Reply(Finish(false, None), [ExtendedKeys], s)
    else Just(Raise(UnknownEncoding(encoding)), s)
  }

  /** The first `send(None)` to the handler of a message. */
  function StartMessage(s: Shared, message: nat): Reply {
    if message == 1 then Just(Ask(ColourHead), s)
    else if message == 2 then Reply(Finish(false, None), [Rang], s)
    else if message == 3 then Just(Ask(CutHead), s)
    else if message == 248 then Just(Ask(FenceHead), s)
    else Just(Raise(UnknownMessage(message)), s)
  }

  // ---------------------------------------------------------------- RRE

  /** The subrectangle at the head of RRE data. */
  function RreRect(f: Format, corre: bool, data: seq<byte>): Rect
    requires |data| == SubrectSize(f, corre)
  {
    var b := f.Bypp();
    if corre then Rect(data[b], data[b + 1], data[b + 2], data[b + 3])
    else Rect(U16(data[b..b + 2]), U16(data[b + 2..b + 4]), U16(data[b + 4..b + 6]), U16(data[b + 6..b + 8]))
  }

  /** RRE's fills in order; None where one runs outside the rectangle. */
  function RreFills(f: Format, s: Shape, corre: bool, count: nat, data: seq<byte>, g: seq<byte>): (r: Option<seq<byte>>)
    requires |g| == s.Size() && s.bypp == f.Bypp()
    ensures r.Some? ==> |r.value| == s.Size()
    decreases count
  {
    var n := SubrectSize(f, corre);
    if count == 0 then Some(g)
    else if |data| < n then None
    else
      var r := RreRect(f, corre, data[..n]);
      if !Fits(s, r.x, r.y, r.w, r.h) then None
      else RreFills(f, s, corre, count - 1, data[n..], Fill(g, s, r.x, r.y, r.w, r.h, data[..s.bypp]))
  }

  function ResumeRreHeader(f: Format, s: Shared, rect: Rect, corre: bool, block: seq<byte>): Reply
    requires |block| == 4 + f.Bypp()
  {
    var shape := ShapeOf(rect, f);
    var count := U32(block[..4]);
    var g := Fill(Zeros(shape.Size()), shape, 0, 0, rect.w, rect.h, block[4..]);
    if count == 0 then Just(Finish(true, Some(Paste(g, f))), s)
    else if count > rect.w * rect.h then Just(Raise(TooManySubrects), s)
    else Just(Ask(RreBody(rect, corre, count, g)), s)
  }

  // ---------------------------------------------------------------- Tight

  function ResetStream(comp: byte, i: nat, history: seq<Inflation>): seq<Inflation>
    requires i < 4
  {
    if comp / Pow2(i) % 2 == 1 then [] else history
  }

  /** The low nibble of the control byte resets streams, whatever the rest of it says. */
  function ResetStreams(comp: byte, t: TightStreams): TightStreams {
    [ResetStream(comp, 0, t[0]), ResetStream(comp, 1, t[1]), ResetStream(comp, 2, t[2]), ResetStream(comp, 3, t[3])]
  }

  const MAX_TIGHT_WIDTH := 2048
  const MIN_TO_COMPRESS := 12

  function ResumeTightControl(libs: Libraries, f: Format, s: Shared, rect: Rect, comp: byte): Reply {
    var after := s.(tight := ResetStreams(comp, s.tight));
    var kind: nat := comp / 16;
    if kind == 8 then Just(Ask(TightFill(rect)), after)
    else if rect.w > MAX_TIGHT_WIDTH then Just(Raise(TightTooWide), after)
    else if kind == 9 then
      if !libs.jpegOffered then Just(Raise(JpegNotOffered), after) else Just(Ask(TightJpegLength(rect, [])), after)
    else if kind >= 8 then Just(Raise(BadTightControl), after)
    else if kind >= 4 then Just(Ask(TightFilter(rect, kind % 4)), after)
    else CopyFilter(f, after, rect, kind % 4)
  }

  function CopyFilter(f: Format, s: Shared, rect: Rect, stream: nat): Reply
    requires stream < 4
  {
    TightData(f, s, rect, TightPlan(stream, None, rect.h * (rect.w * TPixelBytes(f))))
  }

  /** How the filtered data arrives: not at all, as it is, or compressed. */
  function TightData(f: Format, s: Shared, rect: Rect, plan: TightPlan): Reply
    requires ValidPlan(f, rect, plan)
  {
    if plan.size == 0 then FinishTight(f, s, rect, plan, [])
    else if plan.size < MIN_TO_COMPRESS then Just(Ask(TightRaw(rect, plan)), s)
    else Just(Ask(TightLength(rect, plan, [])), s)
  }

  function FinishTight(f: Format, s: Shared, rect: Rect, plan: TightPlan, data: seq<byte>): Reply
    requires ValidPlan(f, rect, plan) && |data| == plan.size
  {
    match plan.palette
    case None => Just(Finish(true, Some(Paste(data, OutputFormat(f)))), s)
    case Some(palette) =>
      match Unpalette(palette, TPixelBytes(f), rect.w, rect.h, data)
      case None => Just(Raise(BadTightIndex), s)
      case Some(pixels) => Just(Finish(true, Some(Paste(pixels, OutputFormat(f)))), s)
  }

  function ResumeTightFilter(f: Format, s: Shared, rect: Rect, stream: nat, filter: byte): Reply
    requires stream < 4
  {
    if filter == 0 then CopyFilter(f, s, rect, stream)
    else if filter == 1 then Just(Ask(TightPaletteSize(rect, stream)), s)
    else Just(Raise(BadTightFilter), s)
  }

  function ResumeTightPalette(f: Format, s: Shared, rect: Rect, stream: nat, count: nat, raw: seq<byte>): Reply
    requires stream < 4 && 1 <= count && |raw| == count * TPixelBytes(f)
  {
    var palette := ZrleDecoder.Cut(raw, count, TPixelBytes(f));
    TightData(f, s, rect, TightPlan(stream, Some(palette), rect.h * RowBytes(count, rect.w)))
  }

  function ResumeTightBlock(libs: Libraries, f: Format, s: Shared, rect: Rect, plan: TightPlan, block: seq<byte>): Reply
    requires ValidPlan(f, rect, plan)
  {
    var history := s.tight[plan.stream] + [Inflation(block, plan.size)];
    var after := s.(tight := s.tight[plan.stream := history]);
    match libs.inflateTight(history)
    case None => Just(Raise(InflateFailed), after)
    case Some(data) =>
      if |data| != plan.size then Just(Raise(BadTightSize), after) else FinishTight(f, after, rect, plan, data)
  }

  function ResumeJpeg(libs: Libraries, s: Shared, rect: Rect, block: seq<byte>): Reply {
    match libs.jpeg(block)
    case None => Just(Raise(BadJpeg), s)
    case Some(image) =>
      if image.width != rect.w || image.height != rect.h then Just(Raise(BadJpeg), s)
      else Just(Finish(true, Some(Paste(image.rgb, TPIXEL_FORMAT))), s)
  }

  // ---------------------------------------------------------------- messages

  function Colours(block: seq<byte>, count: nat): seq<(nat, nat, nat)>
    requires |block| == 6 * count
  {
    seq(count, i requires 0 <= i < count =>
      (U16(block[6 * i..6 * i + 2]), U16(block[6 * i + 2..6 * i + 4]), U16(block[6 * i + 4..6 * i + 6])))
  }

  /** A request is answered with the flags this client knows. */
  function Fence(flags: nat, payload: seq<byte>): seq<Effect> {
    if flags / 0x8000_0000 % 2 == 1 then [FenceAnswered(flags % 8, payload)] else []
  }

  // ---------------------------------------------------------------- one resumption

  function ResumeMessage(s: Shared, g: Gen, block: seq<byte>): Reply
    requires IsMessage(g)
    requires |block| == match g
                        case ColourHead => 5 case ColourBody(_, count) => 6 * count
                        case CutHead => 7 case CutBody(n) => n
                        case FenceHead => 8 case FenceBody(_, n) => n
  {
    match g
    case ColourHead =>
      var count := U16(block[3..5]);
      if 6 * count > MAX_MESSAGE_PAYLOAD then Just(Raise(PayloadTooLong), s)
      else Just(Ask(ColourBody(U16(block[1..3]), count)), s)
    case ColourBody(first, count) => Reply(Finish(false, None), [ColourMapSet(first, Colours(block, count))], s)
    case CutHead =>
      var n := U32(block[3..7]);
      if n > MAX_MESSAGE_PAYLOAD then Just(Raise(PayloadTooLong), s) else Just(Ask(CutBody(n)), s)
    case CutBody(_) => Reply(Finish(false, None), [Clipboard(block)], s)
    case FenceHead =>
      var flags, n := U32(block[3..7]), block[7];
      if n > 0 then Just(Ask(FenceBody(flags, n)), s) else Reply(Finish(false, None), Fence(flags, []), s)
    case FenceBody(flags, _) => Reply(Finish(false, None), Fence(flags, block), s)
  }

  function ResumeTight(libs: Libraries, f: Format, s: Shared, g: Gen, block: seq<byte>): Reply
    requires Valid(f, g) && |block| == Want(f, g)
    requires IsTight(g)
  {
    match g
    case TightControl(rect) => ResumeTightControl(libs, f, s, rect, block[0])
    case TightFill(rect) => Just(Finish(true, Some(Paste(Times(block, rect.w * rect.h), OutputFormat(f)))), s)
    case TightFilter(rect, stream) => ResumeTightFilter(f, s, rect, stream, block[0])
    case TightPaletteSize(rect, stream) =>
      var last: nat := block[0];
      Just(Ask(TightPalette(rect, stream, last + 1)), s)
    case TightPalette(rect, stream, count) => ResumeTightPalette(f, s, rect, stream, count, block)
    case TightRaw(rect, plan) => FinishTight(f, s, rect, plan, block)
    case TightLength(rect, plan, digits) =>
      (match CompactLength(digits + block)
       case None => Just(Ask(TightLength(rect, plan, digits + block)), s)
       case Some(length) => Just(Ask(TightBlock(rect, plan, length.0)), s))
    case TightBlock(rect, plan, _) => ResumeTightBlock(libs, f, s, rect, plan, block)
    case TightJpegLength(rect, digits) =>
      (match CompactLength(digits + block)
       case None => Just(Ask(TightJpegLength(rect, digits + block)), s)
       case Some(length) => Just(Ask(TightJpeg(rect, length.0)), s))
    case TightJpeg(rect, _) => ResumeJpeg(libs, s, rect, block)
  }

  /** `generator.send(block)`. */
  function Resume(libs: Libraries, f: Format, s: Shared, g: Gen, block: seq<byte>): Reply
    requires Valid(f, g) && |block| == Want(f, g)
  {
    if IsMessage(g) then ResumeMessage(s, g, block)
    else if IsTight(g) then ResumeTight(libs, f, s, g, block)
    else
      match g
      case RawBody(_) => Just(Finish(true, Some(Paste(block, f))), s)
      case CopySource(rect) =>
        var srcx, srcy := U16(block[..2]), U16(block[2..4]);
        if srcx + rect.w > s.width || srcy + rect.h > s.height then Just(Raise(CopyOutside), s)
        else Reply(Finish(true, None), [Copied(srcx, srcy, rect)], s)
      case RreHeader(rect, corre) => ResumeRreHeader(f, s, rect, corre, block)
      case RreBody(rect, corre, count, grid) =>
        (match RreFills(f, ShapeOf(rect, f), corre, count, block, grid)
         case None => Just(Raise(SubrectOutside), s)
         case Some(painted) => Just(Finish(true, Some(Paste(painted, f))), s))
      case HexPart(rect, hex) => HexReply(rect, f, HM.Resume(ShapeOf(rect, f), hex, block), s)
      case ZrleLength(rect) => Just(Ask(ZrleBlock(rect, U32(block))), s)
      case ZrleBlock(rect, _) =>
        var after := s.(zrle := s.zrle + [block]);
        (match libs.inflate(after.zrle)
         case None => Just(Raise(InflateFailed), after)
         case Some(data) =>
           match ZrleRect.ReadRect(ZrleLayout(f), ShapeOf(rect, f), data)
           case Bad(why) => Just(Raise(BadZrle(why)), after)
           case Ok(grid, _) => Just(Finish(true, Some(Paste(grid, f))), after))
      case CursorBody(rect) =>
        var n := rect.w * rect.h * f.Bypp();
        Reply(Finish(true, None), [CursorSet(rect, block[..n], block[n..])], s)
  }
}
