/**
  What every built-in decoder and message handler keeps: it asks only for what it can use, a paste is
  exactly as long as its rectangle in its declared format, and two empty requests never follow each other.
 */
module GeneratorFacts {
  import opened Arith
  import opened Bytes
  import opened Grid
  import opened Tiles
  import opened Tight
  import opened Generators
  import HM = HextileMachine
  import ZrleDecoder
  import ZrleRect

  function RectOf(g: Gen): Rect
    requires !IsMessage(g)
  {
    g.rect
  }

  /** A decoder library hands over three bytes a pixel. */
  ghost predicate RgbImages(libs: Libraries) {
    forall block: seq<byte> :: libs.jpeg(block).Some? ==>
      var image := libs.jpeg(block).value; |image.rgb| == image.width * image.height * 3
  }

  /** A paste of exactly the rectangle's pixels in its own format. */
  predicate ExactPaste(rect: Rect, p: Paste) { |p.pixels| == rect.w * rect.h * p.format.Bypp() }

  /** A reply in the middle of rectangle `rect`. */
  predicate InRect(f: Format, rect: Rect, reply: Reply) {
    match reply.action
    case Ask(g) => Valid(f, g) && !IsMessage(g) && RectOf(g) == rect
    case Finish(_, paste) => paste.Some? ==> ExactPaste(rect, paste.value)
    case Raise(_) => true
  }

  /** A reply that asks for at least one byte, if it asks. */
  predicate AsksSomething(f: Format, reply: Reply) {
    reply.action.Ask? && Valid(f, reply.action.gen) ==> Want(f, reply.action.gen) > 0
  }

  lemma AreaOfShape(rect: Rect, f: Format)
    ensures ShapeOf(rect, f).Size() == rect.w * rect.h * f.Bypp()
  {
  }

  lemma TightWidth(f: Format)
    ensures 1 <= TPixelBytes(f) && OutputFormat(f).Bypp() == TPixelBytes(f)
  {
    OutputWidth(f);
  }

  // ---------------------------------------------------------------- starting

  lemma StartStaysInRect(f: Format, s: Shared, encoding: int, rect: Rect)
    ensures InRect(f, rect, Start(f, s, encoding, rect))
  {
    AreaOfShape(rect, f);
    hide HM.Tile, HM.Valid;
  }

  // ---------------------------------------------------------------- Tight

  lemma FinishTightExact(f: Format, s: Shared, rect: Rect, plan: TightPlan, data: seq<byte>)
    requires ValidPlan(f, rect, plan) && |data| == plan.size
    ensures InRect(f, rect, FinishTight(f, s, rect, plan, data))
    ensures !FinishTight(f, s, rect, plan, data).action.Ask?
  {
    TightWidth(f);
    var n := TPixelBytes(f);
    match plan.palette
    case None => MulSwap(rect.h, rect.w, n);
    case Some(palette) =>
      UnpaletteIsPixelwise(palette, n, rect.w, rect.h, data);
      var ps := PalettePixels(palette, rect.w, rect.h, data);
      if ps.Some? { JoinLength(ps.value, n); }
  }

  lemma TightDataStaysInRect(f: Format, s: Shared, rect: Rect, plan: TightPlan)
    requires ValidPlan(f, rect, plan)
    ensures InRect(f, rect, TightData(f, s, rect, plan)) && AsksSomething(f, TightData(f, s, rect, plan))
  {
    hide FinishTight, ValidPlan;
    if plan.size == 0 { FinishTightExact(f, s, rect, plan, []); }
  }

  lemma TightFillExact(f: Format, rect: Rect, block: seq<byte>)
    requires |block| == TPixelBytes(f)
    ensures ExactPaste(rect, Paste(Times(block, rect.w * rect.h), OutputFormat(f)))
  {
    TightWidth(f);
  }

  lemma TightPaletteStays(f: Format, s: Shared, rect: Rect, stream: nat, count: nat, raw: seq<byte>)
    requires stream < 4 && 1 <= count && |raw| == count * TPixelBytes(f)
    ensures InRect(f, rect, ResumeTightPalette(f, s, rect, stream, count, raw))
    ensures AsksSomething(f, ResumeTightPalette(f, s, rect, stream, count, raw))
  {
    var palette := ZrleDecoder.Cut(raw, count, TPixelBytes(f));
    TightDataStaysInRect(f, s, rect, TightPlan(stream, Some(palette), rect.h * RowBytes(count, rect.w)));
  }

  lemma TightBlockStays(libs: Libraries, f: Format, s: Shared, rect: Rect, plan: TightPlan, block: seq<byte>)
    requires ValidPlan(f, rect, plan)
    ensures InRect(f, rect, ResumeTightBlock(libs, f, s, rect, plan, block))
    ensures !ResumeTightBlock(libs, f, s, rect, plan, block).action.Ask?
  {
    hide FinishTight;
    var history := s.tight[plan.stream] + [Inflation(block, plan.size)];
    var after := s.(tight := s.tight[plan.stream := history]);
    var out := libs.inflateTight(history);
    if out.Some? && |out.value| == plan.size { FinishTightExact(f, after, rect, plan, out.value); }
  }

  lemma TightControlStays(libs: Libraries, f: Format, s: Shared, rect: Rect, comp: byte)
    ensures InRect(f, rect, ResumeTightControl(libs, f, s, rect, comp))
    ensures AsksSomething(f, ResumeTightControl(libs, f, s, rect, comp))
  {
    hide TightData, ResetStreams;
    TightWidth(f);
    var after := s.(tight := ResetStreams(comp, s.tight));
    var kind: nat := comp / 16;
    if kind < 4 { TightDataStaysInRect(f, after, rect, TightPlan(kind % 4, None, rect.h * (rect.w * TPixelBytes(f)))); }
  }

  lemma TightFilterStays(f: Format, s: Shared, rect: Rect, stream: nat, filter: byte)
    requires stream < 4
    ensures InRect(f, rect, ResumeTightFilter(f, s, rect, stream, filter))
    ensures AsksSomething(f, ResumeTightFilter(f, s, rect, stream, filter))
  {
    hide TightData;
    if filter == 0 { TightDataStaysInRect(f, s, rect, TightPlan(stream, None, rect.h * (rect.w * TPixelBytes(f)))); }
  }

  lemma JpegExact(libs: Libraries, f: Format, s: Shared, rect: Rect, block: seq<byte>)
    requires RgbImages(libs)
    ensures InRect(f, rect, ResumeJpeg(libs, s, rect, block)) && !ResumeJpeg(libs, s, rect, block).action.Ask?
  {
  }

  lemma TightStays(libs: Libraries, f: Format, s: Shared, g: Gen, block: seq<byte>)
    requires RgbImages(libs) && Valid(f, g) && |block| == Want(f, g)
    requires IsTight(g)
    ensures InRect(f, RectOf(g), ResumeTight(libs, f, s, g, block))
    ensures Want(f, g) == 0 ==> AsksSomething(f, ResumeTight(libs, f, s, g, block))
  {
    hide FinishTight, ResumeTightControl, ResumeTightFilter, ResumeTightPalette, ResumeTightBlock, ResumeJpeg,
         ValidPlan, CompactLength, Times, OutputFormat, RgbImages;
    TightWidth(f);
    match g
    case TightControl(rect) => TightControlStays(libs, f, s, rect, block[0]);
    case TightFill(rect) => TightFillExact(f, rect, block);
    case TightFilter(rect, stream) => TightFilterStays(f, s, rect, stream, block[0]);
    case TightPaletteSize(rect, stream) =>
    case TightPalette(rect, stream, count) => TightPaletteStays(f, s, rect, stream, count, block);
    case TightRaw(rect, plan) => FinishTightExact(f, s, rect, plan, block);
    case TightLength(rect, plan, digits) =>
    case TightBlock(rect, plan, n) => TightBlockStays(libs, f, s, rect, plan, block);
    case TightJpegLength(rect, digits) =>
    case TightJpeg(rect, n) => JpegExact(libs, f, s, rect, block);
  }

  // ---------------------------------------------------------------- the others

  lemma HexStays(f: Format, s: Shared, rect: Rect, hex: HM.Hex, block: seq<byte>)
    requires HM.Valid(ShapeOf(rect, f), hex) && |block| == HM.Want(ShapeOf(rect, f), hex)
    ensures var reply := HexReply(rect, f, HM.Resume(ShapeOf(rect, f), hex, block), s);
            InRect(f, rect, reply) && (block == [] ==> AsksSomething(f, reply))
  {
    AreaOfShape(rect, f);
    if block == [] { HM.NothingThenSomething(ShapeOf(rect, f), hex, block); }
    hide HM.Resume, HM.Valid, HM.Want;
  }

  lemma RreStays(f: Format, s: Shared, rect: Rect, corre: bool, block: seq<byte>)
    requires |block| == 4 + f.Bypp()
    ensures InRect(f, rect, ResumeRreHeader(f, s, rect, corre, block))
  {
    hide Fill;
    AreaOfShape(rect, f);
  }

  lemma ZrleStays(libs: Libraries, f: Format, s: Shared, rect: Rect, n: nat, block: seq<byte>)
    requires |block| == n
    ensures InRect(f, rect, Resume(libs, f, s, ZrleBlock(rect, n), block))
    ensures !Resume(libs, f, s, ZrleBlock(rect, n), block).action.Ask?
  {
    AreaOfShape(rect, f);
    hide ZrleRect.ReadOnto, ResumeTight, ResumeMessage;
  }

  /** Every resumption inside a rectangle stays in it, and what it pastes is exactly the rectangle. */
  lemma ResumeStaysInRect(libs: Libraries, f: Format, s: Shared, g: Gen, block: seq<byte>)
    requires RgbImages(libs) && Valid(f, g) && !IsMessage(g) && |block| == Want(f, g)
    ensures InRect(f, RectOf(g), Resume(libs, f, s, g, block))
    ensures Want(f, g) == 0 ==> AsksSomething(f, Resume(libs, f, s, g, block))
  {
    hide ResumeRreHeader, RreFills, HM.Resume, HM.Valid, HM.Want, ResumeTight, ZrleRect.ReadRect, RgbImages;
    AreaOfShape(RectOf(g), f);
    if IsTight(g) {
      TightStays(libs, f, s, g, block);
      return;
    }
    match g
    case RawBody(rect) =>
    case CopySource(rect) =>
    case RreHeader(rect, corre) => RreStays(f, s, rect, corre, block);
    case RreBody(rect, corre, count, grid) =>
    case HexPart(rect, hex) => HexStays(f, s, rect, hex, block);
    case ZrleLength(rect) =>
    case ZrleBlock(rect, n) => ZrleStays(libs, f, s, rect, n, block);
    case CursorBody(rect) =>
  }

  lemma MessageStays(libs: Libraries, f: Format, s: Shared, g: Gen, block: seq<byte>)
    requires Valid(f, g) && IsMessage(g) && |block| == Want(f, g)
    ensures var reply := Resume(libs, f, s, g, block);
            (reply.action.Ask? ==> Valid(f, reply.action.gen) && IsMessage(reply.action.gen))
            && (Want(f, g) == 0 ==> AsksSomething(f, reply))
            && (reply.action.Finish? ==> reply.action.paste.None?)
  {
  }
}
