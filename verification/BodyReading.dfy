/** Each generator, given its blocks one at a time, reads what `PlainParser` reads of a whole body. */
module BodyReading {
  import opened Bytes
  import opened Grid
  import opened Tight
  import opened Generators
  import opened GeneratorFacts
  import opened PlainParser
  import opened Refinement
  import HM = HextileMachine
  import HextileTile
  import HextileRect
  import ZrleRect
  import ZrleDecoder

  /** A request met from the front of the data. */
  lemma DriveAsks(libs: Libraries, f: Format, s: Shared, g: Gen, data: seq<byte>)
    requires RgbImages(libs) && Valid(f, g)
    ensures |data| < Want(f, g) ==> Drive(libs, f, Just(Ask(g), s), data) == More
    ensures |data| >= Want(f, g) ==>
              var n := Want(f, g); var next := Resume(libs, f, s, g, data[..n]);
              CanRun(f, next) && Drive(libs, f, Just(Ask(g), s), data) == Drive(libs, f, next, data[n..])
  {
    hide Resume, Valid, Want, RgbImages;
    if |data| >= Want(f, g) { ResumeRuns(libs, f, s, g, data[..Want(f, g)]); }
  }

  lemma RawIsRead(libs: Libraries, f: Format, s: Shared, rect: Rect, data: seq<byte>)
    requires RgbImages(libs)
    ensures Drive(libs, f, Just(Ask(RawBody(rect)), s), data) == ReadRaw(f, s, rect, data)
  {
    hide RgbImages, ResumeTight, ResumeMessage;
    DriveAsks(libs, f, s, RawBody(rect), data);
  }

  lemma CopyIsRead(libs: Libraries, f: Format, s: Shared, rect: Rect, data: seq<byte>)
    requires RgbImages(libs)
    ensures Drive(libs, f, Just(Ask(CopySource(rect)), s), data) == ReadCopy(s, rect, data)
  {
    hide RgbImages, ResumeTight, ResumeMessage;
    DriveAsks(libs, f, s, CopySource(rect), data);
    if |data| >= 4 {
      var block := data[..4];
      assert block[..2] == data[..2] && block[2..4] == data[2..4];
    }
  }

  lemma CursorIsRead(libs: Libraries, f: Format, s: Shared, rect: Rect, data: seq<byte>)
    requires RgbImages(libs)
    ensures Drive(libs, f, Just(Ask(CursorBody(rect)), s), data) == ReadCursor(f, s, rect, data)
  {
    hide RgbImages, ResumeTight, ResumeMessage;
    DriveAsks(libs, f, s, CursorBody(rect), data);
  }

  lemma RreIsRead(libs: Libraries, f: Format, s: Shared, rect: Rect, corre: bool, data: seq<byte>)
    requires RgbImages(libs)
    ensures Drive(libs, f, Just(Ask(RreHeader(rect, corre)), s), data) == ReadRre(f, s, rect, corre, data)
  {
    hide RgbImages, ResumeTight, ResumeMessage, RreFills, Fill, Zeros, Shape.Size, SubrectSize;
    DriveAsks(libs, f, s, RreHeader(rect, corre), data);
    var head := 4 + f.Bypp();
    if |data| >= head {
      var block, rest := data[..head], data[head..];
      assert block[..4] == data[..4] && block[4..] == data[4..head];
      var reply := ResumeRreHeader(f, s, rect, corre, block);
      if reply.action.Ask? {
        RreStays(f, s, rect, corre, block);
        assert reply == Just(Ask(reply.action.gen), s);
        DriveAsks(libs, f, s, reply.action.gen, rest);
      }
    }
  }

  lemma ZrleIsRead(libs: Libraries, f: Format, s: Shared, rect: Rect, data: seq<byte>)
    requires RgbImages(libs)
    ensures Drive(libs, f, Just(Ask(ZrleLength(rect)), s), data) == ReadZrle(libs, f, s, rect, data)
  {
    hide RgbImages, ResumeTight, ResumeMessage, ZrleRect.ReadRect;
    DriveAsks(libs, f, s, ZrleLength(rect), data);
    if |data| >= 4 { DriveAsks(libs, f, s, ZrleBlock(rect, U32(data[..4])), data[4..]); }
  }

  lemma {:induction false} HexIsDriven(libs: Libraries, f: Format, s: Shared, rect: Rect, reply: HM.Reply,
                                       data: seq<byte>)
    requires RgbImages(libs) && HM.ValidReply(ShapeOf(rect, f), reply)
    ensures CanRun(f, HexReply(rect, f, reply, s))
    ensures Drive(libs, f, HexReply(rect, f, reply, s), data)
            == match HM.Drive(ShapeOf(rect, f), reply, data)
               case More => More
               case Bad(why) => Stop(BadHextile(why), s)
               case Done(pixels, rest) => Painted(pixels, f, s, rest)
    decreases |data|, if reply.Ask? && HM.Want(ShapeOf(rect, f), reply.hex) == 0 then 1 else 0
  {
    hide RgbImages, HM.Resume, HM.Valid, HM.Want, ResumeTight, ResumeMessage;
    match reply
    case Complete(_) =>
    case Raise(_) =>
    case Ask(hex) =>
      var shape := ShapeOf(rect, f);
      var n := HM.Want(shape, hex);
      DriveAsks(libs, f, s, HexPart(rect, hex), data);
      if n <= |data| {
        if n == 0 { HM.NothingThenSomething(shape, hex, data[..n]); }
        HexIsDriven(libs, f, s, rect, HM.Resume(shape, hex, data[..n]), data[n..]);
      }
  }

  lemma HextileIsRead(libs: Libraries, f: Format, s: Shared, rect: Rect, data: seq<byte>)
    requires RgbImages(libs)
    ensures var shape := ShapeOf(rect, f);
            var reply := HexReply(rect, f, HM.Tile(shape, 0, 0, HextileTile.NOTHING_CARRIED, Zeros(shape.Size())), s);
            CanRun(f, reply) && Drive(libs, f, reply, data) == ReadHextile(f, s, rect, data)
  {
    hide RgbImages, HM.Tile, HM.Drive, HextileRect.ReadTiles, Drive, CanRun, HexReply;
    var shape := ShapeOf(rect, f);
    HexIsDriven(libs, f, s, rect, HM.Tile(shape, 0, 0, HextileTile.NOTHING_CARRIED, Zeros(shape.Size())), data);
    HM.MachineReadsTiles(shape, 0, 0, HextileTile.NOTHING_CARRIED, data, Zeros(shape.Size()));
  }

  // ---------------------------------------------------------------- Tight

  lemma CompactExtends(b: seq<byte>, more: seq<byte>)
    requires CompactLength(b).Some?
    ensures CompactLength(b + more) == Some((CompactLength(b).value.0, CompactLength(b).value.1 + more))
  {
    var whole := b + more;
    assert whole[1..] == b[1..] + more;
    if |b| >= 2 { assert whole[2..] == b[2..] + more; }
    if |b| >= 3 { assert whole[3..] == b[3..] + more; }
  }

  lemma LastDigit(digits: seq<byte>, d: byte)
    requires CompactLength(digits).None? && CompactLength(digits + [d]).Some?
    ensures CompactLength(digits + [d]).value.1 == []
  {
  }

  lemma {:induction false} LengthIsDriven(libs: Libraries, f: Format, s: Shared, rect: Rect, plan: TightPlan,
                                          digits: seq<byte>, data: seq<byte>)
    requires RgbImages(libs) && ValidPlan(f, rect, plan) && CompactLength(digits).None?
    ensures Drive(libs, f, Just(Ask(TightLength(rect, plan, digits)), s), data)
            == match CompactLength(digits + data)
               case None => More
               case Some((n, block)) => Drive(libs, f, Just(Ask(TightBlock(rect, plan, n)), s), block)
    decreases |data|
  {
    hide RgbImages, ValidPlan, CompactLength, Drive;
    DriveAsks(libs, f, s, TightLength(rect, plan, digits), data);
    if data == [] {
      assert digits + data == digits;
    } else {
      var d, rest := data[0], data[1..];
      assert data[..1] == [d] && (digits + [d]) + rest == digits + data;
      if CompactLength(digits + [d]).None? {
        LengthIsDriven(libs, f, s, rect, plan, digits + [d], rest);
      } else {
        LastDigit(digits, d);
        CompactExtends(digits + [d], rest);
        assert [] + rest == rest;
      }
    }
  }

  lemma {:induction false} JpegLengthIsDriven(libs: Libraries, f: Format, s: Shared, rect: Rect, digits: seq<byte>,
                                              data: seq<byte>)
    requires RgbImages(libs) && CompactLength(digits).None?
    ensures Drive(libs, f, Just(Ask(TightJpegLength(rect, digits)), s), data)
            == match CompactLength(digits + data)
               case None => More
               case Some((n, block)) => Drive(libs, f, Just(Ask(TightJpeg(rect, n)), s), block)
    decreases |data|
  {
    hide RgbImages, CompactLength, Drive;
    DriveAsks(libs, f, s, TightJpegLength(rect, digits), data);
    if data == [] {
      assert digits + data == digits;
    } else {
      var d, rest := data[0], data[1..];
      assert data[..1] == [d] && (digits + [d]) + rest == digits + data;
      if CompactLength(digits + [d]).None? {
        JpegLengthIsDriven(libs, f, s, rect, digits + [d], rest);
      } else {
        LastDigit(digits, d);
        CompactExtends(digits + [d], rest);
        assert [] + rest == rest;
      }
    }
  }

  lemma JpegIsRead(libs: Libraries, f: Format, s: Shared, rect: Rect, data: seq<byte>)
    requires RgbImages(libs)
    ensures Drive(libs, f, Just(Ask(TightJpegLength(rect, [])), s), data) == ReadJpeg(libs, s, rect, data)
  {
    hide RgbImages, CompactLength, Drive;
    NoDigits();
    assert [] + data == data;
    JpegLengthIsDriven(libs, f, s, rect, [], data);
    var length := CompactLength(data);
    if length.Some? { PictureIsRead(libs, f, s, rect, length.value.0, length.value.1); }
  }

  lemma PictureIsRead(libs: Libraries, f: Format, s: Shared, rect: Rect, n: nat, data: seq<byte>)
    requires RgbImages(libs)
    ensures Drive(libs, f, Just(Ask(TightJpeg(rect, n)), s), data)
            == if |data| < n then More
               else
                 match libs.jpeg(data[..n])
                 case None => Stop(BadJpeg, s)
                 case Some(image) =>
                   if image.width != rect.w || image.height != rect.h then Stop(BadJpeg, s)
                   else Painted(image.rgb, TPIXEL_FORMAT, s, data[n..])
  {
    hide RgbImages;
    DriveAsks(libs, f, s, TightJpeg(rect, n), data);
  }

  lemma NoDigits()
    ensures CompactLength([]) == None
  {
  }

  lemma FinishIsRead(libs: Libraries, f: Format, s: Shared, rect: Rect, plan: TightPlan, data: seq<byte>,
                     rest: seq<byte>)
    requires RgbImages(libs) && ValidPlan(f, rect, plan) && |data| == plan.size
    ensures CanRun(f, FinishTight(f, s, rect, plan, data))
    ensures Drive(libs, f, FinishTight(f, s, rect, plan, data), rest) == Unfiltered(f, s, rect, plan, data, rest)
  {
    hide RgbImages, Unpalette, OutputFormat;
  }

  lemma TightDataIsRead(libs: Libraries, f: Format, s: Shared, rect: Rect, plan: TightPlan, data: seq<byte>)
    requires RgbImages(libs) && ValidPlan(f, rect, plan)
    ensures CanRun(f, TightData(f, s, rect, plan))
    ensures Drive(libs, f, TightData(f, s, rect, plan), data) == ReadTightData(libs, f, s, rect, plan, data)
  {
    hide RgbImages, ValidPlan, CompactLength, FinishTight, Unfiltered, Drive;
    if plan.size == 0 {
      assert data[..0] == [] && data[0..] == data;
      FinishIsRead(libs, f, s, rect, plan, [], data);
    } else if plan.size < MIN_TO_COMPRESS {
      DriveAsks(libs, f, s, TightRaw(rect, plan), data);
      if |data| >= plan.size { FinishIsRead(libs, f, s, rect, plan, data[..plan.size], data[plan.size..]); }
    } else {
      NoDigits();
      assert [] + data == data;
      LengthIsDriven(libs, f, s, rect, plan, [], data);
      var length := CompactLength(data);
      if length.Some? { BlockIsRead(libs, f, s, rect, plan, length.value.0, length.value.1); }
    }
  }

  lemma BlockIsRead(libs: Libraries, f: Format, s: Shared, rect: Rect, plan: TightPlan, n: nat, data: seq<byte>)
    requires RgbImages(libs) && ValidPlan(f, rect, plan)
    ensures Drive(libs, f, Just(Ask(TightBlock(rect, plan, n)), s), data)
            == if |data| < n then More
               else
                 var history := s.tight[plan.stream] + [Inflation(data[..n], plan.size)];
                 var after := s.(tight := s.tight[plan.stream := history]);
                 match libs.inflateTight(history)
                 case None => Stop(InflateFailed, after)
                 case Some(inflated) =>
                   if |inflated| != plan.size then Stop(BadTightSize, after)
                   else Unfiltered(f, after, rect, plan, inflated, data[n..])
  {
    hide RgbImages, FinishTight, Unfiltered;
    DriveAsks(libs, f, s, TightBlock(rect, plan, n), data);
    if |data| >= n {
      var history := s.tight[plan.stream] + [Inflation(data[..n], plan.size)];
      var after := s.(tight := s.tight[plan.stream := history]);
      var out := libs.inflateTight(history);
      if out.Some? && |out.value| == plan.size { FinishIsRead(libs, f, after, rect, plan, out.value, data[n..]); }
    }
  }

  lemma DriveStops(libs: Libraries, f: Format, s: Shared, why: Why, data: seq<byte>)
    requires RgbImages(libs)
    ensures Drive(libs, f, Just(Raise(why), s), data) == Stop(why, s)
  {
  }

  lemma FilterIsRead(libs: Libraries, f: Format, s: Shared, rect: Rect, stream: nat, data: seq<byte>)
    requires RgbImages(libs) && stream < 4
    ensures Drive(libs, f, Just(Ask(TightFilter(rect, stream)), s), data)
            == ReadTightFilter(libs, f, s, rect, stream, data)
  {
    hide RgbImages, TightData, ReadTightData, RowBytes, TPixelBytes, ZrleDecoder.Cut, Drive, Unpalette, OutputFormat;
    DriveAsks(libs, f, s, TightFilter(rect, stream), data);
    if data != [] {
      assert data[..1] == [data[0]];
      if data[0] == 0 {
        TightDataIsRead(libs, f, s, rect, CopyPlan(f, rect, stream), data[1..]);
      } else if data[0] == 1 {
        PaletteIsRead(libs, f, s, rect, stream, data[1..]);
        if |data| >= 2 {
          assert data[1..][1..] == data[2..];
          var last: nat := data[1];
          ColoursAreRead(libs, f, s, rect, stream, last + 1, data[2..]);
        }
      } else {
        DriveStops(libs, f, s, BadTightFilter, data[1..]);
      }
    }
  }

  /** The palette itself, and then the data. */
  lemma ColoursAreRead(libs: Libraries, f: Format, s: Shared, rect: Rect, stream: nat, count: nat, data: seq<byte>)
    requires RgbImages(libs) && stream < 4 && 1 <= count <= 256
    ensures Drive(libs, f, Just(Ask(TightPalette(rect, stream, count)), s), data)
            == (var n := count * TPixelBytes(f);
                if |data| < n then More
                else
                  var palette := ZrleDecoder.Cut(data[..n], count, TPixelBytes(f));
                  ReadTightData(libs, f, s, rect, TightPlan(stream, Some(palette), rect.h * RowBytes(count, rect.w)),
                                data[n..]))
  {
    hide RgbImages, TightData, ReadTightData, RowBytes, TPixelBytes, Drive;
    DriveAsks(libs, f, s, TightPalette(rect, stream, count), data);
    var n := count * TPixelBytes(f);
    if |data| >= n {
      var palette := ZrleDecoder.Cut(data[..n], count, TPixelBytes(f));
      TightDataIsRead(libs, f, s, rect, TightPlan(stream, Some(palette), rect.h * RowBytes(count, rect.w)), data[n..]);
    }
  }

  lemma PaletteIsRead(libs: Libraries, f: Format, s: Shared, rect: Rect, stream: nat, data: seq<byte>)
    requires RgbImages(libs) && stream < 4
    ensures Drive(libs, f, Just(Ask(TightPaletteSize(rect, stream)), s), data)
            == if data == [] then More
               else
                 var last: nat := data[0];
                 Drive(libs, f, Just(Ask(TightPalette(rect, stream, last + 1)), s), data[1..])
  {
    hide RgbImages, TPixelBytes, Drive;
    DriveAsks(libs, f, s, TightPaletteSize(rect, stream), data);
    if data != [] { assert data[..1] == [data[0]]; }
  }

  lemma ResumeControl(libs: Libraries, f: Format, s: Shared, rect: Rect, block: seq<byte>)
    requires |block| == 1
    ensures Resume(libs, f, s, TightControl(rect), block) == ResumeTightControl(libs, f, s, rect, block[0])
  {
    hide ResumeTightControl;
  }

  lemma FillIsRead(libs: Libraries, f: Format, s: Shared, rect: Rect, data: seq<byte>)
    requires RgbImages(libs)
    ensures Drive(libs, f, Just(Ask(TightFill(rect)), s), data)
            == (var n := TPixelBytes(f);
                if |data| < n then More else Painted(Times(data[..n], rect.w * rect.h), OutputFormat(f), s, data[n..]))
  {
    hide RgbImages, TPixelBytes, Times, OutputFormat;
    DriveAsks(libs, f, s, TightFill(rect), data);
  }

  lemma TightIsRead(libs: Libraries, f: Format, s: Shared, rect: Rect, data: seq<byte>)
    requires RgbImages(libs)
    ensures Drive(libs, f, Just(Ask(TightControl(rect)), s), data) == ReadTight(libs, f, s, rect, data)
  {
    hide RgbImages, Resume, ResumeTightControl, ReadTight;
    DriveAsks(libs, f, s, TightControl(rect), data);
    if data == [] {
      NothingIsRead(libs, f, s, rect);
    } else {
      assert data[..1] == [data[0]];
      ResumeControl(libs, f, s, rect, data[..1]);
      ControlIsRead(libs, f, s, rect, data);
    }
  }

  lemma NothingIsRead(libs: Libraries, f: Format, s: Shared, rect: Rect)
    ensures ReadTight(libs, f, s, rect, []) == More
  {
  }

  lemma ControlIsRead(libs: Libraries, f: Format, s: Shared, rect: Rect, data: seq<byte>)
    requires RgbImages(libs) && data != []
    ensures CanRun(f, ResumeTightControl(libs, f, s, rect, data[0]))
    ensures Drive(libs, f, ResumeTightControl(libs, f, s, rect, data[0]), data[1..])
            == ReadTight(libs, f, s, rect, data)
  {
    hide RgbImages, TightData, ReadTightData, ReadTightFilter, ReadJpeg, TPixelBytes, ResetStreams, Times, OutputFormat,
         Resume;
    var after, kind: nat, rest := s.(tight := ResetStreams(data[0], s.tight)), data[0] / 16, data[1..];
    if kind == 8 {
      FillIsRead(libs, f, after, rect, rest);
    } else if rect.w <= MAX_TIGHT_WIDTH {
      if kind == 9 { JpegIsRead(libs, f, after, rect, rest); }
      else if kind < 4 { TightDataIsRead(libs, f, after, rect, CopyPlan(f, rect, kind), rest); }
      else if kind < 8 { FilterIsRead(libs, f, after, rect, kind - 4, rest); }
    }
  }

  // ---------------------------------------------------------------- any rectangle, any message

  /** Starting a decoder and feeding it its blocks reads the body a plain reader reads, for every encoding. */
  lemma BodyIsRead(libs: Libraries, f: Format, s: Shared, encoding: int, rect: Rect, data: seq<byte>)
    requires RgbImages(libs)
    ensures CanRun(f, Start(f, s, encoding, rect))
    ensures Drive(libs, f, Start(f, s, encoding, rect), data) == ReadBody(libs, f, s, encoding, rect, data)
  {
    hide RgbImages, HM.Tile, HM.Valid, ReadRaw, ReadHextile, ReadZrle, ReadTight, ReadRre, ReadCopy, ReadCursor;
    StartStaysInRect(f, s, encoding, rect);
    if IsPixels(encoding) {
      if RequireFits(s, rect.w, rect.h) { PixelsAreRead(libs, f, s, encoding, rect, data); }
    } else if encoding == COPY_RECT {
      CopyIsRead(libs, f, s, rect, data);
    } else if encoding == CURSOR {
      CursorIsRead(libs, f, s, rect, data);
    }
  }

  lemma PixelsAreRead(libs: Libraries, f: Format, s: Shared, encoding: int, rect: Rect, data: seq<byte>)
    requires RgbImages(libs) && IsPixels(encoding) && RequireFits(s, rect.w, rect.h)
    ensures CanRun(f, Start(f, s, encoding, rect))
    ensures Drive(libs, f, Start(f, s, encoding, rect), data) == ReadPixels(libs, f, s, encoding, rect, data)
  {
    hide RgbImages, HM.Tile, HM.Valid, ReadRaw, ReadHextile, ReadZrle, ReadTight, ReadRre, Drive;
    if encoding == RAW { RawIsRead(libs, f, s, rect, data); }
    else if encoding == HEXTILE { HextileIsRead(libs, f, s, rect, data); }
    else if encoding == ZRLE { ZrleIsRead(libs, f, s, rect, data); }
    else if encoding == TIGHT { TightIsRead(libs, f, s, rect, data); }
    else { RreIsRead(libs, f, s, rect, encoding == CORRE, data); }
  }

  lemma MessageIsRead(libs: Libraries, f: Format, s: Shared, message: nat, data: seq<byte>)
    requires RgbImages(libs)
    ensures CanRun(f, StartMessage(s, message))
    ensures Drive(libs, f, StartMessage(s, message), data) == ReadMessage(s, message, data)
  {
    hide RgbImages, Resume;
    if message == 1 { ColourMapIsRead(libs, f, s, data); }
    else if message == 3 { CutTextIsRead(libs, f, s, data); }
    else if message == 248 { FenceIsRead(libs, f, s, data); }
  }

  lemma ColourMapIsRead(libs: Libraries, f: Format, s: Shared, data: seq<byte>)
    requires RgbImages(libs)
    ensures Drive(libs, f, Just(Ask(ColourHead), s), data) == ReadMessage(s, 1, data)
  {
    hide RgbImages, ResumeTight;
    DriveAsks(libs, f, s, ColourHead, data);
    if |data| >= 5 {
      assert data[..5][1..3] == data[1..3] && data[..5][3..5] == data[3..5];
      DriveAsks(libs, f, s, ColourBody(U16(data[1..3]), U16(data[3..5])), data[5..]);
    }
  }

  lemma CutTextIsRead(libs: Libraries, f: Format, s: Shared, data: seq<byte>)
    requires RgbImages(libs)
    ensures Drive(libs, f, Just(Ask(CutHead), s), data) == ReadMessage(s, 3, data)
  {
    hide RgbImages, ResumeTight;
    DriveAsks(libs, f, s, CutHead, data);
    if |data| >= 7 {
      assert data[..7][3..7] == data[3..7];
      DriveAsks(libs, f, s, CutBody(U32(data[3..7])), data[7..]);
    }
  }

  lemma FenceIsRead(libs: Libraries, f: Format, s: Shared, data: seq<byte>)
    requires RgbImages(libs)
    ensures Drive(libs, f, Just(Ask(FenceHead), s), data) == ReadMessage(s, 248, data)
  {
    hide RgbImages, ResumeTight, Fence;
    DriveAsks(libs, f, s, FenceHead, data);
    if |data| >= 8 {
      assert data[..8][3..7] == data[3..7] && data[..8][7] == data[7];
      var n: nat := data[7];
      if n == 0 {
        assert data[8..][..0] == [] && data[8..][0..] == data[8..];
      } else {
        DriveAsks(libs, f, s, FenceBody(U32(data[3..7]), n), data[8..]);
      }
    }
  }
}
