/**
  Hextile tiles (section 7.7.4 of RFC 6143) as vncdotool/decoders/hextile.py reads them: the pieces between
  two requests for bytes, a tile read in one go, and the pixels a tile stands for.
 */
module HextileTile {
  import opened Bytes
  import opened Grid

  const TILE: nat := 16

  /** Flag bits of a tile's subencoding. */
  predicate RawBit(sub: byte) { sub % 2 == 1 }
  predicate BackgroundBit(sub: byte) { sub / 2 % 2 == 1 }
  predicate ForegroundBit(sub: byte) { sub / 4 % 2 == 1 }
  predicate SubrectsBit(sub: byte) { sub / 8 % 2 == 1 }
  predicate ColouredBit(sub: byte) { sub / 16 % 2 == 1 }

  /** The colours carried from tile to tile; empty is none. */
  datatype Carried = Carried(background: seq<byte>, foreground: seq<byte>)

  const NOTHING_CARRIED := Carried([], [])

  datatype Reason = NoBackground | NoForeground | SubrectOverflows

  /** A subrectangle in tile coordinates. */
  datatype Sub = Sub(x: nat, y: nat, w: nat, h: nat, colour: seq<byte>)

  datatype Tile = RawTile(pixels: seq<byte>) | Painted(background: seq<byte>, subs: seq<Sub>)

  /** Bytes of background, foreground and subrectangle count that follow a subencoding. */
  function HeaderSize(sub: byte, bypp: nat): nat {
    (if BackgroundBit(sub) then bypp else 0) + (if ForegroundBit(sub) then bypp else 0)
    + (if SubrectsBit(sub) then 1 else 0)
  }

  /** What the header block of a tile leads to. */
  datatype Header =
    | Refused(why: Reason)
    | Plain(carried: Carried)                     // the tile is its background
    | Subrects(carried: Carried, count: nat)      // that many subrectangles follow

  function ReadHeader(carried: Carried, sub: byte, bypp: nat, block: seq<byte>): (h: Header)
    requires |block| == HeaderSize(sub, bypp)
    ensures !h.Refused? ==> h.carried.background != []
  {
    var background := if BackgroundBit(sub) then block[..bypp] else carried.background;
    var pos := if BackgroundBit(sub) then bypp else 0;
    if background == [] then Refused(NoBackground)
    else
      var foreground := if ForegroundBit(sub) then block[pos..pos + bypp] else carried.foreground;
      var next := if ForegroundBit(sub) then pos + bypp else pos;
      if !SubrectsBit(sub) then Plain(Carried(background, foreground))
      else
        var count := block[next];
        if count > 0 && !ColouredBit(sub) && foreground == [] then Refused(NoForeground)
        else Subrects(Carried(background, foreground), count)
  }

  /** Bytes per subrectangle. */
  function SubSize(sub: byte, bypp: nat): nat { if ColouredBit(sub) then bypp + 2 else 2 }

  /** The subrectangle at the head of `data`. */
  function HeadSub(sub: byte, bypp: nat, foreground: seq<byte>, data: seq<byte>): Sub
    requires SubSize(sub, bypp) <= |data|
  {
    var at := if ColouredBit(sub) then bypp else 0;
    var xy: nat, wh: nat := data[at], data[at + 1];
    Sub(xy / 16, xy % 16, wh / 16 + 1, wh % 16 + 1, if ColouredBit(sub) then data[..bypp] else foreground)
  }

  predicate SubFits(x: Sub, tw: nat, th: nat) { x.x + x.w <= tw && x.y + x.h <= th }

  /** All `count` subrectangles of a tile, None where one overflows it (or is missing). */
  function ReadSubs(sub: byte, bypp: nat, foreground: seq<byte>, tw: nat, th: nat, count: nat,
                    data: seq<byte>): (r: Option<seq<Sub>>)
    ensures r.Some? ==> |r.value| == count && forall i :: 0 <= i < count ==> SubFits(r.value[i], tw, th)
    decreases count
  {
    var size := SubSize(sub, bypp);
    if count == 0 then Some([])
    else if |data| < size then None
    else
      var head := HeadSub(sub, bypp, foreground, data[..size]);
      if !SubFits(head, tw, th) then None
      else match ReadSubs(sub, bypp, foreground, tw, th, count - 1, data[size..])
        case None => None
        case Some(rest) => Some([head] + rest)
  }

  /** What is carried past a tile with subrectangles: coloured ones spend the foreground. */
  function AfterSubs(sub: byte, carried: Carried): Carried {
    if ColouredBit(sub) then carried.(foreground := []) else carried
  }

  // ---------------------------------------------------------------- a tile in one go

  datatype Read = More | Bad(why: Reason) | Got(tile: Tile, carried: Carried, rest: seq<byte>)

  /** The subrectangles of a tile whose header said there are `count`. */
  function ReadBlock(next: Carried, bypp: nat, tw: nat, th: nat, sub: byte, count: nat, rest: seq<byte>): Read {
    var need := SubSize(sub, bypp) * count;
    if |rest| < need then More
    else match ReadSubs(sub, bypp, next.foreground, tw, th, count, rest[..need])
      case None => Bad(SubrectOverflows)
      case Some(subs) => Got(Painted(next.background, subs), AfterSubs(sub, next), rest[need..])
  }

  /** What follows the subencoding of a tile that is not raw. */
  function ReadPainted(carried: Carried, bypp: nat, tw: nat, th: nat, sub: byte, body: seq<byte>): Read {
    var n := HeaderSize(sub, bypp);
    if |body| < n then More
    else match ReadHeader(carried, sub, bypp, body[..n])
      case Refused(why) => Bad(why)
      case Plain(next) => Got(Painted(next.background, []), next, body[n..])
      case Subrects(next, count) => ReadBlock(next, bypp, tw, th, sub, count, body[n..])
  }

  /** A tile read from the front of a stream; More where the stream ends inside it. */
  function ReadTile(carried: Carried, bypp: nat, tw: nat, th: nat, data: seq<byte>): Read {
    if data == [] then More
    else
      var sub, body := data[0], data[1..];
      if !RawBit(sub) then ReadPainted(carried, bypp, tw, th, sub, body)
      else if |body| < tw * th * bypp then More
      else Got(RawTile(body[..tw * th * bypp]), NOTHING_CARRIED, body[tw * th * bypp..])
  }

  // ---------------------------------------------------------------- what a tile stands for

  /** The colour of tile pixel (x, y): the last subrectangle covering it, or the background. */
  function ColourAt(background: seq<byte>, subs: seq<Sub>, x: nat, y: nat): seq<byte> {
    if subs == [] then background
    else
      var last := subs[|subs| - 1];
      if Inside(x, y, last.x, last.y, last.w, last.h) then last.colour
      else ColourAt(background, subs[..|subs| - 1], x, y)
  }

  predicate ValidTile(t: Tile, bypp: nat, tw: nat, th: nat) {
    match t
    case RawTile(pixels) => |pixels| == tw * th * bypp
    case Painted(background, subs) =>
      |background| == bypp
      && forall i :: 0 <= i < |subs| ==> SubFits(subs[i], tw, th) && |subs[i].colour| == bypp
  }

  function PixelOf(t: Tile, bypp: nat, tw: nat, th: nat, i: nat): seq<byte>
    requires ValidTile(t, bypp, tw, th) && i < tw * th
  {
    match t
    case RawTile(pixels) => (NthInRange(i, tw * th, bypp); Nth(pixels, bypp, i))
    case Painted(background, subs) => if tw == 0 then background else ColourAt(background, subs, i % tw, i / tw)
  }

  /** Carried colours are single pixels, or none. */
  predicate ValidCarried(c: Carried, bypp: nat) {
    (c.background == [] || |c.background| == bypp) && (c.foreground == [] || |c.foreground| == bypp)
  }

  lemma HeaderCarries(carried: Carried, sub: byte, bypp: nat, block: seq<byte>)
    requires |block| == HeaderSize(sub, bypp) && ValidCarried(carried, bypp)
    ensures var h := ReadHeader(carried, sub, bypp, block);
            !h.Refused? ==> ValidCarried(h.carried, bypp) && |h.carried.background| == bypp
    ensures var h := ReadHeader(carried, sub, bypp, block);
            h.Subrects? && h.count > 0 && !ColouredBit(sub) ==> |h.carried.foreground| == bypp
  {
  }

  lemma {:induction false} SubsWidth(sub: byte, bypp: nat, foreground: seq<byte>, tw: nat, th: nat, count: nat,
                                     data: seq<byte>)
    requires count > 0 && !ColouredBit(sub) ==> |foreground| == bypp
    ensures var r := ReadSubs(sub, bypp, foreground, tw, th, count, data);
            r.Some? ==> forall i :: 0 <= i < count ==> |r.value[i].colour| == bypp
    decreases count
  {
    var size := SubSize(sub, bypp);
    var r := ReadSubs(sub, bypp, foreground, tw, th, count, data);
    if r.Some? && count > 0 {
      assert |r.value[0].colour| == bypp;
      SubsWidth(sub, bypp, foreground, tw, th, count - 1, data[size..]);
      forall i | 0 < i < count
        ensures |r.value[i].colour| == bypp
      {
        assert r.value[i] == ReadSubs(sub, bypp, foreground, tw, th, count - 1, data[size..]).value[i - 1];
      }
    }
  }

  predicate ValidRead(r: Read, bypp: nat, tw: nat, th: nat) {
    r.Got? ==> ValidTile(r.tile, bypp, tw, th) && ValidCarried(r.carried, bypp)
  }

  lemma BlockIsValid(next: Carried, bypp: nat, tw: nat, th: nat, sub: byte, count: nat, rest: seq<byte>)
    requires ValidCarried(next, bypp) && |next.background| == bypp
    requires count > 0 && !ColouredBit(sub) ==> |next.foreground| == bypp
    ensures ValidRead(ReadBlock(next, bypp, tw, th, sub, count, rest), bypp, tw, th)
  {
    hide ReadSubs, SubFits, SubSize;
    var need := SubSize(sub, bypp) * count;
    if |rest| >= need { SubsWidth(sub, bypp, next.foreground, tw, th, count, rest[..need]); }
  }

  /** Every tile read is one the painter understands, and the colours it leaves are too. */
  lemma TileIsValid(carried: Carried, bypp: nat, tw: nat, th: nat, data: seq<byte>)
    requires ValidCarried(carried, bypp)
    ensures var r := ReadTile(carried, bypp, tw, th, data);
            r.Got? ==> ValidTile(r.tile, bypp, tw, th) && ValidCarried(r.carried, bypp)
  {
    hide ReadHeader, ReadBlock, HeaderSize, SubFits;
    if data != [] && !RawBit(data[0]) {
      var sub, body := data[0], data[1..];
      var n := HeaderSize(sub, bypp);
      if n <= |body| {
        HeaderCarries(carried, sub, bypp, body[..n]);
        var h := ReadHeader(carried, sub, bypp, body[..n]);
        if h.Subrects? { BlockIsValid(h.carried, bypp, tw, th, sub, h.count, body[n..]); }
      }
    }
  }
}
