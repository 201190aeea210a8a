/**
  The Hextile decoder as the pump sees it: a generator stopped at one of four requests for bytes. Driven over
  a stream it reads exactly what `HextileRect.ReadTiles` reads in one go.
 */
module HextileMachine {
  import opened Arith
  import opened Bytes
  import opened Grid
  import opened Tiles
  import opened HextileTile
  import opened HextileRect

  /** What the next block is: a subencoding, raw pixels, a header, or subrectangles. */
  datatype Phase =
    | Subencoding
    | RawPixels
    | HeaderOf(sub: byte)
    | Block(sub: byte, next: Carried, count: nat)

  /** The suspended generator at tile `(r, c)`, with the buffer it paints into. */
  datatype Hex = Hex(r: nat, c: nat, carried: Carried, grid: seq<byte>, phase: Phase)

  datatype Reply = Ask(hex: Hex) | Complete(grid: seq<byte>) | Raise(why: Reason)

  /** A generator between the tiles of a rectangle it can paint. */
  predicate Valid(s: Shape, h: Hex) {
    && h.r * TILE < s.height && h.c * TILE < s.width
    && |h.grid| == s.Size() && ValidCarried(h.carried, s.bypp)
    && (h.phase.Block? ==>
          |h.phase.next.background| == s.bypp && ValidCarried(h.phase.next, s.bypp)
          && (h.phase.count > 0 && !ColouredBit(h.phase.sub) ==> |h.phase.next.foreground| == s.bypp))
    && (h.phase.HeaderOf? ==> HeaderSize(h.phase.sub, s.bypp) > 0)
  }

  predicate ValidReply(s: Shape, reply: Reply) {
    match reply case Ask(h) => Valid(s, h) case Complete(g) => |g| == s.Size() case Raise(_) => true
  }

  function Want(s: Shape, h: Hex): nat
    requires Valid(s, h)
  {
    match h.phase
    case Subencoding => 1
    case RawPixels => Extent(s.width, TILE, h.c) * Extent(s.height, TILE, h.r) * s.bypp
    case HeaderOf(sub) => HeaderSize(sub, s.bypp)
    case Block(sub, _, count) => SubSize(sub, s.bypp) * count
  }

  /** The generator runs on to the next tile's subencoding, or returns. */
  function Tile(s: Shape, r: nat, c: nat, carried: Carried, g: seq<byte>): (reply: Reply)
    requires |g| == s.Size() && ValidCarried(carried, s.bypp)
    ensures ValidReply(s, reply)
    decreases s.height - r * TILE, s.width - c * TILE
  {
    if r * TILE >= s.height then Complete(g)
    else if c * TILE >= s.width then Tile(s, r + 1, 0, carried, g)
    else Ask(Hex(r, c, carried, g, Subencoding))
  }

  /** A painted tile is applied and the generator moves on. */
  function Painted(s: Shape, h: Hex, t: HextileTile.Tile, carried: Carried): (reply: Reply)
    requires Valid(s, h) && ValidCarried(carried, s.bypp)
    requires ValidTile(t, s.bypp, Extent(s.width, TILE, h.c), Extent(s.height, TILE, h.r))
    ensures ValidReply(s, reply)
  {
    Tile(s, h.r, h.c + 1, carried, ApplyTile(h.grid, s, h.r, h.c, t))
  }

  /** What follows the header of a tile. */
  function AfterHeader(s: Shape, h: Hex, sub: byte, block: seq<byte>): (reply: Reply)
    requires Valid(s, h) && |block| == HeaderSize(sub, s.bypp)
    ensures ValidReply(s, reply)
  {
    HeaderCarries(h.carried, sub, s.bypp, block);
    match ReadHeader(h.carried, sub, s.bypp, block)
    case Refused(why) => Raise(why)
    case Plain(next) => Painted(s, h, HextileTile.Painted(next.background, []), next)
    case Subrects(next, count) => Ask(h.(phase := Block(sub, next, count)))
  }

  /** One resumption. */
  function Resume(s: Shape, h: Hex, block: seq<byte>): (reply: Reply)
    requires Valid(s, h) && |block| == Want(s, h)
    ensures ValidReply(s, reply)
  {
    match h.phase
    case Subencoding =>
      if RawBit(block[0]) then Ask(h.(phase := RawPixels))
      else if HeaderSize(block[0], s.bypp) > 0 then Ask(h.(phase := HeaderOf(block[0])))
      else AfterHeader(s, h, block[0], [])
    case RawPixels => Painted(s, h, RawTile(block), NOTHING_CARRIED)
    case HeaderOf(sub) => AfterHeader(s, h, sub, block)
    case Block(sub, next, count) =>
      SubsWidth(sub, s.bypp, next.foreground, Extent(s.width, TILE, h.c), Extent(s.height, TILE, h.r), count, block);
      match ReadSubs(sub, s.bypp, next.foreground, Extent(s.width, TILE, h.c), Extent(s.height, TILE, h.r), count,
                     block)
      case None => Raise(SubrectOverflows)
      case Some(subs) =>
        Painted(s, h, HextileTile.Painted(next.background, subs), AfterSubs(sub, next))
  }

  // ---------------------------------------------------------------- against the reading in one go

  /** A request for nothing is followed by a request for something, or by the end. */
  lemma NothingThenSomething(s: Shape, h: Hex, block: seq<byte>)
    requires Valid(s, h) && Want(s, h) == 0 && |block| == 0
    ensures var reply := Resume(s, h, block); reply.Ask? ==> Want(s, reply.hex) > 0
  {
    hide ReadSubs, ApplyTile, Extent, Shape.Size, HeaderSize, SubSize, ReadHeader;
    assert h.phase.RawPixels? || h.phase.Block?;
    TileAsksOne(s, h.r, h.c + 1);
  }

  lemma {:induction false} TileAsksOne(s: Shape, r: nat, c: nat)
    ensures forall carried: Carried, g: seq<byte> :: |g| == s.Size() && ValidCarried(carried, s.bypp) ==>
              var reply := Tile(s, r, c, carried, g); reply.Ask? ==> reply.hex.phase == Subencoding
    decreases s.height - r * TILE, s.width - c * TILE
  {
    hide ValidCarried, Shape.Size;
    if r * TILE < s.height && c * TILE >= s.width {
      TileAsksOne(s, r + 1, 0);
    }
  }

  /** The generator given its blocks from the front of a stream. */
  function Drive(s: Shape, reply: Reply, data: seq<byte>): RectRead
    requires ValidReply(s, reply)
    decreases |data|, if reply.Ask? && Want(s, reply.hex) == 0 then 1 else 0
  {
    match reply
    case Complete(g) => Done(g, data)
    case Raise(why) => RectRead.Bad(why)
    case Ask(h) =>
      var n := Want(s, h);
      if |data| < n then RectRead.More
      else
        assert n == 0 ==> (var next := Resume(s, h, data[..n]); next.Ask? ==> Want(s, next.hex) > 0) by {
          if n == 0 { NothingThenSomething(s, h, data[..n]); }
        }
        Drive(s, Resume(s, h, data[..n]), data[n..])
  }

  /** Where a tile read in one go leaves the generator. */
  function Onward(s: Shape, h: Hex, read: Read): RectRead
    requires Valid(s, h)
    requires read.Got? ==> ValidCarried(read.carried, s.bypp)
                           && ValidTile(read.tile, s.bypp, Extent(s.width, TILE, h.c), Extent(s.height, TILE, h.r))
  {
    match read
    case More => RectRead.More
    case Bad(why) => RectRead.Bad(why)
    case Got(t, next, rest) => Drive(s, Painted(s, h, t, next), rest)
  }

  lemma BlockIsRead(s: Shape, h: Hex, data: seq<byte>)
    requires Valid(s, h) && h.phase.Block?
    ensures var read := ReadBlock(h.phase.next, s.bypp, Extent(s.width, TILE, h.c), Extent(s.height, TILE, h.r),
                                  h.phase.sub, h.phase.count, data);
            (read.Got? ==> ValidCarried(read.carried, s.bypp)
                           && ValidTile(read.tile, s.bypp, Extent(s.width, TILE, h.c), Extent(s.height, TILE, h.r)))
            && Drive(s, Ask(h), data) == Onward(s, h, read)
  {
    hide ReadSubs, ApplyTile, Extent, Shape.Size, SubSize, Painted;
    var need := Want(s, h);
    if need <= |data| {
      SubsWidth(h.phase.sub, s.bypp, h.phase.next.foreground, Extent(s.width, TILE, h.c),
                Extent(s.height, TILE, h.r), h.phase.count, data[..need]);
    }
  }

  lemma HeaderIsRead(s: Shape, h: Hex, sub: byte, data: seq<byte>)
    requires Valid(s, h) && HeaderSize(sub, s.bypp) <= |data|
    ensures var read := ReadPainted(h.carried, s.bypp, Extent(s.width, TILE, h.c), Extent(s.height, TILE, h.r), sub,
                                    data);
            var n := HeaderSize(sub, s.bypp);
            (read.Got? ==> ValidCarried(read.carried, s.bypp)
                           && ValidTile(read.tile, s.bypp, Extent(s.width, TILE, h.c), Extent(s.height, TILE, h.r)))
            && Drive(s, AfterHeader(s, h, sub, data[..n]), data[n..]) == Onward(s, h, read)
  {
    hide ReadSubs, ReadHeader, ReadBlock, ApplyTile, Extent, Shape.Size, SubSize, HeaderSize, Painted;
    var n := HeaderSize(sub, s.bypp);
    HeaderCarries(h.carried, sub, s.bypp, data[..n]);
    var header := ReadHeader(h.carried, sub, s.bypp, data[..n]);
    if header.Subrects? {
      BlockIsRead(s, h.(phase := Block(sub, header.carried, header.count)), data[n..]);
      PaintedIgnoresPhase(s, h, h.(phase := Block(sub, header.carried, header.count)));
    }
  }

  lemma PaintedIgnoresPhase(s: Shape, h: Hex, k: Hex)
    requires Valid(s, h) && Valid(s, k) && k == h.(phase := k.phase)
    ensures forall t: HextileTile.Tile, next: Carried ::
              ValidCarried(next, s.bypp) && ValidTile(t, s.bypp, Extent(s.width, TILE, h.c),
                                                      Extent(s.height, TILE, h.r)) ==>
                Painted(s, h, t, next) == Painted(s, k, t, next)
  {
  }

  lemma TileIsRead(s: Shape, h: Hex, data: seq<byte>)
    requires Valid(s, h) && h.phase == Subencoding
    ensures var read := ReadTile(h.carried, s.bypp, Extent(s.width, TILE, h.c), Extent(s.height, TILE, h.r), data);
            (read.Got? ==> ValidCarried(read.carried, s.bypp)
                           && ValidTile(read.tile, s.bypp, Extent(s.width, TILE, h.c), Extent(s.height, TILE, h.r)))
            && Drive(s, Ask(h), data) == Onward(s, h, read)
  {
    TileIsValid(h.carried, s.bypp, Extent(s.width, TILE, h.c), Extent(s.height, TILE, h.r), data);
    hide ReadPainted, ApplyTile, Extent, Shape.Size, Painted, AfterHeader;
    if data != [] {
      var sub, body := data[0], data[1..];
      assert data[..1] == [sub];
      if RawBit(sub) {
        RawIsRead(s, h, body);
      } else if HeaderSize(sub, s.bypp) == 0 {
        assert body[..0] == [] && body[0..] == body;
        HeaderIsRead(s, h, sub, body);
      } else {
        var k := h.(phase := HeaderOf(sub));
        if HeaderSize(sub, s.bypp) <= |body| {
          HeaderIsRead(s, k, sub, body);
          PaintedIgnoresPhase(s, h, k);
        } else {
          assert ReadPainted(h.carried, s.bypp, Extent(s.width, TILE, h.c), Extent(s.height, TILE, h.r), sub,
                             body).More? by {
            ShortHeader(h.carried, s.bypp, Extent(s.width, TILE, h.c), Extent(s.height, TILE, h.r), sub, body);
          }
        }
      }
    }
  }

  lemma ShortHeader(carried: Carried, bypp: nat, tw: nat, th: nat, sub: byte, body: seq<byte>)
    requires |body| < HeaderSize(sub, bypp)
    ensures ReadPainted(carried, bypp, tw, th, sub, body).More?
  {
  }

  /** How many bytes a raw tile has. */
  function RawSize(s: Shape, h: Hex): (n: nat)
    requires Valid(s, h)
  {
    MulMono(0, Extent(s.width, TILE, h.c) * Extent(s.height, TILE, h.r), s.bypp);
    Extent(s.width, TILE, h.c) * Extent(s.height, TILE, h.r) * s.bypp
  }

  lemma RawIsRead(s: Shape, h: Hex, body: seq<byte>)
    requires Valid(s, h)
    ensures var size := RawSize(s, h);
            Drive(s, Ask(h.(phase := RawPixels)), body)
            == if |body| < size then RectRead.More
               else Drive(s, Painted(s, h, RawTile(body[..size]), NOTHING_CARRIED), body[size..])
  {
    hide Painted, Extent;
    PaintedIgnoresPhase(s, h, h.(phase := RawPixels));
  }

  /** The suspended generator refines the reading of the rectangle in one go, from any tile on. */
  lemma {:induction false} MachineReadsTiles(s: Shape, r: nat, c: nat, carried: Carried, data: seq<byte>, g: seq<byte>)
    requires |g| == s.Size() && ValidCarried(carried, s.bypp)
    ensures Drive(s, Tile(s, r, c, carried, g), data) == ReadTiles(s, r, c, carried, data, g)
    decreases s.height - r * TILE, s.width - c * TILE
  {
    hide ApplyTile, Extent, Shape.Size, ReadTile, ValidCarried, ValidTile;
    if r * TILE >= s.height {
    } else if c * TILE >= s.width {
      MachineReadsTiles(s, r + 1, 0, carried, data, g);
    } else {
      var h := Hex(r, c, carried, g, Subencoding);
      TileIsRead(s, h, data);
      var read := ReadTile(carried, s.bypp, Extent(s.width, TILE, c), Extent(s.height, TILE, r), data);
      if read.Got? {
        MachineReadsTiles(s, r, c + 1, read.carried, read.rest, ApplyTile(g, s, r, c, read.tile));
      }
    }
  }
}
