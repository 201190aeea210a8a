/**
  `HextileDecoder.decodePixels` of vncdotool/decoders/hextile.py over a rectangle buffer, each `yield` a take from
  the stream.
 */
module HextileDecoder {
  import opened Arith
  import opened Bytes
  import opened Grid
  import opened Tiles
  import opened HextileTile
  import opened HextileRect
  import opened RectBuffer

  datatype Outcome = Incomplete | Failed(why: Reason) | Finished

  /** Subrectangles read so far, followed by those still to come. */
  function After(done: seq<Sub>, rest: Option<seq<Sub>>): Option<seq<Sub>> {
    match rest case None => None case Some(subs) => Some(done + subs)
  }

  lemma SubsStep(sub: byte, bypp: nat, foreground: seq<byte>, tw: nat, th: nat, count: nat, head: seq<byte>,
                 more: seq<byte>, done: seq<Sub>)
    requires 0 < count && |head| == SubSize(sub, bypp)
    ensures var x := HeadSub(sub, bypp, foreground, head);
            After(done, ReadSubs(sub, bypp, foreground, tw, th, count, head + more))
            == if SubFits(x, tw, th)
               then After(done + [x], ReadSubs(sub, bypp, foreground, tw, th, count - 1, more))
               else None
  {
    hide HeadSub, SubFits;
    assert (head + more)[..|head|] == head && (head + more)[|head|..] == more;
    var x := HeadSub(sub, bypp, foreground, head);
    var rest := ReadSubs(sub, bypp, foreground, tw, th, count - 1, more);
    if rest.Some? { assert done + ([x] + rest.value) == (done + [x]) + rest.value; }
  }

  lemma SubsEnd(sub: byte, bypp: nat, foreground: seq<byte>, tw: nat, th: nat, done: seq<Sub>, rest: seq<byte>)
    ensures After(done, ReadSubs(sub, bypp, foreground, tw, th, 0, rest)) == Some(done)
  {
    assert done + [] == done;
  }

  /** Every subrectangle of `subs` may be filled over tile (tx, ty). */
  ghost predicate Fillable(s: Shape, tx: nat, ty: nat, subs: seq<Sub>) {
    forall i :: 0 <= i < |subs| ==>
      |subs[i].colour| == s.bypp && Fits(s, tx + subs[i].x, ty + subs[i].y, subs[i].w, subs[i].h)
  }

  /** One more subrectangle. */
  method FillOne(target: RectBuffer, tx: nat, ty: nat, x: Sub, ghost base: seq<byte>, ghost done: seq<Sub>)
    requires target.Valid() && |base| == target.shape.Size() && Fillable(target.shape, tx, ty, done)
    requires target.View() == FillSubs(base, target.shape, tx, ty, done)
    requires |x.colour| == target.shape.bypp && Fits(target.shape, tx + x.x, ty + x.y, x.w, x.h)
    modifies target, target.backing
    ensures target.Valid() && target.covered && target.Beyond() == old(target.Beyond())
    ensures Fillable(target.shape, tx, ty, done + [x])
    ensures target.View() == FillSubs(base, target.shape, tx, ty, done + [x])
  {
    FillSubsAppend(base, target.shape, tx, ty, done, x);
    hide Fill, FillSubs, Fillable;
    var ok := target.FillRect(tx + x.x, ty + x.y, x.w, x.h, x.colour);
  }

  lemma FillSubsAppend(g: seq<byte>, s: Shape, tx: nat, ty: nat, done: seq<Sub>, x: Sub)
    requires |g| == s.Size() && Fillable(s, tx, ty, done)
    requires |x.colour| == s.bypp && Fits(s, tx + x.x, ty + x.y, x.w, x.h)
    ensures Fillable(s, tx, ty, done + [x])
    ensures FillSubs(g, s, tx, ty, done + [x])
            == Fill(FillSubs(g, s, tx, ty, done), s, tx + x.x, ty + x.y, x.w, x.h, x.colour)
  {
    hide Fill, Fits;
    assert (done + [x])[..|done + [x]| - 1] == done;
  }

  /** The next subrectangle: refused where it overflows its tile, filled otherwise. */
  method FillNext(target: RectBuffer, tx: nat, ty: nat, tw: nat, th: nat, x: Sub, ghost base: seq<byte>,
                  ghost done: seq<Sub>)
    returns (ok: bool)
    requires target.Valid() && Fits(target.shape, tx, ty, tw, th) && |x.colour| == target.shape.bypp
    requires |base| == target.shape.Size() && Fillable(target.shape, tx, ty, done)
    requires target.covered && target.View() == FillSubs(base, target.shape, tx, ty, done)
    modifies target, target.backing
    ensures target.Valid() && target.covered && target.Beyond() == old(target.Beyond())
    ensures ok <==> SubFits(x, tw, th)
    ensures ok ==> Fillable(target.shape, tx, ty, done + [x])
                   && target.View() == FillSubs(base, target.shape, tx, ty, done + [x])
  {
    hide FillSubs, Fillable;
    ok := SubFits(x, tw, th);
    if ok {
      FillOne(target, tx, ty, x, base, done);
    }
  }

  /** The subrectangle at the head of what is left, filled if it fits. */
  method FillHead(target: RectBuffer, tx: nat, ty: nat, tw: nat, th: nat, sub: byte, foreground: seq<byte>,
                  ghost count: nat, left: seq<byte>, ghost base: seq<byte>, ghost done: seq<Sub>)
    returns (ok: bool, ghost x: Sub)
    requires target.Valid() && target.covered && Fits(target.shape, tx, ty, tw, th)
    requires count > 0 && SubSize(sub, target.shape.bypp) <= |left|
    requires !ColouredBit(sub) ==> |foreground| == target.shape.bypp
    requires |base| == target.shape.Size() && Fillable(target.shape, tx, ty, done)
    requires target.View() == FillSubs(base, target.shape, tx, ty, done)
    modifies target, target.backing
    ensures target.Valid() && target.covered && target.Beyond() == old(target.Beyond())
    ensures After(done, ReadSubs(sub, target.shape.bypp, foreground, tw, th, count, left))
            == if ok
               then After(done + [x], ReadSubs(sub, target.shape.bypp, foreground, tw, th, count - 1,
                                               left[SubSize(sub, target.shape.bypp)..]))
               else None
    ensures ok ==> Fillable(target.shape, tx, ty, done + [x])
                   && target.View() == FillSubs(base, target.shape, tx, ty, done + [x])
  {
    hide *;
    var size := SubSize(sub, target.shape.bypp);
    var head, more := left[..size], left[size..];
    assert left == head + more;
    SubsStep(sub, target.shape.bypp, foreground, tw, th, count, head, more, done);
    var y := HeadSub(sub, target.shape.bypp, foreground, head);
    x := y;
    HeadWidth(sub, target.shape.bypp, foreground, head);
    ok := FillNext(target, tx, ty, tw, th, y, base, done);
  }

  /** The subrectangles of a tile at (tx, ty), checked against the tile and filled one by one. */
  method FillAll(target: RectBuffer, tx: nat, ty: nat, tw: nat, th: nat, sub: byte, foreground: seq<byte>, count: nat,
                 data: seq<byte>)
    returns (ok: bool)
    requires target.Valid() && target.covered && Fits(target.shape, tx, ty, tw, th)
    requires |data| == SubSize(sub, target.shape.bypp) * count
    requires count > 0 && !ColouredBit(sub) ==> |foreground| == target.shape.bypp
    modifies target, target.backing
    ensures target.Valid() && target.covered && target.Beyond() == old(target.Beyond())
    ensures match ReadSubs(sub, target.shape.bypp, foreground, tw, th, count, data)
            case None => !ok
            case Some(subs) => ok && Fillable(target.shape, tx, ty, subs)
                               && target.View() == FillSubs(old(target.View()), target.shape, tx, ty, subs)
  {
    ghost var base := target.View();
    ghost var done: seq<Sub> := [];
    var size := SubSize(sub, target.shape.bypp);
    var left := data;
    NoSubsYet(ReadSubs(sub, target.shape.bypp, foreground, tw, th, count, data));
    FillNone(base, target.shape, tx, ty);
    assert |left| == Product(size, count);
    hide *;
    for i := 0 to count
      invariant target.Valid() && target.covered && target.Beyond() == old(target.Beyond())
      invariant |left| == Product(size, count - i)
      invariant Fillable(target.shape, tx, ty, done)
      invariant ReadSubs(sub, target.shape.bypp, foreground, tw, th, count, data)
                == After(done, ReadSubs(sub, target.shape.bypp, foreground, tw, th, count - i, left))
      invariant target.View() == FillSubs(base, target.shape, tx, ty, done)
    {
      ProductStep(size, count - i);
      ghost var x;
      ok, x := FillHead(target, tx, ty, tw, th, sub, foreground, count - i, left, base, done);
      if !ok {
        return;
      }
      done := done + [x];
      left := left[size..];
    }
    SubsEnd(sub, target.shape.bypp, foreground, tw, th, done, left);
    ok := true;
  }

  lemma HeadWidth(sub: byte, bypp: nat, foreground: seq<byte>, head: seq<byte>)
    requires |head| == SubSize(sub, bypp) && (!ColouredBit(sub) ==> |foreground| == bypp)
    ensures |HeadSub(sub, bypp, foreground, head).colour| == bypp
  {
  }

  lemma NoSubsYet(r: Option<seq<Sub>>)
    ensures After([], r) == r
  {
    if r.Some? { assert [] + r.value == r.value; }
  }

  lemma FillNone(g: seq<byte>, s: Shape, tx: nat, ty: nat)
    requires |g| == s.Size()
    ensures FillSubs(g, s, tx, ty, []) == g && Fillable(s, tx, ty, [])
  {
  }

  // ---------------------------------------------------------------- tiles

  /** A painted tile: background first, then its subrectangles. */
  method PaintTile(target: RectBuffer, r: nat, c: nat, sub: byte, next: Carried, count: nat, block: seq<byte>)
    returns (ok: bool)
    requires target.Valid() && r * TILE < target.shape.height && c * TILE < target.shape.width
    requires |next.background| == target.shape.bypp && |block| == SubSize(sub, target.shape.bypp) * count
    requires count > 0 && !ColouredBit(sub) ==> |next.foreground| == target.shape.bypp
    modifies target, target.backing
    ensures target.Valid() && target.covered && target.Beyond() == old(target.Beyond())
    ensures var s := target.shape;
            var w, h := Extent(s.width, TILE, c), Extent(s.height, TILE, r);
            match ReadSubs(sub, s.bypp, next.foreground, w, h, count, block)
            case None => !ok
            case Some(subs) => ok && ValidTile(Painted(next.background, subs), s.bypp, w, h)
                               && target.View() == ApplyTile(old(target.View()), s, r, c,
                                                             Painted(next.background, subs))
  {
    var s := target.shape;
    var w, h := Extent(s.width, TILE, c), Extent(s.height, TILE, r);
    SubsWidth(sub, s.bypp, next.foreground, w, h, count, block);
    hide Fill, FillSubs, ReadSubs, Extent, Shape.Size, HeadSub, SubSize;
    var filled := target.FillRect(c * TILE, r * TILE, w, h, next.background);
    ok := FillAll(target, c * TILE, r * TILE, w, h, sub, next.foreground, count, block);
  }

  /** Subrectangles at `start`, over a tile whose header has been read. */
  method DecodeBlock(target: RectBuffer, r: nat, c: nat, sub: byte, next: Carried, count: nat, data: seq<byte>,
                     start: nat)
    returns (outcome: Outcome, pos: nat)
    requires target.Valid() && r * TILE < target.shape.height && c * TILE < target.shape.width
    requires |next.background| == target.shape.bypp && start <= |data|
    requires count > 0 && !ColouredBit(sub) ==> |next.foreground| == target.shape.bypp
    modifies target, target.backing
    ensures target.Valid() && target.Beyond() == old(target.Beyond())
    ensures var s := target.shape;
            var w, h := Extent(s.width, TILE, c), Extent(s.height, TILE, r);
            match ReadBlock(next, s.bypp, w, h, sub, count, data[start..])
            case More => outcome == Incomplete
            case Bad(why) => outcome == Failed(why)
            case Got(t, _, rest) =>
              outcome == Finished && pos <= |data| && rest == data[pos..] && ValidTile(t, s.bypp, w, h)
              && target.covered && target.View() == ApplyTile(old(target.View()), s, r, c, t)
  {
    hide ReadSubs, ApplyTile, Extent, SubSize, Shape.Size;
    var need := SubSize(sub, target.shape.bypp) * count;
    pos := start;
    if |data| < pos + need {
      return Incomplete, pos;
    }
    assert data[pos..][..need] == data[pos..pos + need] && data[pos..][need..] == data[pos + need..];
    var ok := PaintTile(target, r, c, sub, next, count, data[pos..pos + need]);
    return if ok then Finished else Failed(SubrectOverflows), pos + need;
  }

  /** The header block of a tile: its colours, or those carried to it, and whether subrectangles follow. */
  method DecodeHeader(carried: Carried, sub: byte, bypp: nat, block: seq<byte>) returns (header: Header)
    requires |block| == HeaderSize(sub, bypp)
    ensures header == ReadHeader(carried, sub, bypp, block)
  {
    var background, foreground, pos := carried.background, carried.foreground, 0;
    if BackgroundBit(sub) {
      background, pos := block[..bypp], bypp;
    }
    if background == [] {
      return Refused(NoBackground);
    }
    if ForegroundBit(sub) {
      foreground, pos := block[pos..pos + bypp], pos + bypp;
    }
    if !SubrectsBit(sub) {
      return Plain(Carried(background, foreground));
    }
    var count := block[pos];
    if count > 0 && !ColouredBit(sub) && foreground == [] {
      return Refused(NoForeground);
    }
    return Subrects(Carried(background, foreground), count);
  }

  /** A tile that is not raw. */
  method DecodePainted(target: RectBuffer, r: nat, c: nat, carried: Carried, sub: byte, data: seq<byte>, start: nat)
    returns (outcome: Outcome, next: Carried, pos: nat)
    requires target.Valid() && r * TILE < target.shape.height && c * TILE < target.shape.width
    requires ValidCarried(carried, target.shape.bypp) && start <= |data|
    modifies target, target.backing
    ensures target.Valid() && target.Beyond() == old(target.Beyond())
    ensures var s := target.shape;
            var w, h := Extent(s.width, TILE, c), Extent(s.height, TILE, r);
            match ReadPainted(carried, s.bypp, w, h, sub, data[start..])
            case More => outcome == Incomplete
            case Bad(why) => outcome == Failed(why)
            case Got(t, after, rest) =>
              outcome == Finished && next == after && pos <= |data| && rest == data[pos..]
              && ValidTile(t, s.bypp, w, h) && target.covered
              && target.View() == ApplyTile(old(target.View()), s, r, c, t)
  {
    hide ReadSubs, ReadHeader, ReadBlock, ApplyTile, Extent, HeaderSize, Shape.Size;
    next, pos := carried, start;
    var wanted := HeaderSize(sub, target.shape.bypp);
    if |data| < pos + wanted {
      return Incomplete, next, pos;
    }
    var block := data[pos..pos + wanted];
    assert data[pos..][..wanted] == block && data[pos..][wanted..] == data[pos + wanted..];
    HeaderCarries(carried, sub, target.shape.bypp, block);
    var header := DecodeHeader(carried, sub, target.shape.bypp, block);
    pos := pos + wanted;
    if header.Refused? {
      return Failed(header.why), next, pos;
    }
    next := header.carried;
    if header.Plain? {
      NoSubs(sub, target.shape.bypp, next.foreground, Extent(target.shape.width, TILE, c),
             Extent(target.shape.height, TILE, r));
      var ok := PaintTile(target, r, c, sub, next, 0, []);
      return Finished, next, pos;
    }
    outcome, pos := DecodeBlock(target, r, c, sub, next, header.count, data, pos);
    BlockCarries(next, target.shape.bypp, sub, header.count);
    if ColouredBit(sub) { next := Carried(next.background, []); }
  }

  lemma BlockCarries(next: Carried, bypp: nat, sub: byte, count: nat)
    ensures forall tw: nat, th: nat, rest: seq<byte> ::
              ReadBlock(next, bypp, tw, th, sub, count, rest).Got? ==>
                ReadBlock(next, bypp, tw, th, sub, count, rest).carried == AfterSubs(sub, next)
  {
  }

  /** Reads tile `(r, c)` at `start`: each block is taken only if the stream holds all of it. */
  method DecodeTile(target: RectBuffer, r: nat, c: nat, carried: Carried, data: seq<byte>, start: nat)
    returns (outcome: Outcome, next: Carried, pos: nat)
    requires target.Valid() && r * TILE < target.shape.height && c * TILE < target.shape.width
    requires ValidCarried(carried, target.shape.bypp) && start <= |data|
    modifies target, target.backing
    ensures target.Valid() && target.Beyond() == old(target.Beyond())
    ensures var s := target.shape;
            var w, h := Extent(s.width, TILE, c), Extent(s.height, TILE, r);
            match ReadTile(carried, s.bypp, w, h, data[start..])
            case More => outcome == Incomplete
            case Bad(why) => outcome == Failed(why)
            case Got(t, after, rest) =>
              outcome == Finished && next == after && pos <= |data| && rest == data[pos..]
              && ValidTile(t, s.bypp, w, h) && target.covered
              && target.View() == ApplyTile(old(target.View()), s, r, c, t)
  {
    hide ReadSubs, ReadHeader, ApplyTile, Extent, HeaderSize, SubSize, Shape.Size, Shape.Stride, ReadPainted, ReadBlock,
         SubFits, ValidTile, ReadRaw;
    outcome, next, pos := Incomplete, carried, start;
    if start == |data| {
      return;
    }
    var sub := data[start];
    pos := start + 1;
    assert data[start..][0] == sub && data[start..][1..] == data[pos..];
    if RawBit(sub) {
      outcome, pos := DecodeRaw(target, r, c, data, pos);
      next := NOTHING_CARRIED;
      RawTileIsRead(target.shape, r, c, carried, data[start..]);
    } else {
      outcome, next, pos := DecodePainted(target, r, c, carried, sub, data, pos);
    }
  }

  /** The raw pixels of tile `(r, c)` at the front of `body`. */
  function ReadRaw(s: Shape, r: nat, c: nat, body: seq<byte>): (read: Read)
    requires r * TILE < s.height && c * TILE < s.width
    ensures read.Got? ==> ValidTile(read.tile, s.bypp, Extent(s.width, TILE, c), Extent(s.height, TILE, r))
  {
    var size := Extent(s.width, TILE, c) * Extent(s.height, TILE, r) * s.bypp;
    if |body| < size then Read.More else Read.Got(RawTile(body[..size]), NOTHING_CARRIED, body[size..])
  }

  lemma RawTileIsRead(s: Shape, r: nat, c: nat, carried: Carried, data: seq<byte>)
    requires r * TILE < s.height && c * TILE < s.width && data != [] && RawBit(data[0])
    ensures ReadTile(carried, s.bypp, Extent(s.width, TILE, c), Extent(s.height, TILE, r), data)
            == ReadRaw(s, r, c, data[1..])
  {
    hide Extent, ReadPainted;
  }

  method DecodeRaw(target: RectBuffer, r: nat, c: nat, data: seq<byte>, start: nat) returns (outcome: Outcome, pos: nat)
    requires target.Valid() && r * TILE < target.shape.height && c * TILE < target.shape.width && start <= |data|
    modifies target, target.backing
    ensures target.Valid() && target.Beyond() == old(target.Beyond())
    ensures match ReadRaw(target.shape, r, c, data[start..])
            case More => outcome == Incomplete
            case Bad(_) => false
            case Got(t, after, rest) =>
              outcome == Finished && after == NOTHING_CARRIED && pos <= |data| && rest == data[pos..] && target.covered
              && target.View() == ApplyTile(old(target.View()), target.shape, r, c, t)
  {
    hide ApplyTile, Extent, Shape.Size, Shape.Stride;
    var size := Extent(target.shape.width, TILE, c) * Extent(target.shape.height, TILE, r) * target.shape.bypp;
    outcome, pos := Incomplete, start;
    if |data| < start + size {
      return;
    }
    BlitTile(target, r, c, data[start..start + size]);
    assert data[start..][..size] == data[start..start + size] && data[start..][size..] == data[start + size..];
    return Finished, start + size;
  }

  lemma NoSubs(sub: byte, bypp: nat, foreground: seq<byte>, tw: nat, th: nat)
    ensures ReadSubs(sub, bypp, foreground, tw, th, 0, []) == Some([]) && SubSize(sub, bypp) * 0 == 0
  {
  }

  method BlitTile(target: RectBuffer, r: nat, c: nat, pixels: seq<byte>)
    requires target.Valid() && r * TILE < target.shape.height && c * TILE < target.shape.width
    requires |pixels| == Extent(target.shape.width, TILE, c) * Extent(target.shape.height, TILE, r) * target.shape.bypp
    modifies target, target.backing
    ensures target.Valid() && target.covered && target.Beyond() == old(target.Beyond())
    ensures target.View() == ApplyTile(old(target.View()), target.shape, r, c, RawTile(pixels))
  {
    var s := target.shape;
    var ok := target.BlitRect(c * TILE, r * TILE, Extent(s.width, TILE, c), Extent(s.height, TILE, r), pixels);
  }

  // ---------------------------------------------------------------- the rectangle

  /** One row of tiles. */
  method DecodeTileRow(target: RectBuffer, r: nat, carried: Carried, data: seq<byte>, start: nat)
    returns (outcome: Outcome, next: Carried, pos: nat)
    requires target.Valid() && r * TILE < target.shape.height
    requires ValidCarried(carried, target.shape.bypp) && start <= |data|
    modifies target, target.backing
    ensures target.Valid() && target.Beyond() == old(target.Beyond())
    ensures var before := ReadTiles(target.shape, r, 0, carried, data[start..], old(target.View()));
            match outcome
            case Incomplete => before == RectRead.More
            case Failed(why) => before == RectRead.Bad(why)
            case Finished => pos <= |data| && ValidCarried(next, target.shape.bypp)
                             && before == ReadTiles(target.shape, r + 1, 0, next, data[pos..], target.View())
    ensures outcome == Finished && (target.shape.width > 0 || old(target.covered)) ==> target.covered
  {
    hide ReadTile, ApplyTile, Extent, Shape.Size, ValidCarried;
    var c: nat := 0;
    next, pos := carried, start;
    while c * TILE < target.shape.width
      invariant target.Valid() && target.Beyond() == old(target.Beyond())
      invariant pos <= |data| && ValidCarried(next, target.shape.bypp)
      invariant ReadTiles(target.shape, r, 0, carried, data[start..], old(target.View()))
                == ReadTiles(target.shape, r, c, next, data[pos..], target.View())
      invariant c > 0 || old(target.covered) ==> target.covered
      decreases target.shape.width - c * TILE
    {
      TileIsValid(next, target.shape.bypp, Extent(target.shape.width, TILE, c), Extent(target.shape.height, TILE, r),
                  data[pos..]);
      outcome, next, pos := DecodeTile(target, r, c, next, data, pos);
      if outcome != Finished {
        return;
      }
      c := c + 1;
    }
    outcome := Finished;
  }

  /** `decodePixels`: on an accepted stream, the tile-by-tile rectangle and exactly the bytes it took. */
  method DecodePixels(target: RectBuffer, data: seq<byte>) returns (outcome: Outcome, pos: nat)
    requires target.Valid()
    modifies target, target.backing
    ensures target.Valid() && target.Beyond() == old(target.Beyond())
    ensures match ReadTiles(target.shape, 0, 0, NOTHING_CARRIED, data, old(target.View()))
            case More => outcome == Incomplete
            case Bad(why) => outcome == Failed(why)
            case Done(g, rest) => outcome == Finished && pos <= |data| && rest == data[pos..] && target.View() == g
                                  && (target.shape.Size() > 0 ==> target.covered)
  {
    hide ReadTile, ApplyTile, Extent, ValidCarried;
    var r: nat := 0;
    var carried := NOTHING_CARRIED;
    pos := 0;
    assert data[0..] == data && ValidCarried(carried, target.shape.bypp) by { NothingIsValid(target.shape.bypp); }
    while r * TILE < target.shape.height
      invariant target.Valid() && target.Beyond() == old(target.Beyond())
      invariant pos <= |data| && ValidCarried(carried, target.shape.bypp)
      invariant ValidCarried(NOTHING_CARRIED, target.shape.bypp)
      invariant ReadTiles(target.shape, 0, 0, NOTHING_CARRIED, data, old(target.View()))
                == ReadTiles(target.shape, r, 0, carried, data[pos..], target.View())
      invariant r > 0 && target.shape.width > 0 ==> target.covered
      decreases target.shape.height - r * TILE
    {
      outcome, carried, pos := DecodeTileRow(target, r, carried, data, pos);
      if outcome != Finished {
        return;
      }
      r := r + 1;
    }
    outcome := Finished;
  }

  lemma NothingIsValid(bypp: nat)
    ensures ValidCarried(NOTHING_CARRIED, bypp)
  {
  }

  /** A rectangle decoded into a buffer over a reused backing, and its bytes. */
  method DecodeRect(shape: Shape, reused: array<byte>, data: seq<byte>)
    returns (outcome: Outcome, bytes: seq<byte>, pos: nat)
    modifies reused
    ensures match ReadTiles(shape, 0, 0, NOTHING_CARRIED, data, Zeros(shape.Size()))
            case More => outcome == Incomplete
            case Bad(why) => outcome == Failed(why)
            case Done(g, rest) => outcome == Finished && bytes == g && pos <= |data| && rest == data[pos..]
    ensures forall i :: shape.Size() <= i < reused.Length ==> reused[i] == old(reused[i])
  {
    hide ReadTiles, Shape.Size;
    ghost var before := reused[..];
    var target := BufferFor(shape, reused);
    outcome, pos := DecodePixels(target, data);
    SameTail(before, reused[..], shape.Size());
    bytes := [];
    if outcome == Finished {
      bytes := target.ToBytes();
    }
  }
}
