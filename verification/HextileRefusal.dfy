/**
  Which Hextile rectangles vncdotool/decoders/hextile.py refuses, said of the stream's tiles cut by their lengths
  alone: the first tile at fault decides, and a rectangle without one is read as soon as it is there.
 */
module HextileRefusal {
  import opened Arith
  import opened Bytes
  import opened Grid
  import opened Tiles
  import opened HextileTile
  import opened HextileRect
  import opened HextileCarry

  // ---------------------------------------------------------------- tiles, the last one perhaps not all there

  /** A tile whose subrectangles have not all arrived can be refused for its header. */
  function HeadOf(bypp: nat, data: seq<byte>): Option<Token> {
    if data == [] || RawBit(data[0]) || |data| - 1 < HeaderSize(data[0], bypp) then None
    else Some(Token(data[0], data[1..1 + HeaderSize(data[0], bypp)], []))
  }

  /** The tiles from `(r, c)` on that can be judged: those that are there, and the header of the one after them. */
  function Heads(s: Shape, r: nat, c: nat, data: seq<byte>): seq<Token>
    decreases s.height - r * TILE, s.width - c * TILE
  {
    if r * TILE >= s.height then []
    else if c * TILE >= s.width then Heads(s, r + 1, 0, data)
    else
      match ReadToken(s.bypp, Extent(s.width, TILE, c), Extent(s.height, TILE, r), data)
      case Some((t, rest)) => [t] + Heads(s, r, c + 1, rest)
      case None => match HeadOf(s.bypp, data) case None => [] case Some(t) => [t]
  }

  // ---------------------------------------------------------------- what is wrong with a tile

  function SubCount(t: Token): nat { if SubrectsBit(t.sub) && t.header != [] then t.header[|t.header| - 1] else 0 }

  predicate NeedsForeground(t: Token) { SubCount(t) > 0 && !ColouredBit(t.sub) }

  /** No foreground is in force after the tiles. */
  ghost predicate Colourless(tokens: seq<Token>) { forall j: nat :: !ForegroundFrom(tokens, |tokens|, j) }

  /** Subrectangle `i` of a block stays inside the tile. */
  predicate SubFitsAt(block: seq<byte>, sub: byte, bypp: nat, i: nat, tw: nat, th: nat) {
    var at := SubSize(sub, bypp) * i;
    at + SubSize(sub, bypp) <= |block| ==> SubFits(HeadSub(sub, bypp, [], block[at..at + SubSize(sub, bypp)]), tw, th)
  }

  predicate AllFit(block: seq<byte>, sub: byte, bypp: nat, count: nat, tw: nat, th: nat) {
    forall i :: 0 <= i < count ==> SubFitsAt(block, sub, bypp, i, tw, th)
  }

  /** The tile's block is there and one of its subrectangles leaves the tile. */
  predicate Overflows(t: Token, bypp: nat, tw: nat, th: nat) {
    |t.block| == SubSize(t.sub, bypp) * SubCount(t) && !AllFit(t.block, t.sub, bypp, SubCount(t), tw, th)
  }

  /** How far tile number `at` of a row or column reaches. */
  function Reach(len: nat, at: nat): nat { if at * TILE < len then Extent(len, TILE, at) else 0 }

  function TileWidth(s: Shape, k: nat): nat {
    if Count(s.width, TILE) == 0 then 0 else Reach(s.width, k % Count(s.width, TILE))
  }

  function TileHeight(s: Shape, k: nat): nat {
    if Count(s.width, TILE) == 0 then 0 else Reach(s.height, k / Count(s.width, TILE))
  }

  /** What is wrong with the last of some tiles, the first of a rectangle. */
  ghost function Fault(s: Shape, tokens: seq<Token>): Option<Reason>
    requires tokens != []
  {
    var k, t := |tokens| - 1, tokens[|tokens| - 1];
    if Raw(t) then None
    else if s.bypp == 0 || Bare(tokens) then Some(NoBackground)
    else if NeedsForeground(t) && !HasForeground(t) && Colourless(tokens[..k]) then Some(NoForeground)
    else if Overflows(t, s.bypp, TileWidth(s, k), TileHeight(s, k)) then Some(SubrectOverflows)
    else None
  }

  ghost predicate Sound(s: Shape, tokens: seq<Token>, k: nat) { k < |tokens| ==> Fault(s, tokens[..k + 1]) == None }

  /** From tile `from` on, the first fault is `why`. */
  ghost predicate Refuses(s: Shape, tokens: seq<Token>, from: nat, why: Reason) {
    exists k: nat :: FirstFault(s, tokens, from, k, why)
  }

  ghost predicate FirstFault(s: Shape, tokens: seq<Token>, from: nat, k: nat, why: Reason) {
    && from <= k < |tokens| && Fault(s, tokens[..k + 1]) == Some(why)
    && forall i: nat :: from <= i < k ==> Sound(s, tokens, i)
  }

  // ---------------------------------------------------------------- one tile

  lemma {:induction false} SubsFail(sub: byte, bypp: nat, foreground: seq<byte>, tw: nat, th: nat, count: nat,
                                    data: seq<byte>)
    requires |data| == SubSize(sub, bypp) * count
    ensures ReadSubs(sub, bypp, foreground, tw, th, count, data).None? <==> !AllFit(data, sub, bypp, count, tw, th)
    decreases count
  {
    if count > 0 {
      MulAdd(1, count - 1, SubSize(sub, bypp));
      SubsFail(sub, bypp, foreground, tw, th, count - 1, data[SubSize(sub, bypp)..]);
      FirstSub(sub, bypp, foreground, tw, th, count, data);
      AllFitStep(data, sub, bypp, count, tw, th);
      hide SubSize, AllFit, SubFitsAt, ReadSubs;
    }
  }

  lemma AllFitStep(data: seq<byte>, sub: byte, bypp: nat, count: nat, tw: nat, th: nat)
    requires count > 0 && SubSize(sub, bypp) <= |data|
    ensures AllFit(data, sub, bypp, count, tw, th)
            <==> SubFitsAt(data, sub, bypp, 0, tw, th) && AllFit(data[SubSize(sub, bypp)..], sub, bypp, count - 1, tw,
                                                                 th)
  {
    var rest := data[SubSize(sub, bypp)..];
    forall i: nat ensures SubFitsAt(data, sub, bypp, i + 1, tw, th) == SubFitsAt(rest, sub, bypp, i, tw, th) {
      SubShifts(data, sub, bypp, i, tw, th);
    }
    hide SubSize, SubFitsAt;
    if SubFitsAt(data, sub, bypp, 0, tw, th) && AllFit(rest, sub, bypp, count - 1, tw, th) {
      forall i | 0 <= i < count ensures SubFitsAt(data, sub, bypp, i, tw, th) {
        if i > 0 { assert SubFitsAt(rest, sub, bypp, i - 1, tw, th); }
      }
    }
  }

  lemma FirstSub(sub: byte, bypp: nat, foreground: seq<byte>, tw: nat, th: nat, count: nat, data: seq<byte>)
    requires count > 0 && SubSize(sub, bypp) <= |data|
    ensures ReadSubs(sub, bypp, foreground, tw, th, count, data).None?
            <==> !SubFitsAt(data, sub, bypp, 0, tw, th)
                 || ReadSubs(sub, bypp, foreground, tw, th, count - 1, data[SubSize(sub, bypp)..]).None?
  {
    var size := SubSize(sub, bypp);
    assert size * 0 == 0 && data[size * 0..size * 0 + size] == data[..size];
  }

  lemma SubShifts(data: seq<byte>, sub: byte, bypp: nat, i: nat, tw: nat, th: nat)
    requires SubSize(sub, bypp) <= |data|
    ensures SubFitsAt(data, sub, bypp, i + 1, tw, th) == SubFitsAt(data[SubSize(sub, bypp)..], sub, bypp, i, tw, th)
  {
    var size, rest := SubSize(sub, bypp), data[SubSize(sub, bypp)..];
    MulAdd(i, 1, size);
    var at := size * i;
    assert size * (i + 1) == at + size;
    hide SubSize, SubFits, HeadSub;
    if at + size <= |rest| { assert rest[at..at + size] == data[at + size..at + size + size]; }
  }

  /** What is read of a tile whose header is there, by what is carried to it. */
  lemma PaintedDecides(carried: Carried, bypp: nat, tw: nat, th: nat, t: Token, body: seq<byte>)
    requires !Raw(t) && |t.header| == HeaderSize(t.sub, bypp) <= |body| && body[..|t.header|] == t.header
    requires var n := BlockSize(t.sub, bypp, t.header);
             t.block == if |body| - |t.header| < n then [] else body[|t.header|..][..n]
    ensures var read := ReadPainted(carried, bypp, tw, th, t.sub, body);
            var b, f := Background(t, bypp, carried), Foreground(t, bypp, carried);
            && (read == Read.Bad(NoBackground) <==> b == [])
            && (read == Read.Bad(NoForeground) <==> b != [] && NeedsForeground(t) && f == [])
            && (read == Read.Bad(SubrectOverflows)
                <==> b != [] && !(NeedsForeground(t) && f == []) && Overflows(t, bypp, tw, th))
            && (read.Got? ==> |body| - |t.header| >= BlockSize(t.sub, bypp, t.header))
            && (read.More? ==> |body| - |t.header| < BlockSize(t.sub, bypp, t.header))
  {
    var m, n := |t.header|, BlockSize(t.sub, bypp, t.header);
    assert n == SubSize(t.sub, bypp) * SubCount(t);
    var h := ReadHeader(carried, t.sub, bypp, t.header);
    HeaderDecides(carried, bypp, t);
    if h.Subrects? && |body| - m >= n {
      SubsFail(t.sub, bypp, h.carried.foreground, tw, th, SubCount(t), t.block);
    }
    if |body| - m < n { NoOverflow(t, bypp, tw, th); }
    hide ReadHeader, HeaderSize, ReadSubs, SubSize, AllFit, Background, Foreground, NeedsForeground, RawBit;
  }

  lemma NoOverflow(t: Token, bypp: nat, tw: nat, th: nat)
    requires t.block == [] && SubSize(t.sub, bypp) * SubCount(t) > 0
    ensures !Overflows(t, bypp, tw, th)
  {
  }

  lemma HeaderDecides(carried: Carried, bypp: nat, t: Token)
    requires |t.header| == HeaderSize(t.sub, bypp) && !Raw(t)
    ensures var h := ReadHeader(carried, t.sub, bypp, t.header);
            var b, f := Background(t, bypp, carried), Foreground(t, bypp, carried);
            h == if b == [] then Refused(NoBackground)
                 else if !SubrectsBit(t.sub) then Plain(Carried(b, f))
                 else if NeedsForeground(t) && f == [] then Refused(NoForeground)
                 else Subrects(Carried(b, f), SubCount(t))
    ensures !SubrectsBit(t.sub) ==> SubCount(t) == 0
  {
    hide RawBit, BackgroundBit, ForegroundBit, SubrectsBit, ColouredBit;
  }

  // ---------------------------------------------------------------- what is carried, by the tiles before

  /** Tokens as they are cut from a stream: every header has its length. */
  predicate Cut(tokens: seq<Token>, bypp: nat) { forall j :: 0 <= j < |tokens| ==> WellCut(tokens[j], bypp) }

  predicate WellCut(t: Token, bypp: nat) { !Raw(t) ==> |t.header| == HeaderSize(t.sub, bypp) }

  lemma CutMore(seen: seq<Token>, t: Token, bypp: nat)
    requires Cut(seen, bypp) && WellCut(t, bypp)
    ensures Cut(seen + [t], bypp)
  {
    hide WellCut;
  }

  lemma OwnColours(t: Token, bypp: nat)
    requires bypp > 0 && WellCut(t, bypp)
    ensures HasBackground(t) ==> BackgroundOf(t, bypp) != []
    ensures HasForeground(t) ==> ForegroundOf(t, bypp) != []
  {
  }

  /** The background a tile is drawn with is missing exactly when nothing specified it. */
  lemma NoBackgroundLeft(seen: seq<Token>, carried: Carried, bypp: nat, t: Token)
    requires ValidCarried(carried, bypp) && Carries(seen, bypp, carried) && Cut(seen + [t], bypp) && !Raw(t)
    ensures Background(t, bypp, carried) == [] <==> bypp == 0 || Bare(seen + [t])
  {
    var tokens := seen + [t];
    CarriesBackgroundOn(seen, bypp, carried.background, t);
    assert tokens[|seen|] == t;
    hide HeaderSize, WellCut;
    if bypp > 0 {
      forall j: nat | BackgroundFrom(tokens, |tokens|, j) ensures BackgroundOf(tokens[j], bypp) != [] {
        OwnColours(tokens[j], bypp);
      }
    }
  }

  lemma NoForegroundLeft(seen: seq<Token>, carried: Carried, bypp: nat, t: Token)
    requires bypp > 0 && Carries(seen, bypp, carried) && Cut(seen + [t], bypp)
    ensures Foreground(t, bypp, carried) == [] <==> !HasForeground(t) && Colourless(seen)
  {
    var tokens := seen + [t];
    assert tokens[|seen|] == t && forall i :: 0 <= i < |seen| ==> tokens[i] == seen[i];
    OwnColours(t, bypp);
    hide HeaderSize, WellCut, HasForeground, ForegroundOf;
    forall j: nat | ForegroundFrom(seen, |seen|, j) ensures ForegroundOf(seen[j], bypp) != [] {
      assert WellCut(tokens[j], bypp);
      OwnColours(seen[j], bypp);
    }
  }

  // ---------------------------------------------------------------- a tile of the walk

  /** The tile or header at the front of the data. */
  function Front(bypp: nat, tw: nat, th: nat, data: seq<byte>): Option<Token> {
    match ReadToken(bypp, tw, th, data) case Some((t, _)) => Some(t) case None => HeadOf(bypp, data)
  }

  /** A tile is refused for a missing background, a missing foreground or a subrectangle, in this order. */
  predicate Judged(read: Read, t: Token, bypp: nat, tw: nat, th: nat, noBackground: bool, noForeground: bool) {
    (if read.Bad? then Some(read.why) else None)
    == if Raw(t) then None
       else if noBackground then Some(NoBackground)
       else if NeedsForeground(t) && noForeground then Some(NoForeground)
       else if Overflows(t, bypp, tw, th) then Some(SubrectOverflows)
       else None
  }

  /** What reading a tile comes to, by its own flags and what is carried to it. */
  lemma TileDecides(carried: Carried, bypp: nat, tw: nat, th: nat, data: seq<byte>)
    ensures var read, front := ReadTile(carried, bypp, tw, th, data), Front(bypp, tw, th, data);
            && (read.Got? ==> ReadToken(bypp, tw, th, data).Some?)
            && (read.More? ==> ReadToken(bypp, tw, th, data).None?)
            && match front
               case None => read.More?
               case Some(t) =>
                 var b, f := Background(t, bypp, carried), Foreground(t, bypp, carried);
                 WellCut(t, bypp) && Judged(read, t, bypp, tw, th, b == [], f == [])
  {
    if data != [] && !RawBit(data[0]) {
      var sub, body := data[0], data[1..];
      var m := HeaderSize(sub, bypp);
      if |body| >= m {
        assert body[..m] == data[1..1 + m];
        PaintedDecides(carried, bypp, tw, th, Front(bypp, tw, th, data).value, body);
      }
      hide ReadPainted, HeaderSize, BlockSize, Background, Foreground, NeedsForeground, Overflows;
    }
  }

  lemma PlaceOf(s: Shape, r: nat, c: nat)
    requires r * TILE < s.height && c * TILE < s.width
    ensures var k := TileNo(s, TILE, r, c);
            TileWidth(s, k) == Extent(s.width, TILE, c) && TileHeight(s, k) == Extent(s.height, TILE, r)
  {
    CountIff(s.width, TILE, c);
    DivMod(TileNo(s, TILE, r, c), Count(s.width, TILE), r, c);
    hide Extent, Count;
  }

  /** The fault of a tile among the tiles before it is what the decoder finds. */
  lemma FaultIsFound(s: Shape, r: nat, c: nat, seen: seq<Token>, carried: Carried, data: seq<byte>)
    requires r * TILE < s.height && c * TILE < s.width && |seen| == TileNo(s, TILE, r, c)
    requires ValidCarried(carried, s.bypp) && Carries(seen, s.bypp, carried) && Cut(seen, s.bypp)
    ensures var tw, th := Extent(s.width, TILE, c), Extent(s.height, TILE, r);
            var read, front := ReadTile(carried, s.bypp, tw, th, data), Front(s.bypp, tw, th, data);
            && (read.Got? ==> ReadToken(s.bypp, tw, th, data).Some?)
            && (read.More? ==> ReadToken(s.bypp, tw, th, data).None?)
            && if front.None? then read.More?
               else Cut(seen + [front.value], s.bypp)
                    && Fault(s, seen + [front.value]) == if read.Bad? then Some(read.why) else None
  {
    var tw, th := Extent(s.width, TILE, c), Extent(s.height, TILE, r);
    TileDecides(carried, s.bypp, tw, th, data);
    PlaceOf(s, r, c);
    var read, front := ReadTile(carried, s.bypp, tw, th, data), Front(s.bypp, tw, th, data);
    hide *;
    if front.Some? {
      var t := front.value;
      CutMore(seen, t, s.bypp);
      if !Raw(t) {
        NoBackgroundLeft(seen, carried, s.bypp, t) by { assert (seen + [t])[|seen|] == t; }
        if s.bypp > 0 { NoForegroundLeft(seen, carried, s.bypp, t); }
      }
      FaultIsJudged(s, seen, t, read, tw, th, Background(t, s.bypp, carried) == [],
                    Foreground(t, s.bypp, carried) == []);
    }
  }

  lemma FaultIsJudged(s: Shape, seen: seq<Token>, t: Token, read: Read, tw: nat, th: nat, noBackground: bool,
                      noForeground: bool)
    requires Judged(read, t, s.bypp, tw, th, noBackground, noForeground)
    requires tw == TileWidth(s, |seen|) && th == TileHeight(s, |seen|)
    requires !Raw(t) ==> (noBackground <==> s.bypp == 0 || Bare(seen + [t]))
    requires !Raw(t) && s.bypp > 0 ==> (noForeground <==> !HasForeground(t) && Colourless(seen))
    ensures Fault(s, seen + [t]) == if read.Bad? then Some(read.why) else None
  {
    FaultByParts(s, seen, t);
    hide Raw, Bare, NeedsForeground, HasForeground, Colourless, Overflows, TileWidth, TileHeight, Fault;
  }

  lemma FaultByParts(s: Shape, seen: seq<Token>, t: Token)
    ensures Fault(s, seen + [t])
            == if Raw(t) then None
               else if s.bypp == 0 || Bare(seen + [t]) then Some(NoBackground)
               else if NeedsForeground(t) && !HasForeground(t) && Colourless(seen) then Some(NoForeground)
               else if Overflows(t, s.bypp, TileWidth(s, |seen|), TileHeight(s, |seen|)) then Some(SubrectOverflows)
               else None
  {
    var tokens := seen + [t];
    assert tokens[|seen|] == t && tokens[..|seen|] == seen && |tokens| - 1 == |seen|;
    hide Raw, Bare, NeedsForeground, HasForeground, Colourless, Overflows, TileWidth, TileHeight;
  }

  // ---------------------------------------------------------------- the whole rectangle

  /** Whether tile `n` is at fault decides, or the tiles after it. */
  lemma RefusesFrom(s: Shape, tokens: seq<Token>, n: nat, why: Reason)
    requires n < |tokens|
    ensures Refuses(s, tokens, n, why)
            <==> if Fault(s, tokens[..n + 1]) == None then Refuses(s, tokens, n + 1, why)
                 else Fault(s, tokens[..n + 1]) == Some(why)
  {
    hide Fault;
    if Fault(s, tokens[..n + 1]) == Some(why) {
      assert FirstFault(s, tokens, n, n, why);
    }
    if Fault(s, tokens[..n + 1]) == None && Refuses(s, tokens, n + 1, why) {
      var k: nat :| FirstFault(s, tokens, n + 1, k, why);
      assert FirstFault(s, tokens, n, k, why);
    }
    if Refuses(s, tokens, n, why) {
      var k: nat :| FirstFault(s, tokens, n, k, why);
      if k > n {
        assert Sound(s, tokens, n);
        assert FirstFault(s, tokens, n + 1, k, why);
      }
    }
  }

  ghost predicate AllSound(s: Shape, tokens: seq<Token>, from: nat) {
    forall k: nat :: from <= k ==> Sound(s, tokens, k)
  }

  lemma AllSoundFrom(s: Shape, tokens: seq<Token>, n: nat)
    requires n < |tokens|
    ensures AllSound(s, tokens, n) <==> Fault(s, tokens[..n + 1]) == None && AllSound(s, tokens, n + 1)
  {
    hide Fault;
    if AllSound(s, tokens, n) { assert Sound(s, tokens, n); }
  }

  lemma NothingLeft(s: Shape, tokens: seq<Token>, why: Reason)
    ensures !Refuses(s, tokens, |tokens|, why) && AllSound(s, tokens, |tokens|)
  {
    hide Fault;
  }

  /** Where a walk that has seen some sound tiles gets to. */
  ghost predicate Decided(s: Shape, seen: seq<Token>, r: nat, c: nat, data: seq<byte>, read: RectRead, why: Reason) {
    var heads, tokens := seen + Heads(s, r, c, data), seen + Tokens(s, r, c, data);
    && (read == RectRead.Bad(why) <==> Refuses(s, heads, |seen|, why))
    && (read.Done? <==> |tokens| == Count(s.height, TILE) * Count(s.width, TILE) && AllSound(s, tokens, |seen|))
  }

  lemma DecidedAtEnd(s: Shape, r: nat, c: nat, seen: seq<Token>, data: seq<byte>, g: seq<byte>, why: Reason)
    requires r * TILE >= s.height && r <= Count(s.height, TILE) && c == 0 && |seen| == TileNo(s, TILE, r, c)
    ensures Decided(s, seen, r, c, data, RectRead.Done(g, data), why)
  {
    CountIff(s.height, TILE, r);
    assert seen + [] == seen;
    NothingLeft(s, seen, why);
    hide Refuses, AllSound, Count;
  }

  lemma DecidedHere(s: Shape, r: nat, c: nat, seen: seq<Token>, carried: Carried, data: seq<byte>, why: Reason)
    requires r * TILE < s.height && c * TILE < s.width && |seen| == TileNo(s, TILE, r, c)
    requires ValidCarried(carried, s.bypp) && Carries(seen, s.bypp, carried) && Cut(seen, s.bypp)
    requires !ReadTile(carried, s.bypp, Extent(s.width, TILE, c), Extent(s.height, TILE, r), data).Got?
    ensures var read := ReadTile(carried, s.bypp, Extent(s.width, TILE, c), Extent(s.height, TILE, r), data);
            Decided(s, seen, r, c, data, if read.Bad? then RectRead.Bad(read.why) else RectRead.More, why)
  {
    RefusedHere(s, r, c, seen, carried, data, why);
    NotDoneHere(s, r, c, seen, carried, data);
    hide ReadTile, Refuses, AllSound, Carries, Cut, ValidCarried, Count, Extent, Heads, Tokens;
  }

  lemma RefusedHere(s: Shape, r: nat, c: nat, seen: seq<Token>, carried: Carried, data: seq<byte>, why: Reason)
    requires r * TILE < s.height && c * TILE < s.width && |seen| == TileNo(s, TILE, r, c)
    requires ValidCarried(carried, s.bypp) && Carries(seen, s.bypp, carried) && Cut(seen, s.bypp)
    requires !ReadTile(carried, s.bypp, Extent(s.width, TILE, c), Extent(s.height, TILE, r), data).Got?
    ensures var read := ReadTile(carried, s.bypp, Extent(s.width, TILE, c), Extent(s.height, TILE, r), data);
            read == Read.Bad(why) <==> Refuses(s, seen + Heads(s, r, c, data), |seen|, why)
  {
    var tw, th := Extent(s.width, TILE, c), Extent(s.height, TILE, r);
    FaultIsFound(s, r, c, seen, carried, data);
    HeadsBegin(s, r, c, data);
    var front, heads := Front(s.bypp, tw, th, data), Heads(s, r, c, data);
    hide *;
    if front.None? {
      RefusesNothing(s, seen, heads, why);
    } else {
      RefusesFront(s, seen, heads, why);
    }
  }

  lemma RefusesNothing(s: Shape, seen: seq<Token>, heads: seq<Token>, why: Reason)
    requires heads == []
    ensures !Refuses(s, seen + heads, |seen|, why)
  {
    assert seen + heads == seen;
    NothingLeft(s, seen, why);
    hide Refuses;
  }

  lemma RefusesFront(s: Shape, seen: seq<Token>, heads: seq<Token>, why: Reason)
    requires heads != []
    ensures Fault(s, seen + [heads[0]]).Some? ==>
              (Refuses(s, seen + heads, |seen|, why) <==> Fault(s, seen + [heads[0]]) == Some(why))
    ensures Fault(s, seen + [heads[0]]).None? && |heads| == 1 ==> !Refuses(s, seen + heads, |seen|, why)
  {
    var tokens := seen + heads;
    assert tokens[..|seen| + 1] == seen + [heads[0]];
    RefusesFrom(s, tokens, |seen|, why);
    NothingLeft(s, tokens, why);
    hide Refuses, Fault;
  }

  lemma NotDoneHere(s: Shape, r: nat, c: nat, seen: seq<Token>, carried: Carried, data: seq<byte>)
    requires r * TILE < s.height && c * TILE < s.width && |seen| == TileNo(s, TILE, r, c)
    requires ValidCarried(carried, s.bypp) && Carries(seen, s.bypp, carried) && Cut(seen, s.bypp)
    requires !ReadTile(carried, s.bypp, Extent(s.width, TILE, c), Extent(s.height, TILE, r), data).Got?
    ensures var tokens := seen + Tokens(s, r, c, data);
            !(|tokens| == Count(s.height, TILE) * Count(s.width, TILE) && AllSound(s, tokens, |seen|))
  {
    var tw, th := Extent(s.width, TILE, c), Extent(s.height, TILE, r);
    FaultIsFound(s, r, c, seen, carried, data);
    NotAllThere(s, r, c);
    TokensBegin(s, r, c, data);
    var front, tokens := Front(s.bypp, tw, th, data), seen + Tokens(s, r, c, data);
    hide *;
    if ReadToken(s.bypp, tw, th, data).Some? {
      assert tokens[..|seen| + 1] == seen + [front.value];
      AllSoundFrom(s, tokens, |seen|);
    } else {
      assert tokens == seen;
    }
  }

  lemma HeadsBegin(s: Shape, r: nat, c: nat, data: seq<byte>)
    requires r * TILE < s.height && c * TILE < s.width
    ensures var tw, th, heads := Extent(s.width, TILE, c), Extent(s.height, TILE, r), Heads(s, r, c, data);
            match Front(s.bypp, tw, th, data)
            case None => heads == []
            case Some(t) => heads != [] && heads[0] == t && (ReadToken(s.bypp, tw, th, data).None? ==> heads == [t])
  {
    hide ReadToken, HeadOf, Extent;
  }

  lemma TokensBegin(s: Shape, r: nat, c: nat, data: seq<byte>)
    requires r * TILE < s.height && c * TILE < s.width
    ensures var tw, th, tokens := Extent(s.width, TILE, c), Extent(s.height, TILE, r), Tokens(s, r, c, data);
            match ReadToken(s.bypp, tw, th, data)
            case None => tokens == []
            case Some((t, _)) => tokens != [] && tokens[0] == t && Front(s.bypp, tw, th, data) == Some(t)
  {
    hide ReadToken, HeadOf, Extent;
  }

  lemma NotAllThere(s: Shape, r: nat, c: nat)
    requires r * TILE < s.height && c * TILE < s.width
    ensures TileNo(s, TILE, r, c) < Count(s.height, TILE) * Count(s.width, TILE)
  {
    CountIff(s.width, TILE, c);
    CountIff(s.height, TILE, r);
    InArea(r, c, Count(s.width, TILE), Count(s.height, TILE));
  }

  lemma {:induction false} WalkDecides(s: Shape, r: nat, c: nat, seen: seq<Token>, carried: Carried, data: seq<byte>,
                                       g: seq<byte>, why: Reason)
    requires |g| == s.Size() && r <= Count(s.height, TILE) && c <= Count(s.width, TILE)
             && (r * TILE >= s.height ==> c == 0)
    requires |seen| == TileNo(s, TILE, r, c)
    requires ValidCarried(carried, s.bypp) && Carries(seen, s.bypp, carried) && Cut(seen, s.bypp)
    ensures Decided(s, seen, r, c, data, ReadTiles(s, r, c, carried, data, g), why)
    decreases s.height - r * TILE, s.width - c * TILE
  {
    hide ReadTile, ReadToken, Extent, ValidCarried, ValidTile, Carries, Cut, Count, Decided, ApplyTile, TileNo, Front;
    if r * TILE >= s.height {
      DecidedAtEnd(s, r, c, seen, data, g, why);
    } else if c * TILE >= s.width {
      TileWraps(s, r, c);
      CountIff(s.height, TILE, r);
      WalkDecides(s, r + 1, 0, seen, carried, data, g, why);
      DecidedAtWrap(s, r, c, seen, data, ReadTiles(s, r, c, carried, data, g), why);
    } else {
      var tw, th := Extent(s.width, TILE, c), Extent(s.height, TILE, r);
      TileIsValid(carried, s.bypp, tw, th, data);
      var read := ReadTile(carried, s.bypp, tw, th, data);
      if read.Got? {
        var t := WalkCarriesOn(s, r, c, seen, carried, data);
        WalkDecides(s, r, c + 1, seen + [t], read.carried, read.rest, ApplyTile(g, s, r, c, read.tile), why);
        DecidedNext(s, r, c, seen, t, data, read.rest, ReadTiles(s, r, c, carried, data, g), why);
      } else {
        DecidedHere(s, r, c, seen, carried, data, why);
      }
    }
  }

  lemma DecidedAtWrap(s: Shape, r: nat, c: nat, seen: seq<Token>, data: seq<byte>, read: RectRead, why: Reason)
    requires r * TILE < s.height && c * TILE >= s.width && Decided(s, seen, r + 1, 0, data, read, why)
    ensures Decided(s, seen, r, c, data, read, why)
  {
    hide Refuses, AllSound, Count;
  }

  /** A tile that was read is sound, and the walk goes on with what it leaves. */
  lemma WalkCarriesOn(s: Shape, r: nat, c: nat, seen: seq<Token>, carried: Carried, data: seq<byte>) returns (t: Token)
    requires r * TILE < s.height && c * TILE < s.width && |seen| == TileNo(s, TILE, r, c)
    requires ValidCarried(carried, s.bypp) && Carries(seen, s.bypp, carried) && Cut(seen, s.bypp)
    requires ReadTile(carried, s.bypp, Extent(s.width, TILE, c), Extent(s.height, TILE, r), data).Got?
    ensures var tw, th := Extent(s.width, TILE, c), Extent(s.height, TILE, r);
            var read := ReadTile(carried, s.bypp, tw, th, data);
            && ReadToken(s.bypp, tw, th, data) == Some((t, read.rest)) && Fault(s, seen + [t]) == None
            && Carries(seen + [t], s.bypp, read.carried) && Cut(seen + [t], s.bypp)
    ensures |seen + [t]| == TileNo(s, TILE, r, c + 1) && c + 1 <= Count(s.width, TILE)
  {
    var tw, th := Extent(s.width, TILE, c), Extent(s.height, TILE, r);
    FaultIsFound(s, r, c, seen, carried, data);
    TileFollowsToken(carried, s.bypp, tw, th, data);
    t := ReadToken(s.bypp, tw, th, data).value.0;
    CarriesOn(seen, s.bypp, carried, t);
    CountIff(s.width, TILE, c);
    hide ReadTile, ReadToken, HeadOf, Fault, Carries, Cut, ValidCarried, Count, Extent, DrawnAs, Background, Foreground,
         Raw, Spends;
  }

  lemma DecidedNext(s: Shape, r: nat, c: nat, seen: seq<Token>, t: Token, data: seq<byte>, rest: seq<byte>,
                    read: RectRead,
                    why: Reason)
    requires r * TILE < s.height && c * TILE < s.width && Fault(s, seen + [t]) == None
    requires ReadToken(s.bypp, Extent(s.width, TILE, c), Extent(s.height, TILE, r), data) == Some((t, rest))
    requires Decided(s, seen + [t], r, c + 1, rest, read, why)
    ensures Decided(s, seen, r, c, data, read, why)
  {
    var heads, tokens := seen + Heads(s, r, c, data), seen + Tokens(s, r, c, data);
    hide ReadToken, HeadOf, Fault, Refuses, AllSound, Count, Extent;
    assert heads == (seen + [t]) + Heads(s, r, c + 1, rest) && tokens == (seen + [t]) + Tokens(s, r, c + 1, rest);
    assert heads[..|seen| + 1] == seen + [t] && tokens[..|seen| + 1] == seen + [t];
    RefusesFrom(s, heads, |seen|, why);
    AllSoundFrom(s, tokens, |seen|);
  }

  /**
    A rectangle is refused exactly for the first fault among its tiles, and read exactly when all its tiles are
    there and none is at fault; otherwise the stream ends inside it.
   */
  lemma RefusedForFirstFault(s: Shape, data: seq<byte>, g: seq<byte>, why: Reason)
    requires |g| == s.Size()
    ensures var read, tokens := ReadTiles(s, 0, 0, NOTHING_CARRIED, data, g), Tokens(s, 0, 0, data);
            && (read == RectRead.Bad(why) <==> Refuses(s, Heads(s, 0, 0, data), 0, why))
            && (read.Done? <==> |tokens| == Count(s.height, TILE) * Count(s.width, TILE) && AllSound(s, tokens, 0))
  {
    assert Carries([], s.bypp, NOTHING_CARRIED);
    assert [] + Tokens(s, 0, 0, data) == Tokens(s, 0, 0, data) && [] + Heads(s, 0, 0, data) == Heads(s, 0, 0, data);
    WalkDecides(s, 0, 0, [], NOTHING_CARRIED, data, g, why);
    hide ReadTiles, Heads, Tokens, Refuses, AllSound, Carries, Count;
  }
}
