/**
  Where a Hextile tile's colours come from (section 7.7.4 of RFC 6143, vncdotool/decoders/hextile.py): the stream is
  cut into tiles by their lengths alone, and a colour that is not a tile's own is the last one an earlier tile
  specified and nothing since has taken away.
 */
module HextileCarry {
  import opened Arith
  import opened Bytes
  import opened Grid
  import opened Tiles
  import opened HextileTile
  import opened HextileRect

  /** A tile as it stands in the stream: subencoding, header and what follows the header. */
  datatype Token = Token(sub: byte, header: seq<byte>, block: seq<byte>)

  /** The length of what follows the header; the subrectangle count is the header's last byte. */
  function BlockSize(sub: byte, bypp: nat, header: seq<byte>): nat
    requires |header| == HeaderSize(sub, bypp)
  {
    if SubrectsBit(sub) then SubSize(sub, bypp) * header[|header| - 1] else 0
  }

  /** The tile at the front of the data, and the rest. */
  function ReadToken(bypp: nat, tw: nat, th: nat, data: seq<byte>): Option<(Token, seq<byte>)> {
    if data == [] then None
    else
      var sub, body := data[0], data[1..];
      if RawBit(sub) then
        var n := tw * th * bypp;
        if |body| < n then None else Some((Token(sub, [], body[..n]), body[n..]))
      else
        var m := HeaderSize(sub, bypp);
        if |body| < m then None
        else
          var n := BlockSize(sub, bypp, body[..m]);
          if |body| - m < n then None else Some((Token(sub, body[..m], body[m..][..n]), body[m..][n..]))
  }

  /** The tiles of the stream from `(r, c)` on, whatever their colours. */
  function Tokens(s: Shape, r: nat, c: nat, data: seq<byte>): seq<Token>
    decreases s.height - r * TILE, s.width - c * TILE
  {
    if r * TILE >= s.height then []
    else if c * TILE >= s.width then Tokens(s, r + 1, 0, data)
    else
      match ReadToken(s.bypp, Extent(s.width, TILE, c), Extent(s.height, TILE, r), data)
      case None => []
      case Some((t, rest)) => [t] + Tokens(s, r, c + 1, rest)
  }

  // ---------------------------------------------------------------- which tile a colour is from

  predicate Raw(t: Token) { RawBit(t.sub) }

  predicate HasBackground(t: Token) { !Raw(t) && BackgroundBit(t.sub) }

  predicate HasForeground(t: Token) { !Raw(t) && ForegroundBit(t.sub) }

  /** Coloured subrectangles spend the foreground. */
  predicate Spends(t: Token) { !Raw(t) && SubrectsBit(t.sub) && ColouredBit(t.sub) }

  function BackgroundOf(t: Token, bypp: nat): seq<byte> { if |t.header| < bypp then [] else t.header[..bypp] }

  function ForegroundOf(t: Token, bypp: nat): seq<byte> {
    var at := if BackgroundBit(t.sub) then bypp else 0;
    if |t.header| < at + bypp then [] else t.header[at..at + bypp]
  }

  /** Tile `j` specified the background that still holds after the first `n` tiles. */
  predicate BackgroundFrom(tokens: seq<Token>, n: nat, j: nat)
    requires n <= |tokens|
  {
    j < n && HasBackground(tokens[j]) && forall i :: j < i < n ==> !Raw(tokens[i]) && !HasBackground(tokens[i])
  }

  /** Tile `j` specified the foreground that still holds after the first `n` tiles. */
  predicate ForegroundFrom(tokens: seq<Token>, n: nat, j: nat)
    requires n <= |tokens|
  {
    && j < n && HasForeground(tokens[j]) && !Spends(tokens[j])
    && forall i :: j < i < n ==> !Raw(tokens[i]) && !HasForeground(tokens[i]) && !Spends(tokens[i])
  }

  /** The carried colours are those of the tiles that specified them, and none where no tile did. */
  ghost predicate Carries(tokens: seq<Token>, bypp: nat, carried: Carried) {
    CarriesBackground(tokens, bypp, carried.background) && CarriesForeground(tokens, bypp, carried.foreground)
  }

  /** No background is in force after the tiles. */
  ghost predicate Bare(tokens: seq<Token>) { forall j: nat :: !BackgroundFrom(tokens, |tokens|, j) }

  ghost predicate CarriesBackground(tokens: seq<Token>, bypp: nat, b: seq<byte>) {
    || (b == [] && Bare(tokens))
    || exists j: nat :: BackgroundFrom(tokens, |tokens|, j) && b == BackgroundOf(tokens[j], bypp)
  }

  ghost predicate CarriesForeground(tokens: seq<Token>, bypp: nat, f: seq<byte>) {
    || (f == [] && forall j: nat :: !ForegroundFrom(tokens, |tokens|, j))
    || exists j: nat :: ForegroundFrom(tokens, |tokens|, j) && f == ForegroundOf(tokens[j], bypp)
  }

  lemma BackgroundStep(tokens: seq<Token>, t: Token, j: nat)
    ensures BackgroundFrom(tokens + [t], |tokens| + 1, j)
            <==> if j == |tokens| then HasBackground(t)
                 else BackgroundFrom(tokens, |tokens|, j) && !Raw(t) && !HasBackground(t)
  {
    var more := tokens + [t];
    assert more[|tokens|] == t && forall i :: 0 <= i < |tokens| ==> more[i] == tokens[i];
    hide Raw, HasBackground;
  }

  lemma ForegroundStep(tokens: seq<Token>, t: Token, j: nat)
    ensures ForegroundFrom(tokens + [t], |tokens| + 1, j)
            <==> if j == |tokens| then HasForeground(t) && !Spends(t)
                 else ForegroundFrom(tokens, |tokens|, j) && !Raw(t) && !HasForeground(t) && !Spends(t)
  {
    var more := tokens + [t];
    assert more[|tokens|] == t && forall i :: 0 <= i < |tokens| ==> more[i] == tokens[i];
    hide Raw, HasForeground, Spends;
  }

  lemma CarriesBackgroundOn(tokens: seq<Token>, bypp: nat, b: seq<byte>, t: Token)
    requires CarriesBackground(tokens, bypp, b)
    ensures CarriesBackground(tokens + [t], bypp,
                              if Raw(t) then [] else if HasBackground(t) then BackgroundOf(t, bypp) else b)
  {
    var more := tokens + [t];
    assert |more| == |tokens| + 1 && more[|tokens|] == t && forall i :: 0 <= i < |tokens| ==> more[i] == tokens[i];
    forall j: nat ensures BackgroundFrom(more, |more|, j)
                          <==> if j == |tokens| then HasBackground(t)
                               else BackgroundFrom(tokens, |tokens|, j) && !Raw(t) && !HasBackground(t)
    {
      BackgroundStep(tokens, t, j);
    }
    hide BackgroundFrom, BackgroundOf, BackgroundBit, RawBit;
    if HasBackground(t) {
      assert BackgroundFrom(more, |more|, |tokens|);
    } else if !Raw(t) && exists j: nat :: BackgroundFrom(tokens, |tokens|, j) && b == BackgroundOf(tokens[j], bypp) {
      var j: nat :| BackgroundFrom(tokens, |tokens|, j) && b == BackgroundOf(tokens[j], bypp);
      BackgroundIsEarlier(tokens, j);
      assert BackgroundFrom(more, |more|, j) && more[j] == tokens[j];
    }
  }

  lemma BackgroundIsEarlier(tokens: seq<Token>, j: nat)
    requires BackgroundFrom(tokens, |tokens|, j)
    ensures j < |tokens|
  {
  }

  lemma CarriesForegroundOn(tokens: seq<Token>, bypp: nat, f: seq<byte>, t: Token)
    requires CarriesForeground(tokens, bypp, f)
    ensures CarriesForeground(tokens + [t], bypp,
                              if Raw(t) || Spends(t) then [] else if HasForeground(t) then ForegroundOf(t, bypp) else f)
  {
    var more := tokens + [t];
    assert |more| == |tokens| + 1 && more[|tokens|] == t && forall i :: 0 <= i < |tokens| ==> more[i] == tokens[i];
    assert Raw(t) ==> !HasForeground(t);
    forall j: nat ensures ForegroundFrom(more, |more|, j)
                          <==> if j == |tokens| then HasForeground(t) && !Spends(t)
                               else ForegroundFrom(tokens, |tokens|, j) && !Raw(t) && !HasForeground(t) && !Spends(t)
    {
      ForegroundStep(tokens, t, j);
    }
    hide ForegroundFrom, ForegroundOf, Raw, HasForeground, Spends;
    if Raw(t) || Spends(t) {
    } else if HasForeground(t) {
      assert ForegroundFrom(more, |more|, |tokens|);
    } else if exists j: nat :: ForegroundFrom(tokens, |tokens|, j) && f == ForegroundOf(tokens[j], bypp) {
      var j: nat :| ForegroundFrom(tokens, |tokens|, j) && f == ForegroundOf(tokens[j], bypp);
      ForegroundIsEarlier(tokens, j);
      assert ForegroundFrom(more, |more|, j) && more[j] == tokens[j];
    }
  }

  lemma ForegroundIsEarlier(tokens: seq<Token>, j: nat)
    requires ForegroundFrom(tokens, |tokens|, j)
    ensures j < |tokens|
  {
  }

  // ---------------------------------------------------------------- one tile

  /** The background and foreground a tile is drawn with, given what was carried to it. */
  function Background(t: Token, bypp: nat, carried: Carried): seq<byte> {
    if HasBackground(t) then BackgroundOf(t, bypp) else carried.background
  }

  function Foreground(t: Token, bypp: nat, carried: Carried): seq<byte> {
    if HasForeground(t) then ForegroundOf(t, bypp) else carried.foreground
  }

  /**
    The tile a token is drawn as: its pixels, or a background and subrectangles in one foreground or their own
    colours.
   */
  predicate DrawnAs(t: Token, bypp: nat, background: seq<byte>, foreground: seq<byte>, tile: Tile) {
    if Raw(t) then tile == RawTile(t.block)
    else
      && tile.Painted? && tile.background == background != []
      && (!SubrectsBit(t.sub) ==> tile.subs == [])
      && (SubrectsBit(t.sub) && !ColouredBit(t.sub) ==>
            && (tile.subs != [] ==> foreground != [])
            && forall i :: 0 <= i < |tile.subs| ==> tile.subs[i].colour == foreground)
      && (SubrectsBit(t.sub) && ColouredBit(t.sub) ==>
            && |t.block| == |tile.subs| * (bypp + 2)
            && forall i :: 0 <= i < |tile.subs| ==> OwnColour(t.block, bypp, i, tile.subs[i].colour))
  }

  /** Subrectangle `i` of a block brings its own colour. */
  predicate OwnColour(block: seq<byte>, bypp: nat, i: nat, colour: seq<byte>) {
    i * (bypp + 2) + bypp <= |block| && colour == block[i * (bypp + 2)..i * (bypp + 2) + bypp]
  }

  lemma {:induction false} SubsColours(sub: byte, bypp: nat, foreground: seq<byte>, tw: nat, th: nat, count: nat,
                                       data: seq<byte>)
    requires ReadSubs(sub, bypp, foreground, tw, th, count, data).Some?
    ensures var subs := ReadSubs(sub, bypp, foreground, tw, th, count, data).value;
            forall i :: 0 <= i < count ==>
              if ColouredBit(sub) then OwnColour(data, bypp, i, subs[i].colour) else subs[i].colour == foreground
    decreases count
  {
    if count > 0 {
      var size := SubSize(sub, bypp);
      SubsColours(sub, bypp, foreground, tw, th, count - 1, data[size..]);
      var subs := ReadSubs(sub, bypp, foreground, tw, th, count, data).value;
      var rest := ReadSubs(sub, bypp, foreground, tw, th, count - 1, data[size..]).value;
      assert subs[0].colour == if ColouredBit(sub) then data[..bypp] else foreground;
      forall i | 0 < i < count
        ensures if ColouredBit(sub) then OwnColour(data, bypp, i, subs[i].colour) else subs[i].colour == foreground
      {
        assert subs[i] == rest[i - 1];
        if ColouredBit(sub) { OwnColourLater(data, bypp, i, subs[i].colour); }
      }
    }
  }

  lemma OwnColourLater(data: seq<byte>, bypp: nat, i: nat, colour: seq<byte>)
    requires 0 < i && bypp + 2 <= |data| && OwnColour(data[bypp + 2..], bypp, i - 1, colour)
    ensures OwnColour(data, bypp, i, colour)
  {
    MulAdd(i - 1, 1, bypp + 2);
  }

  /** Reading a tile with carried colours is cutting it out and drawing it. */
  lemma TileFollowsToken(carried: Carried, bypp: nat, tw: nat, th: nat, data: seq<byte>)
    requires ReadTile(carried, bypp, tw, th, data).Got?
    ensures var got, token := ReadTile(carried, bypp, tw, th, data), ReadToken(bypp, tw, th, data);
            && token.Some? && token.value.1 == got.rest
            && var t := token.value.0;
               && DrawnAs(t, bypp, Background(t, bypp, carried), Foreground(t, bypp, carried), got.tile)
               && got.carried == if Raw(t) then NOTHING_CARRIED
                                 else Carried(Background(t, bypp, carried),
                                              if Spends(t) then [] else Foreground(t, bypp, carried))
  {
    var sub, body := data[0], data[1..];
    if !RawBit(sub) { PaintedFollowsToken(carried, bypp, tw, th, sub, body); }
    hide ReadPainted, HeaderSize, BlockSize, Background, Foreground, BackgroundBit, ForegroundBit, SubrectsBit,
         ColouredBit, OwnColour;
  }

  lemma PaintedFollowsToken(carried: Carried, bypp: nat, tw: nat, th: nat, sub: byte, body: seq<byte>)
    requires !RawBit(sub) && ReadPainted(carried, bypp, tw, th, sub, body).Got?
    ensures var got, m := ReadPainted(carried, bypp, tw, th, sub, body), HeaderSize(sub, bypp);
            && m <= |body|
            && var n := BlockSize(sub, bypp, body[..m]);
               && m + n <= |body| && got.rest == body[m..][n..]
               && var t := Token(sub, body[..m], body[m..][..n]);
                  && DrawnAs(t, bypp, Background(t, bypp, carried), Foreground(t, bypp, carried), got.tile)
                  && got.carried == Carried(Background(t, bypp, carried),
                                            if Spends(t) then [] else Foreground(t, bypp, carried))
  {
    hide ReadSubs, RawBit, BackgroundBit, ForegroundBit, SubrectsBit, ColouredBit, OwnColour, SubSize;
    var m := HeaderSize(sub, bypp);
    var h := ReadHeader(carried, sub, bypp, body[..m]);
    if h.Subrects? {
      var n := SubSize(sub, bypp) * h.count;
      assert BlockSize(sub, bypp, body[..m]) == n;
      SubsColours(sub, bypp, h.carried.foreground, tw, th, h.count, body[m..][..n]);
      BlockLength(sub, bypp, h.count);
    } else {
      assert body[m..][0..] == body[m..];
    }
  }

  lemma BlockLength(sub: byte, bypp: nat, count: nat)
    ensures ColouredBit(sub) ==> SubSize(sub, bypp) * count == count * (bypp + 2)
  {
  }

  // ---------------------------------------------------------------- the whole rectangle

  /**
    The colours of tile `k`: its background is that of the last tile up to `k` to have one, with no raw tile since;
    its foreground is its own, or that of the last tile before it to have one, with no raw tile and no coloured
    subrectangles since, or none.
   */
  ghost predicate Specified(tokens: seq<Token>, k: nat, bypp: nat, b: seq<byte>, f: seq<byte>)
    requires k < |tokens|
  {
    && (!Raw(tokens[k]) ==> exists j: nat :: BackgroundFrom(tokens, k + 1, j) && b == BackgroundOf(tokens[j], bypp))
    && if HasForeground(tokens[k]) then f == ForegroundOf(tokens[k], bypp) else CarriesForeground(tokens[..k], bypp, f)
  }

  lemma SpecifiedHere(seen: seq<Token>, t: Token, bypp: nat, carried: Carried, tile: Tile)
    requires Carries(seen, bypp, carried)
    requires DrawnAs(t, bypp, Background(t, bypp, carried), Foreground(t, bypp, carried), tile)
    ensures Specified(seen + [t], |seen|, bypp, Background(t, bypp, carried), Foreground(t, bypp, carried))
  {
    var tokens := seen + [t];
    assert tokens[|seen|] == t && tokens[..|seen|] == seen && forall i :: 0 <= i < |seen| ==> tokens[i] == seen[i];
    CarriesBackgroundOn(seen, bypp, carried.background, t);
    hide BackgroundFrom, ForegroundFrom, CarriesForeground, HasForeground, HasBackground, BackgroundOf, ForegroundOf;
  }

  lemma {:induction false} SpecifiedLater(tokens: seq<Token>, more: seq<Token>, k: nat, bypp: nat, b: seq<byte>,
                                          f: seq<byte>)
    requires k < |tokens| && Specified(tokens, k, bypp, b, f)
    ensures Specified(tokens + more, k, bypp, b, f)
  {
    var all := tokens + more;
    assert all[..k] == tokens[..k] && forall i :: 0 <= i < |tokens| ==> all[i] == tokens[i];
    hide CarriesForeground, Raw, HasForeground, HasBackground, BackgroundOf, ForegroundOf;
    if !Raw(tokens[k]) {
      var j: nat :| BackgroundFrom(tokens, k + 1, j) && b == BackgroundOf(tokens[j], bypp);
      assert BackgroundFrom(all, k + 1, j) && all[j] == tokens[j];
    }
  }

  lemma CarriesOn(seen: seq<Token>, bypp: nat, carried: Carried, t: Token)
    requires Carries(seen, bypp, carried)
    ensures Carries(seen + [t], bypp,
                    if Raw(t) then NOTHING_CARRIED
                    else Carried(Background(t, bypp, carried), if Spends(t) then [] else Foreground(t, bypp, carried)))
  {
    CarriesBackgroundOn(seen, bypp, carried.background, t);
    CarriesForegroundOn(seen, bypp, carried.foreground, t);
    hide CarriesBackground, CarriesForeground;
  }

  /** Tiles are numbered row by row. */
  lemma TileWraps(s: Shape, r: nat, c: nat)
    requires c * TILE >= s.width && c <= Count(s.width, TILE)
    ensures TileNo(s, TILE, r, c) == TileNo(s, TILE, r + 1, 0)
  {
    CountIff(s.width, TILE, c);
    MulAdd(r, 1, Count(s.width, TILE));
  }

  lemma {:induction false} WalkIsSpecified(s: Shape, r: nat, c: nat, seen: seq<Token>, carried: Carried,
                                           data: seq<byte>, r': nat, c': nat) returns (b: seq<byte>, f: seq<byte>)
    requires ValidCarried(carried, s.bypp) && Carries(seen, s.bypp, carried)
    requires c <= Count(s.width, TILE) && |seen| == TileNo(s, TILE, r, c)
    requires TileRead(s, r, c, carried, data, r', c').Some?
    ensures var tokens, k := seen + Tokens(s, r, c, data), TileNo(s, TILE, r', c');
            && k < |tokens| && Specified(tokens, k, s.bypp, b, f)
            && DrawnAs(tokens[k], s.bypp, b, f, TileRead(s, r, c, carried, data, r', c').value)
    decreases s.height - r * TILE, s.width - c * TILE
  {
    hide ReadTile, ReadToken, Extent, ValidCarried, ValidTile, DrawnAs, Specified, Carries, Background, Foreground,
         Count, Raw, Spends;
    if c * TILE >= s.width {
      TileWraps(s, r, c);
      b, f := WalkIsSpecified(s, r + 1, 0, seen, carried, data, r', c');
    } else {
      var tw, th := Extent(s.width, TILE, c), Extent(s.height, TILE, r);
      TileIsValid(carried, s.bypp, tw, th, data);
      TileFollowsToken(carried, s.bypp, tw, th, data);
      var got := ReadTile(carried, s.bypp, tw, th, data);
      var t := ReadToken(s.bypp, tw, th, data).value.0;
      var later := Tokens(s, r, c + 1, got.rest);
      assert seen + ([t] + later) == (seen + [t]) + later;
      if r == r' && c == c' {
        b, f := Background(t, s.bypp, carried), Foreground(t, s.bypp, carried);
        SpecifiedHere(seen, t, s.bypp, carried, got.tile);
        SpecifiedLater(seen + [t], later, |seen|, s.bypp, b, f);
      } else {
        CarriesOn(seen, s.bypp, carried, t);
        CountIff(s.width, TILE, c);
        b, f := WalkIsSpecified(s, r, c + 1, seen + [t], got.carried, got.rest, r', c');
      }
    }
  }

  /**
    On every accepted stream each tile is drawn in the colours the stream's own tiles specified: the carry from tile
    to tile is nothing but the last specification still in force.
   */
  lemma ColoursAreSpecified(s: Shape, data: seq<byte>, g: seq<byte>, r: nat, c: nat)
    returns (b: seq<byte>, f: seq<byte>)
    requires |g| == s.Size() && r * TILE < s.height && c * TILE < s.width
    requires ReadTiles(s, 0, 0, NOTHING_CARRIED, data, g).Done?
    ensures var tokens, k := Tokens(s, 0, 0, data), TileNo(s, TILE, r, c);
            && TileRead(s, 0, 0, NOTHING_CARRIED, data, r, c).Some?
            && k < |tokens| && Specified(tokens, k, s.bypp, b, f)
            && DrawnAs(tokens[k], s.bypp, b, f, TileRead(s, 0, 0, NOTHING_CARRIED, data, r, c).value)
  {
    HextileIsTileByTile(s, data, g, c * TILE, r * TILE);
    DivMod(c * TILE, TILE, c, 0);
    DivMod(r * TILE, TILE, r, 0);
    assert Carries([], s.bypp, NOTHING_CARRIED);
    assert [] + Tokens(s, 0, 0, data) == Tokens(s, 0, 0, data);
    b, f := WalkIsSpecified(s, 0, 0, [], NOTHING_CARRIED, data, r, c);
    hide *;
  }
}
