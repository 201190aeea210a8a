/**
  Pacing a recorded stream at a live client (vncdotool/replay.py): what is written, when it may be
  written, and that packet boundaries on the client's side do not matter.
 */
module Replay {
  import opened Bytes
  import opened Handshake

  // ---------------------------------------------------------------- client messages

  const SET_PIXEL_FORMAT := 0
  const SET_ENCODINGS := 2
  const UPDATE_REQUEST := 3
  const KEY_EVENT := 4
  const POINTER_EVENT := 5
  const CLIENT_CUT_TEXT := 6
  const QEMU_MESSAGE := 255
  const QEMU_EXTENDED_KEY := 0

  datatype Measure = NeedMore | Unknown | Length(n: nat)

  /** `client_message_length`: the size of the message at the head of a buffer, where it can be told. */
  function ClientMessageLength(buffer: seq<byte>): (m: Measure)
    requires buffer != []
    ensures m.Length? ==> 4 <= m.n
  {
    var kind := buffer[0];
    if kind == SET_PIXEL_FORMAT then Length(20)
    else if kind == SET_ENCODINGS then
      if |buffer| < 4 then NeedMore else Length(4 + 4 * U16(buffer[2..4]))
    else if kind == UPDATE_REQUEST then Length(10)
    else if kind == KEY_EVENT then Length(8)
    else if kind == POINTER_EVENT then Length(6)
    else if kind == CLIENT_CUT_TEXT then
      if |buffer| < 8 then NeedMore else Length(8 + U32(buffer[4..8]))
    else if kind == QEMU_MESSAGE then
      if |buffer| < 2 then NeedMore
      else if buffer[1] == QEMU_EXTENDED_KEY then Length(12)
      else Unknown
    else Unknown
  }

  /** More bytes never change a measurement once it could be made. */
  lemma MeasureIsStable(buffer: seq<byte>, more: seq<byte>)
    requires buffer != [] && !ClientMessageLength(buffer).NeedMore?
    ensures ClientMessageLength(buffer + more) == ClientMessageLength(buffer)
  {
    var kind := buffer[0];
    if kind == SET_ENCODINGS { assert (buffer + more)[2..4] == buffer[2..4]; }
    if kind == CLIENT_CUT_TEXT { assert (buffer + more)[4..8] == buffer[4..8]; }
  }

  /** `saw_update_request`: whether a framebuffer was asked for, and the buffer left. */
  function SawUpdateRequest(buffer: seq<byte>): (bool, seq<byte>)
    decreases |buffer|
  {
    if buffer == [] then (false, buffer)
    else
      match ClientMessageLength(buffer)
      case Unknown => (true, [])
      case NeedMore => (false, buffer)
      case Length(n) =>
        if |buffer| < n then (false, buffer)
        else if buffer[0] == UPDATE_REQUEST then (true, buffer[n..])
        else SawUpdateRequest(buffer[n..])
  }

  /** One whole client message that is not an update request. */
  predicate Skippable(m: seq<byte>) {
    m != [] && m[0] != UPDATE_REQUEST && ClientMessageLength(m) == Length(|m|)
  }

  /** A whole update request, or a message whose end cannot be found. */
  predicate Releases(rest: seq<byte>) {
    rest != [] && (ClientMessageLength(rest).Unknown? || (rest[0] == UPDATE_REQUEST && 10 <= |rest|))
  }

  predicate Transcript(buffer: seq<byte>, messages: seq<seq<byte>>, rest: seq<byte>) {
    buffer == Flatten(messages) + rest && (forall i :: 0 <= i < |messages| ==> Skippable(messages[i]))
  }

  /** The client's bytes are whole messages up to one that releases the framebuffer. */
  ghost predicate Asks(buffer: seq<byte>) {
    exists messages: seq<seq<byte>>, rest: seq<byte> :: Transcript(buffer, messages, rest) && Releases(rest)
  }

  lemma {:induction false} SawImpliesAsks(buffer: seq<byte>) returns (messages: seq<seq<byte>>, rest: seq<byte>)
    requires SawUpdateRequest(buffer).0
    ensures Transcript(buffer, messages, rest) && Releases(rest)
    decreases |buffer|
  {
    var m := ClientMessageLength(buffer);
    if m.Unknown? || buffer[0] == UPDATE_REQUEST {
      messages, rest := [], buffer;
      assert [] + buffer == buffer;
    } else {
      var head, tail := buffer[..m.n], buffer[m.n..];
      assert buffer == head + tail;
      MeasureOfPrefix(buffer, m.n);
      var later: seq<seq<byte>>;
      later, rest := SawImpliesAsks(tail);
      TranscriptCons(head, tail, later, rest);
      messages := [head] + later;
    }
  }

  lemma TranscriptCons(head: seq<byte>, tail: seq<byte>, later: seq<seq<byte>>, rest: seq<byte>)
    requires Skippable(head) && Transcript(tail, later, rest)
    ensures Transcript(head + tail, [head] + later, rest)
  {
    hide Skippable;
    assert ([head] + later)[1..] == later;
    assert head + (Flatten(later) + rest) == (head + Flatten(later)) + rest;
  }

  lemma MeasureOfPrefix(buffer: seq<byte>, n: nat)
    requires buffer != [] && ClientMessageLength(buffer) == Length(n) && n <= |buffer|
    ensures ClientMessageLength(buffer[..n]) == Length(n)
  {
    var kind := buffer[0];
    if kind == SET_ENCODINGS { assert buffer[..n][2..4] == buffer[2..4]; }
    if kind == CLIENT_CUT_TEXT { assert buffer[..n][4..8] == buffer[4..8]; }
  }

  lemma {:induction false} AsksImpliesSaw(messages: seq<seq<byte>>, rest: seq<byte>)
    requires forall i :: 0 <= i < |messages| ==> Skippable(messages[i])
    requires Releases(rest)
    ensures SawUpdateRequest(Flatten(messages) + rest).0
    decreases |messages|
  {
    if messages == [] {
      assert [] + rest == rest;
    } else {
      var head, tail := messages[0], Flatten(messages[1..]) + rest;
      assert Flatten(messages) + rest == head + tail;
      assert Skippable(messages[0]);
      MeasureIsStable(head, tail);
      assert (head + tail)[|head|..] == tail && (head + tail)[0] == head[0];
      forall i | 0 <= i < |messages[1..]|
        ensures Skippable(messages[1..][i])
      {
        assert messages[1..][i] == messages[i + 1];
      }
      AsksImpliesSaw(messages[1..], rest);
    }
  }

  /** The scan answers yes exactly when whole messages lead up to one that releases the framebuffer. */
  lemma SawIffAsks(buffer: seq<byte>)
    ensures SawUpdateRequest(buffer).0 <==> Asks(buffer)
  {
    if SawUpdateRequest(buffer).0 {
      var messages, rest := SawImpliesAsks(buffer);
    }
    if Asks(buffer) {
      var messages: seq<seq<byte>>, rest: seq<byte> :| Transcript(buffer, messages, rest) && Releases(rest);
      AsksImpliesSaw(messages, rest);
    }
  }

  /** Scanning what has arrived and then the rest is scanning it all at once. */
  lemma {:induction false} SawAppend(buffer: seq<byte>, more: seq<byte>)
    ensures var (saw, left) := SawUpdateRequest(buffer);
            if saw then SawUpdateRequest(buffer + more).0
            else SawUpdateRequest(buffer + more) == SawUpdateRequest(left + more)
    decreases |buffer|
  {
    if buffer != [] && !ClientMessageLength(buffer).NeedMore? {
      MeasureIsStable(buffer, more);
      var m := ClientMessageLength(buffer);
      if m.Length? && m.n <= |buffer| && buffer[0] != UPDATE_REQUEST {
        assert (buffer + more)[m.n..] == buffer[m.n..] + more;
        SawAppend(buffer[m.n..], more);
      }
    }
  }

  // ---------------------------------------------------------------- the protocol as a value

  /** A capture: its server stream, and the version its session negotiated if that was recorded. */
  datatype Capture = Capture(s2c: seq<byte>, negotiated: Option<Version>)

  /** `ReplayProtocol`; `written` is what has gone to the transport and `closed` its loseConnection. */
  datatype Player = Player(
    scrub: State, pos: nat, buffer: seq<byte>, awaiting: bool, checked: bool,
    exhausted: bool, closed: bool, written: seq<byte>)

  /** A scrubber between whole steps. */
  predicate AtRest(st: State) { Settled(st) && st.s2c == [] && st.c2s == [] && !st.preserve }

  lemma {:induction false} ConsumeNothing(st: State, d: Dir)
    requires st.s2c == [] && st.c2s == [] && !st.preserve
    ensures var end := Consume(st, d, []).0;
            end.s2c == [] && end.c2s == [] && !end.preserve && Rank(end.step) <= Rank(st.step)
    decreases Rank(st.step)
  {
    hide Advance;
    if Watches(st.step, d) && Want(st.step) == 0 {
      var chunk: seq<byte> := [];
      ConsumeTake(st, d, chunk, chunk);
      assert chunk + chunk == chunk;
      ConsumeNothing(Take(st, []).0, d);
    }
  }

  /** Feeding exactly what is waited for moves the grammar on and leaves nothing pending. */
  lemma FeedExactly(st: State, d: Dir, chunk: seq<byte>)
    requires AtRest(st) && Watches(st.step, d) && |chunk| == Want(st.step)
    ensures var next := Feed(st, d, chunk).0; AtRest(next) && Rank(next.step) < Rank(st.step)
  {
    hide Advance;
    assert [] + chunk == chunk == chunk + [];
    ConsumeTake(st, d, chunk, []);
    ConsumeNothing(Take(st, chunk).0, d);
    FeedSettles(st, d, chunk);
  }

  /** `_version_mismatch`, asked after every client chunk. */
  predicate Mismatch(c: Capture, p: Player) {
    !p.checked && p.scrub.notes.negotiated.Some? && c.negotiated.Some? && c.negotiated != p.scrub.notes.negotiated
  }

  /** `_serve_session`. */
  function ServeSession(c: Capture, p: Player): Player
    requires p.pos <= |c.s2c|
  {
    var awaiting := p.awaiting || (p.scrub.step.Done? && p.scrub.notes.geometry.Some?);
    var (saw, left) := if awaiting then SawUpdateRequest(p.buffer) else (true, p.buffer);
    if !saw then p.(awaiting := true, buffer := left)
    else p.(awaiting := awaiting, buffer := left, exhausted := true, pos := |c.s2c|,
            written := p.written + c.s2c[p.pos..])
  }

  predicate ServerMaySpeak(c: Capture, p: Player) {
    Watches(p.scrub.step, S2C) && Want(p.scrub.step) <= |c.s2c| - p.pos
  }

  predicate ClientHasSpoken(p: Player) {
    Watches(p.scrub.step, C2S) && Want(p.scrub.step) <= |p.buffer|
  }

  /** One server step of `advance`: write it and tell the grammar. */
  function ServerTurn(c: Capture, p: Player): (q: Player)
    requires AtRest(p.scrub) && p.pos <= |c.s2c| && ServerMaySpeak(c, p)
    ensures AtRest(q.scrub) && Rank(q.scrub.step) < Rank(p.scrub.step)
    ensures p.pos <= q.pos <= |c.s2c| && q.written == p.written + c.s2c[p.pos..q.pos]
    ensures q == p.(scrub := q.scrub, pos := q.pos, written := q.written)
  {
    var end := p.pos + Want(p.scrub.step);
    var chunk := c.s2c[p.pos..end];
    FeedExactly(p.scrub, S2C, chunk);
    p.(scrub := Feed(p.scrub, S2C, chunk).0, pos := end, written := p.written + chunk)
  }

  /** One client step of `advance`: tell the grammar, then hold the client to the recorded version. */
  function ClientTurn(c: Capture, p: Player): (q: Player)
    requires AtRest(p.scrub) && !p.exhausted && ClientHasSpoken(p)
    ensures AtRest(q.scrub) && Rank(q.scrub.step) < Rank(p.scrub.step)
    ensures q.pos == p.pos && q.written == p.written && q.buffer == p.buffer[Want(p.scrub.step)..]
    ensures q.awaiting == p.awaiting
  {
    var n := Want(p.scrub.step);
    FeedExactly(p.scrub, C2S, p.buffer[..n]);
    var q := p.(scrub := Feed(p.scrub, C2S, p.buffer[..n]).0, buffer := p.buffer[n..]);
    var refused := Mismatch(c, q);
    q.(checked := q.checked || q.scrub.notes.negotiated.Some?, closed := p.closed || refused, exhausted := refused)
  }

  /** `advance`: write what the server says next, read what the client owes, until one of them runs out. */
  function Pace(c: Capture, p: Player): Player
    requires p.pos <= |c.s2c| && AtRest(p.scrub) && !p.exhausted
    decreases Rank(p.scrub.step)
  {
    if ServerMaySpeak(c, p) then Pace(c, ServerTurn(c, p))
    else if ClientHasSpoken(p) then
      var q := ClientTurn(c, p);
      if q.exhausted then q else Pace(c, q)
    else if Watches(p.scrub.step, C2S) then p
    else ServeSession(c, p)
  }

  /** A player before the connection is made. */
  function NewPlayer(): Player { Player(Start(false), 0, [], false, false, false, false, []) }

  /** `connectionMade`. */
  function Connect(c: Capture): Player { Pace(c, NewPlayer()) }

  /** What every state of every connection keeps: the bytes written are a prefix of the capture. */
  predicate Sound(c: Capture, p: Player) {
    && p.pos <= |c.s2c| && AtRest(p.scrub)
    && p.written == c.s2c[..p.pos]
  }

  lemma {:induction false} PaceIsSound(c: Capture, p: Player)
    requires Sound(c, p) && !p.exhausted
    ensures Sound(c, Pace(c, p))
    decreases Rank(p.scrub.step)
  {
    hide ServerTurn, ClientTurn, SawUpdateRequest, AtRest;
    if ServerMaySpeak(c, p) {
      var q := ServerTurn(c, p);
      assert c.s2c[..p.pos] + c.s2c[p.pos..q.pos] == c.s2c[..q.pos];
      PaceIsSound(c, q);
    } else if ClientHasSpoken(p) {
      if !ClientTurn(c, p).exhausted { PaceIsSound(c, ClientTurn(c, p)); }
    } else {
      assert c.s2c[..p.pos] + c.s2c[p.pos..] == c.s2c[..|c.s2c|];
    }
  }

  /** The same player with more unread client bytes. */
  function More(p: Player, bytes: seq<byte>): Player { p.(buffer := p.buffer + bytes) }

  /** `dataReceived`. */
  function Receive(c: Capture, p: Player, data: seq<byte>): (q: Player)
    requires Sound(c, p)
    ensures Sound(c, q)
  {
    if p.exhausted then p
    else
      PaceIsSound(c, More(p, data));
      Pace(c, More(p, data))
  }

  function ReceiveAll(c: Capture, p: Player, packets: seq<seq<byte>>): (q: Player)
    requires Sound(c, p)
    ensures Sound(c, q)
    decreases |packets|
  {
    if packets == [] then p
    else ReceiveAll(c, Receive(c, p, packets[0]), packets[1..])
  }

  /** A whole connection: the client's bytes arrive in these packets. */
  function Serve(c: Capture, packets: seq<seq<byte>>): (p: Player)
    ensures Sound(c, p)
  {
    PaceIsSound(c, NewPlayer());
    ReceiveAll(c, Connect(c), packets)
  }

  // ---------------------------------------------------------------- packet boundaries

  /** Equal in everything but unread client bytes. */
  predicate SameOutput(p: Player, q: Player) { p.(buffer := []) == q.(buffer := []) }

  lemma ClientTurnAppend(c: Capture, p: Player, more: seq<byte>)
    requires AtRest(p.scrub) && !p.exhausted && ClientHasSpoken(p)
    ensures ClientTurn(c, More(p, more)) == More(ClientTurn(c, p), more)
  {
    hide Feed, AtRest;
    var n := Want(p.scrub.step);
    assert (p.buffer + more)[..n] == p.buffer[..n] && (p.buffer + more)[n..] == p.buffer[n..] + more;
  }

  lemma ServeSessionAppend(c: Capture, p: Player, more: seq<byte>)
    requires p.pos <= |c.s2c| && !p.exhausted
    ensures var whole := ServeSession(c, More(p, more));
            var part := ServeSession(c, p);
            if part.exhausted then SameOutput(whole, part)
            else part.scrub == p.scrub && part.pos == p.pos && whole == ServeSession(c, More(part, more))
  {
    hide SawUpdateRequest;
    SawAppend(p.buffer, more);
  }

  lemma {:induction false} PaceAppend(c: Capture, p: Player, more: seq<byte>)
    requires Sound(c, p) && !p.exhausted
    ensures var whole := Pace(c, More(p, more));
            var part := Pace(c, p);
            Sound(c, part)
            && if part.exhausted then SameOutput(whole, part) else whole == Pace(c, More(part, more))
    decreases Rank(p.scrub.step)
  {
    PaceIsSound(c, p);
    hide ServerTurn, ClientTurn, ServeSession, AtRest;
    if ServerMaySpeak(c, p) {
      ServerTurnAppend(c, p, more);
      PaceIsSound(c, ServerTurn(c, p));
      PaceAppend(c, ServerTurn(c, p), more);
    } else if ClientHasSpoken(p) {
      ClientTurnAppend(c, p, more);
      if !ClientTurn(c, p).exhausted {
        PaceAppend(c, ClientTurn(c, p), more);
      }
    } else if !Watches(p.scrub.step, C2S) {
      ServeSessionAppend(c, p, more);
    }
  }

  lemma ServerTurnAppend(c: Capture, p: Player, more: seq<byte>)
    requires Sound(c, p) && ServerMaySpeak(c, p)
    ensures ServerTurn(c, More(p, more)) == More(ServerTurn(c, p), more) && Sound(c, ServerTurn(c, p))
  {
    hide Feed, AtRest;
    var q := ServerTurn(c, p);
    assert c.s2c[..p.pos] + c.s2c[p.pos..q.pos] == c.s2c[..q.pos];
  }

  /** A player that has done all it can with the bytes it has. */
  predicate Paced(c: Capture, p: Player)
    requires Sound(c, p)
  {
    p.exhausted || Pace(c, p) == p
  }

  lemma MoreNothing(p: Player)
    ensures More(p, []) == p
  {
    assert p.buffer + [] == p.buffer;
  }

  lemma PaceSettles(c: Capture, p: Player)
    requires Sound(c, p) && !p.exhausted
    ensures Sound(c, Pace(c, p)) && Paced(c, Pace(c, p))
  {
    hide Pace;
    PaceAppend(c, p, []);
    MoreNothing(p);
    MoreNothing(Pace(c, p));
  }

  lemma {:induction false} ReceiveAllAtOnce(c: Capture, p: Player, packets: seq<seq<byte>>)
    requires Sound(c, p) && Paced(c, p)
    ensures SameOutput(ReceiveAll(c, p, packets), Receive(c, p, Flatten(packets)))
    decreases |packets|
  {
    hide Pace;
    if packets == [] {
      MoreNothing(p);
    } else if p.exhausted {
      ReceiveAllAtOnce(c, p, packets[1..]);
    } else {
      var x, y := packets[0], Flatten(packets[1..]);
      PaceAppend(c, More(p, x), y);
      PaceSettles(c, More(p, x));
      ReceiveAllAtOnce(c, Pace(c, More(p, x)), packets[1..]);
      assert (p.buffer + x) + y == p.buffer + (x + y);
    }
  }

  /** How the client's bytes were cut into packets changes nothing that is sent. */
  lemma ClientPacketsDoNotMatter(c: Capture, a: seq<seq<byte>>, b: seq<seq<byte>>)
    requires Flatten(a) == Flatten(b)
    ensures SameOutput(Serve(c, a), Serve(c, b))
  {
    AllPacketsAsOne(c, a);
    AllPacketsAsOne(c, b);
  }

  /** A whole connection is pacing over everything the client sent. */
  lemma AllPacketsAsOne(c: Capture, packets: seq<seq<byte>>)
    ensures SameOutput(Serve(c, packets), Pace(c, More(NewPlayer(), Flatten(packets))))
  {
    PaceSettles(c, NewPlayer());
    hide Pace, More;
    ReceiveAllAtOnce(c, Connect(c), packets);
    PaceAppend(c, NewPlayer(), Flatten(packets));
  }
}
