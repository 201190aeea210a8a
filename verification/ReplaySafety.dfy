/**
  Replay against an independent reading of the dialogue: the grammar alone run over the whole capture and
  the whole of what the client sends, with no buffers, no pacing and no packets.
 */
module ReplaySafety {
  import opened Bytes
  import opened Handshake
  import opened Replay

  datatype Outcome =
    | Refused                      // the client negotiated another version than the capture's
    | Truncated                    // the capture ends inside the handshake
    | Stalled                      // the client has yet to say its part
    | Finished(parsed: bool)       // the grammar ended; parsed: it got through ServerInit

  /** How far the two whole streams carry the handshake, and why it stops there. */
  datatype Dialogue = Dialogue(outcome: Outcome, sent: nat, heard: nat)

  /** The handshake grammar over two whole streams. */
  function Follow(step: Step, notes: Notes, server: seq<byte>, client: seq<byte>,
                  archived: Option<Version>): (r: Dialogue)
    ensures r.sent <= |server| && r.heard <= |client|
    decreases Rank(step)
  {
    if step.Done? then Dialogue(Finished(notes.geometry.Some?), 0, 0)
    else
      var n := Want(step);
      if Side(step).S2C? then
        if |server| < n then Dialogue(Truncated, 0, 0)
        else
          var r := Advance(step, notes, server[..n], false);
          var d := Follow(r.step, r.notes, server[n..], client, archived);
          d.(sent := d.sent + n)
      else if |client| < n then Dialogue(Stalled, 0, 0)
      else
        var r := Advance(step, notes, client[..n], false);
        if step.ClientVersion? && r.notes.negotiated.Some? && archived.Some? && archived != r.notes.negotiated then
          Dialogue(Refused, 0, n)
        else
          var d := Follow(r.step, r.notes, server, client[n..], archived);
          d.(heard := d.heard + n)
  }

  /** What may have been written, given everything the client has sent so far. */
  ghost function Allowed(c: Capture, client: seq<byte>): seq<byte> {
    var d := Follow(ServerVersion, NO_NOTES, c.s2c, client, c.negotiated);
    match d.outcome
    case Refused => c.s2c[..d.sent]
    case Stalled => c.s2c[..d.sent]
    case Truncated => c.s2c
    case Finished(parsed) => if parsed && !Asks(client[d.heard..]) then c.s2c[..d.sent] else c.s2c
  }

  /** The version is negotiated by exactly the steps after the client's reply. */
  predicate Versioned(step: Step, notes: Notes) {
    && (step.ServerVersion? || step.ClientVersion? ==> notes.negotiated.None?)
    && (notes.negotiated.None? ==> step.ServerVersion? || step.ClientVersion? || step.Done?)
  }

  lemma AdvanceVersioned(step: Step, notes: Notes, chunk: seq<byte>)
    requires !step.Done? && |chunk| == Want(step) && Versioned(step, notes)
    ensures var r := Advance(step, notes, chunk, false);
            Versioned(r.step, r.notes) && (!step.ClientVersion? ==> r.notes.negotiated == notes.negotiated)
            && !r.step.ServerVersion?
  {
    hide ParseVersion, StripNewlines;
  }

  /** The drain of zero-length steps is the grammar's own next steps. */
  lemma {:induction false} FollowDrained(st: State, d: Dir, server: seq<byte>, client: seq<byte>,
                                         archived: Option<Version>)
    requires !st.preserve && Versioned(st.step, st.notes)
    ensures var end := Consume(st, d, []).0;
            Versioned(end.step, end.notes) && end.notes.negotiated == st.notes.negotiated
            && Follow(st.step, st.notes, server, client, archived)
               == Follow(end.step, end.notes, server, client, archived)
    decreases Rank(st.step)
  {
    hide Advance, Recorded;
    if Watches(st.step, d) && Want(st.step) == 0 {
      var chunk: seq<byte> := [];
      assert chunk + chunk == chunk;
      ConsumeTake(st, d, chunk, chunk);
      AdvanceVersioned(st.step, st.notes, chunk);
      var next := Take(st, chunk).0;
      FollowDrained(next, d, server, client, archived);
      assert server[..0] == [] && server[0..] == server && client[..0] == [] && client[0..] == client;
    }
  }

  /** A player in step with the grammar. */
  predicate InStep(c: Capture, p: Player) {
    && Sound(c, p) && !p.exhausted && !p.closed && !p.awaiting
    && Versioned(p.scrub.step, p.scrub.notes)
    && (p.checked <==> p.scrub.notes.negotiated.Some?)
  }

  /** What is left of the dialogue for a player. */
  function Ahead(c: Capture, p: Player): Dialogue
    requires p.pos <= |c.s2c|
  {
    Follow(p.scrub.step, p.scrub.notes, c.s2c[p.pos..], p.buffer, c.negotiated)
  }

  /** A dialogue with more already said. */
  function Later(d: Dialogue, sent: nat, heard: nat): Dialogue { d.(sent := d.sent + sent, heard := d.heard + heard) }

  /** The grammar's own server step. */
  lemma FollowServer(step: Step, notes: Notes, chunk: seq<byte>, server: seq<byte>, client: seq<byte>,
                     archived: Option<Version>)
    requires Watches(step, S2C) && |chunk| == Want(step)
    ensures var r := Advance(step, notes, chunk, false);
            Follow(step, notes, chunk + server, client, archived)
            == Later(Follow(r.step, r.notes, server, client, archived), |chunk|, 0)
  {
    hide Advance;
    assert (chunk + server)[..|chunk|] == chunk && (chunk + server)[|chunk|..] == server;
  }

  /** A server turn, without the tap. */
  lemma ServerTurnTakes(c: Capture, p: Player)
    requires InStep(c, p) && ServerMaySpeak(c, p)
    ensures var q, n := ServerTurn(c, p), Want(p.scrub.step);
            var taken := Take(p.scrub, c.s2c[p.pos..p.pos + n]).0;
            && q == p.(scrub := Consume(taken, S2C, []).0, pos := p.pos + n,
                       written := p.written + c.s2c[p.pos..p.pos + n])
            && taken.preserve == p.scrub.preserve
            && (var r := Advance(p.scrub.step, p.scrub.notes, c.s2c[p.pos..p.pos + n], false);
                taken.step == r.step && taken.notes == r.notes)
  {
    hide Advance, Recorded;
    var chunk := c.s2c[p.pos..p.pos + Want(p.scrub.step)];
    assert [] + chunk == chunk == chunk + [];
    ConsumeTake(p.scrub, S2C, chunk, []);
  }

  lemma ServerTurnAhead(c: Capture, p: Player)
    requires InStep(c, p) && ServerMaySpeak(c, p)
    ensures var q := ServerTurn(c, p);
            && Versioned(q.scrub.step, q.scrub.notes) && q.scrub.notes.negotiated == p.scrub.notes.negotiated
            && Ahead(c, p) == Ahead(c, q).(sent := Ahead(c, q).sent + (q.pos - p.pos))
  {
    var n := Want(p.scrub.step);
    var chunk, rest := c.s2c[p.pos..p.pos + n], c.s2c[p.pos + n..];
    assert c.s2c[p.pos..] == chunk + rest;
    assert !p.scrub.step.ClientVersion? && !p.scrub.preserve && Versioned(p.scrub.step, p.scrub.notes);
    assert Watches(p.scrub.step, S2C) && !p.scrub.step.Done?;
    hide InStep, Sound, AtRest, ServerMaySpeak, ServerTurn, Advance, Recorded, Settled, Follow, Take, Want, Consume,
         Versioned, Watches, Rank;
    FollowServer(p.scrub.step, p.scrub.notes, chunk, rest, p.buffer, c.negotiated);
    AdvanceVersioned(p.scrub.step, p.scrub.notes, chunk);
    ServerTurnTakes(c, p);
    FollowDrained(Take(p.scrub, chunk).0, S2C, rest, p.buffer, c.negotiated);
  }

  lemma ServerTurnFollows(c: Capture, p: Player)
    requires InStep(c, p) && ServerMaySpeak(c, p)
    ensures var q := ServerTurn(c, p);
            InStep(c, q) && Ahead(c, p) == Ahead(c, q).(sent := Ahead(c, q).sent + (q.pos - p.pos))
  {
    ServerTurnAhead(c, p);
    var q := ServerTurn(c, p);
    assert c.s2c[..p.pos] + c.s2c[p.pos..q.pos] == c.s2c[..q.pos];
    hide ServerTurn, ServerMaySpeak, AtRest, Ahead, Versioned, Rank;
  }

  lemma ClientTurnFollows(c: Capture, p: Player)
    requires InStep(c, p) && ClientHasSpoken(p)
    ensures var q := ClientTurn(c, p);
            var n := Want(p.scrub.step);
            if q.exhausted then Ahead(c, p) == Dialogue(Refused, 0, n) && q.closed
            else InStep(c, q) && Ahead(c, p) == Ahead(c, q).(heard := Ahead(c, q).heard + n)
  {
    hide Advance, Recorded, Settled;
    var n := Want(p.scrub.step);
    var chunk := p.buffer[..n];
    assert [] + chunk == chunk == chunk + [];
    AdvanceVersioned(p.scrub.step, p.scrub.notes, chunk);
    ConsumeTake(p.scrub, C2S, chunk, []);
    FollowDrained(Take(p.scrub, chunk).0, C2S, c.s2c[p.pos..], p.buffer[n..], c.negotiated);
  }

  /** `q` is where pacing ends up when dialogue `d` is ahead of `p`. */
  predicate EndsUp(c: Capture, p: Player, d: Dialogue, q: Player)
    requires p.pos + d.sent <= |c.s2c| && d.heard <= |p.buffer|
  {
    var held := c.s2c[..p.pos + d.sent];
    match d.outcome
    case Refused => q.written == held && q.exhausted && q.closed
    case Stalled => q.written == held && !q.exhausted && !q.closed
    case Truncated => q.written == c.s2c && q.exhausted && !q.closed
    case Finished(parsed) =>
      if parsed && !SawUpdateRequest(p.buffer[d.heard..]).0
      then q.written == held && !q.exhausted && !q.closed
      else q.written == c.s2c && q.exhausted && !q.closed
  }

  lemma PaceStops(c: Capture, p: Player)
    requires InStep(c, p) && !ServerMaySpeak(c, p) && !ClientHasSpoken(p)
    ensures EndsUp(c, p, Ahead(c, p), Pace(c, p))
  {
    hide Settled, Advance, SawUpdateRequest, Versioned;
    assert c.s2c[..p.pos] + c.s2c[p.pos..] == c.s2c;
    assert p.buffer[0..] == p.buffer;
  }

  /** One turn of `advance`'s loop. */
  lemma PaceTurns(c: Capture, p: Player)
    requires InStep(c, p)
    ensures ServerMaySpeak(c, p) ==> !ServerTurn(c, p).exhausted && Pace(c, p) == Pace(c, ServerTurn(c, p))
    ensures !ServerMaySpeak(c, p) && ClientHasSpoken(p) ==>
              var q := ClientTurn(c, p); Pace(c, p) == if q.exhausted then q else Pace(c, q)
  {
    hide ServerTurn, ClientTurn, Settled, Advance, SawUpdateRequest, Versioned;
  }

  /** Where pacing ends up, from any point of the handshake. */
  lemma {:induction false} PaceFollows(c: Capture, p: Player)
    requires InStep(c, p)
    ensures EndsUp(c, p, Ahead(c, p), Pace(c, p))
    decreases Rank(p.scrub.step)
  {
    hide ServerTurn, ClientTurn, Settled, Advance, SawUpdateRequest, Versioned, Follow, Pace;
    PaceTurns(c, p);
    if ServerMaySpeak(c, p) {
      ServerTurnFollows(c, p);
      PaceFollows(c, ServerTurn(c, p));
    } else if ClientHasSpoken(p) {
      ClientTurnFollows(c, p);
      var q, n := ClientTurn(c, p), Want(p.scrub.step);
      if !q.exhausted {
        PaceFollows(c, q);
        assert p.buffer[n..][Ahead(c, q).heard..] == p.buffer[Ahead(c, q).heard + n..];
      }
    } else {
      PaceStops(c, p);
    }
  }

  /**
    Replay safety: after any client bytes in any packets, exactly what the dialogue allows has been written -
    a prefix of the capture, and nothing past the server name until the client has asked for a framebuffer
    (or sent a message that cannot be measured), if the handshake parsed fully.
   */
  lemma ReplayWritesWhatIsAllowed(c: Capture, packets: seq<seq<byte>>)
    ensures var p := Serve(c, packets);
            p.written == c.s2c[..p.pos] && p.written == Allowed(c, Flatten(packets))
  {
    var client := Flatten(packets);
    AllPacketsAsOne(c, packets);
    PacingWritesWhatIsAllowed(c, client);
  }

  lemma PacingWritesWhatIsAllowed(c: Capture, client: seq<byte>)
    ensures Pace(c, More(NewPlayer(), client)).written == Allowed(c, client)
  {
    hide Pace, Follow;
    var start := More(NewPlayer(), client);
    assert start.buffer == client by { assert [] + client == client; }
    assert c.s2c[0..] == c.s2c;
    PaceFollows(c, start);
    var d := Follow(ServerVersion, NO_NOTES, c.s2c, client, c.negotiated);
    SawIffAsks(client[d.heard..]);
  }
}
