/**
  Recording and replay end to end: what was captured from any followable session, served to a client that
  speaks the None-auth handshake of the same version, reproduces the session.
 */
module RoundTrip {
  import opened Bytes
  import opened Handshake
  import opened Recording
  import opened Sessions
  import opened Replay
  import opened ReplaySafety

  lemma FollowClient(step: Step, notes: Notes, chunk: seq<byte>, server: seq<byte>, client: seq<byte>,
                     archived: Option<Version>)
    requires Watches(step, C2S) && |chunk| == Want(step)
    requires var r := Advance(step, notes, chunk, false);
             !step.ClientVersion? || archived.None? || archived == r.notes.negotiated
    ensures var r := Advance(step, notes, chunk, false);
            Follow(step, notes, server, chunk + client, archived)
            == Later(Follow(r.step, r.notes, server, client, archived), 0, |chunk|)
  {
    hide Advance;
    assert (chunk + client)[..|chunk|] == chunk && (chunk + client)[|chunk|..] == client;
  }

  lemma FollowInitialisation(s: Session, notes: Notes, server: seq<byte>, client: seq<byte>, archived: Option<Version>)
    requires Valid(s)
    ensures Follow(ClientInit, notes, (s.init + s.name) + server, [s.shared] + client, archived)
            == Dialogue(Finished(true), 24 + |s.name|, 1)
  {
    hide Follow, ParseVersion;
    var stream := s.init + (s.name + server);
    assert (s.init + s.name) + server == stream;
    FollowClient(ClientInit, notes, [s.shared], stream, client, archived);
    FollowServer(ServerInit, notes, s.init, s.name + server, client, archived);
    var r := Advance(ServerInit, notes, s.init, false);
    if s.name == [] {
      assert s.name + server == server;
      FollowDone(r.notes, server, client, archived);
    } else {
      FollowServer(r.step, r.notes, s.name, server, client, archived);
      FollowDone(r.notes, server, client, archived);
    }
  }

  lemma FollowDone(notes: Notes, server: seq<byte>, client: seq<byte>, archived: Option<Version>)
    ensures Follow(Done, notes, server, client, archived) == Dialogue(Finished(notes.geometry.Some?), 0, 0)
  {
  }

  /** The server's and the client's halves of a None-auth handshake, through the server name. */
  function ServerHalf(s: Session): seq<byte>
    requires Valid(s) && s.auth.NoAuth?
  {
    s.serverVersion + (Sent(Negotiation(s), S2C) + ((if HasResult(s) then s.result else []) + (s.init + s.name)))
  }

  function ClientHalf(s: Session): seq<byte>
    requires Valid(s) && s.auth.NoAuth?
  {
    s.clientVersion + (Sent(Negotiation(s), C2S) + [s.shared])
  }

  lemma FollowResult(s: Session, notes: Notes, server: seq<byte>, client: seq<byte>, archived: Option<Version>)
    requires Valid(s) && s.auth.NoAuth? && s.result == Pack32(0)
    ensures var result := if HasResult(s) then s.result else [];
            Follow(AfterChoice(s), notes, (result + (s.init + s.name)) + server, [s.shared] + client, archived)
            == Dialogue(Finished(true), |result| + 24 + |s.name|, 1)
  {
    hide Follow, ParseVersion;
    FollowInitialisation(s, notes, server, client, archived);
    if HasResult(s) {
      assert (s.result + (s.init + s.name)) + server == s.result + ((s.init + s.name) + server);
      FollowServer(SecurityResult(Negotiated(s)), notes, s.result, (s.init + s.name) + server, [s.shared] + client,
                   archived);
    } else {
      assert [] + (s.init + s.name) == s.init + s.name;
    }
  }

  /** `archived` is the capture's own version, or unknown. */
  predicate ServesVersion(s: Session, archived: Option<Version>)
    requires Valid(s)
  {
    archived.None? || archived == Some(Negotiated(s))
  }

  lemma FollowNegotiation(s: Session, server: seq<byte>, client: seq<byte>, archived: Option<Version>)
    requires Valid(s) && s.auth.NoAuth? && s.offered == [AUTH_NONE]
    ensures var v := Negotiated(s);
            var start := if v.AtLeast(3, 7) then TypeCount(v) else AuthWord(v);
            Follow(start, VersionNotes(s), Sent(Negotiation(s), S2C) + server, Sent(Negotiation(s), C2S) + client,
                   archived)
            == Later(Follow(AfterChoice(s), TypeNotes(s), server, client, archived),
                     |Sent(Negotiation(s), S2C)|, |Sent(Negotiation(s), C2S)|)
  {
    hide Follow, ParseVersion, StripNewlines;
    var v, notes := Negotiated(s), VersionNotes(s);
    if v.AtLeast(3, 7) {
      Sent2(Event(S2C, [1] + [AUTH_NONE]), Event(C2S, [AUTH_NONE]));
      var offer: seq<byte>, choice: seq<byte> := [1], [AUTH_NONE];
      assert ([1] + [AUTH_NONE]) + server == offer + (choice + server);
      FollowServer(TypeCount(v), notes, offer, choice + server, choice + client, archived);
      FollowServer(TypeList(v, 1), notes, choice, server, choice + client, archived);
      FollowClient(TypeChoice(v), notes.(securityTypes := choice), choice, server, client, archived);
    } else {
      Sent1(Event(S2C, Pack32(AUTH_NONE)));
      assert [] + client == client;
      FollowServer(AuthWord(v), notes, Pack32(AUTH_NONE), server, client, archived);
    }
  }

  lemma FollowHandshake(s: Session, server: seq<byte>, client: seq<byte>, archived: Option<Version>)
    requires Valid(s) && s.auth.NoAuth? && s.offered == [AUTH_NONE] && s.result == Pack32(0)
    requires ServesVersion(s, archived)
    ensures Follow(ServerVersion, NO_NOTES, ServerHalf(s) + server, ClientHalf(s) + client, archived)
            == Dialogue(Finished(true), |ServerHalf(s)|, |ClientHalf(s)|)
  {
    hide Follow, ParseVersion, StripNewlines, Sent, Negotiation, AfterChoice, TypeNotes;
    var result := (if HasResult(s) then s.result else []) + (s.init + s.name);
    var offer, choice := Sent(Negotiation(s), S2C), Sent(Negotiation(s), C2S);
    FollowResult(s, TypeNotes(s), server, client, archived);
    FollowNegotiation(s, result + server, [s.shared] + client, archived);
    var greeted := NO_NOTES.(protocolVersion := Some(StripNewlines(s.serverVersion)));
    var server1, client1 := offer + (result + server), choice + ([s.shared] + client);
    FollowServer(ServerVersion, NO_NOTES, s.serverVersion, server1, s.clientVersion + client1, archived);
    FollowClient(ClientVersion, greeted, s.clientVersion, server1, client1, archived);
    Regroup(s.serverVersion, offer, result, server);
    Regroup(s.clientVersion, choice, [s.shared], client);
  }

  lemma Regroup(a: seq<byte>, b: seq<byte>, c: seq<byte>, d: seq<byte>)
    ensures (a + (b + c)) + d == a + (b + (c + d))
  {
  }

  /** The server's stream of a None-auth session is its half of the handshake and then the session proper. */
  lemma ServerStream(s: Session)
    requires Valid(s) && s.auth.NoAuth? && s.result == Pack32(0)
    ensures Sent(Script(s), S2C) == ServerHalf(s) + Sent(s.tail, S2C)
  {
    hide ParseVersion, Negotiation;
    var result := if HasResult(s) then [Event(S2C, s.result)] else [];
    SentConcat(Greeting(s) + Negotiation(s) + Exchange(s.auth), Remainder(s), S2C);
    assert Greeting(s) + Negotiation(s) + [] == Greeting(s) + Negotiation(s);
    SentConcat(Greeting(s), Negotiation(s), S2C);
    SentThree([], result, Initialisation(s), s.tail, S2C);
    Sent2(Event(S2C, s.serverVersion), Event(C2S, s.clientVersion));
    Sent2(Event(C2S, [s.shared]), Event(S2C, s.init + s.name));
    if HasResult(s) { Sent1(Event(S2C, s.result)); }
    var offer, answer := Sent(Negotiation(s), S2C), if HasResult(s) then s.result else [];
    assert [] + Sent(result, S2C) + Sent(Initialisation(s), S2C) == answer + (s.init + s.name);
    assert [] + Sent(Remainder(s), S2C) == Sent(Remainder(s), S2C);
    Regroup(s.serverVersion, offer, answer + (s.init + s.name), Sent(s.tail, S2C));
    ConcatAssociates(s.serverVersion, offer, answer + (s.init + s.name) + Sent(s.tail, S2C));
  }

  /**
    A capture of any session that succeeded with None, VNC or Diffie-Hellman authentication replays: a client
    that speaks the None handshake of the recorded version is sent exactly the handshake through the server
    name, and the rest of the recorded session once it asks for a framebuffer - in any packets, both times.
   */
  lemma CapturesReplay(s: Session, es: seq<Event>, archived: Option<Version>, more: seq<byte>, packets: seq<seq<byte>>)
    requires Valid(s) && (HasResult(s) ==> Succeeds(s)) && Wire(es) == Wire(Script(s))
    requires ServesVersion(s, archived)
    requires Flatten(packets) == ClientHalf(Noned(s)) + more
    ensures var capture := Capture(Archived(es).s2c, archived);
            capture.s2c == ServerHalf(Noned(s)) + Sent(s.tail, S2C)
            && Serve(capture, packets).written
               == if Asks(more) then capture.s2c else ServerHalf(Noned(s))
  {
    hide ParseVersion, Follow, Script, Asks, Serve, ServerHalf, ClientHalf, Sent;
    var n := Noned(s);
    RecordsANoneSession(s, es);
    ServerStream(n);
    var c := Capture(Archived(es).s2c, archived);
    ReplayWritesWhatIsAllowed(c, packets);
    FollowHandshake(n, Sent(s.tail, S2C), more, archived);
    assert (ClientHalf(n) + more)[|ClientHalf(n)|..] == more;
    assert c.s2c[..|ServerHalf(n)|] == ServerHalf(n);
  }
}
