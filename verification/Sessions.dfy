/**
  Whole RFB sessions as section 7.1 of RFC 6143 orders them, and what the scrubber records of them:
  a None-auth session of the same version that replays, re-parses and re-scrubs to itself.
 */
module Sessions {
  import opened Bytes
  import opened Handshake
  import opened Recording

  datatype Auth =
    | NoAuth
    | VncAuth(challenge: seq<byte>, response: seq<byte>)
    | DhAuth(generator: seq<byte>, modulus: seq<byte>, serverKey: seq<byte>,
             credentials: seq<byte>, clientKey: seq<byte>)

  /** One connection that authenticates with None, VNC authentication or Diffie-Hellman. */
  datatype Session = Session(
    serverVersion: seq<byte>,
    clientVersion: seq<byte>,
    offered: seq<byte>,
    auth: Auth,
    result: seq<byte>,
    shared: byte,
    init: seq<byte>,
    name: seq<byte>,
    tail: seq<Event>)

  function Kind(auth: Auth): (k: byte) {
    match auth case NoAuth => AUTH_NONE case VncAuth(_, _) => AUTH_VNC case DhAuth(_, _, _, _, _) => AUTH_DH
  }

  predicate ValidAuth(auth: Auth) {
    match auth
    case NoAuth => true
    case VncAuth(challenge, response) => |challenge| == 16 && |response| == 16
    case DhAuth(generator, modulus, serverKey, credentials, clientKey) =>
      && |generator| == 2 && |modulus| == |serverKey| == |clientKey| < 0x1_0000
      && |credentials| == ARD_CREDENTIALS_LEN
  }

  predicate Valid(s: Session) {
    && |s.serverVersion| == 12 && |s.clientVersion| == 12 && ParseVersion(s.clientVersion).Some?
    && 1 <= |s.offered| <= 255
    && ValidAuth(s.auth)
    && |s.result| == 4
    && |s.init| == 24 && |s.name| == U32(s.init[20..24])
  }

  function Negotiated(s: Session): Version
    requires Valid(s)
  {
    ParseVersion(s.clientVersion).value
  }

  /** Pre-3.8 None goes straight to initialisation (vncdotool/security/none.py lines 12 to 17). */
  predicate HasResult(s: Session)
    requires Valid(s)
  {
    Negotiated(s).AtLeast(3, 8) || !s.auth.NoAuth?
  }

  predicate Succeeds(s: Session)
    requires Valid(s)
  {
    U32(s.result) == 0
  }

  // ---------------------------------------------------------------- the session on the wire

  function Greeting(s: Session): seq<Event> { [Event(S2C, s.serverVersion), Event(C2S, s.clientVersion)] }

  function Negotiation(s: Session): seq<Event>
    requires Valid(s)
  {
    if Negotiated(s).AtLeast(3, 7)
    then [Event(S2C, [|s.offered|] + s.offered), Event(C2S, [Kind(s.auth)])]
    else [Event(S2C, Pack32(Kind(s.auth)))]
  }

  function Exchange(auth: Auth): seq<Event>
    requires ValidAuth(auth)
  {
    match auth
    case NoAuth => []
    case VncAuth(challenge, response) => [Event(S2C, challenge), Event(C2S, response)]
    case DhAuth(generator, modulus, serverKey, credentials, clientKey) =>
      [Event(S2C, generator + Pack16(|modulus|) + modulus + serverKey), Event(C2S, credentials + clientKey)]
  }

  function Initialisation(s: Session): seq<Event> {
    [Event(C2S, [s.shared]), Event(S2C, s.init + s.name)]
  }

  function Remainder(s: Session): seq<Event>
    requires Valid(s)
  {
    (if HasResult(s) then [Event(S2C, s.result)] else [])
    + (if HasResult(s) && !Succeeds(s) then [] else Initialisation(s))
    + s.tail
  }

  /** The whole session, in order, one event per turn. */
  function Script(s: Session): seq<Event>
    requires Valid(s)
  {
    Greeting(s) + Negotiation(s) + Exchange(s.auth) + Remainder(s)
  }

  /** The None-auth session of the same version, geometry, name and traffic. */
  function Noned(s: Session): Session { s.(auth := NoAuth, offered := [AUTH_NONE], result := Pack32(0)) }

  // ---------------------------------------------------------------- running a script

  /** A scrubber at rest with nothing held. */
  function At(step: Step, notes: Notes): State { State(step, notes, false, [], []) }

  /** Delivering exactly the bytes a step waits for. */
  lemma RecordExact(w: Writer, d: Dir, chunk: seq<byte>)
    requires w.scrub == At(w.scrub.step, w.scrub.notes)
    requires Watches(w.scrub.step, d) && |chunk| == Want(w.scrub.step) > 0
    requires var next := Take(w.scrub, chunk).0.step; next.Done? || Side(next) != d || Want(next) > 0
    ensures var (next, record) := Take(w.scrub, chunk);
            Record(w, Event(d, chunk)) == w.Emit(next, d, record)
  {
    hide Advance, Recorded;
    assert [] + chunk == chunk == chunk + [];
    ConsumeTake(w.scrub, d, chunk, []);
    var (next, record) := Take(w.scrub, chunk);
    assert Consume(next, d, []) == (next, []);
    assert record + [] == record;
  }

  lemma Run1(w: Writer, e: Event)
    ensures Run(w, [e]) == Record(w, e)
  {
    assert [e][1..] == [];
  }

  lemma Run2(w: Writer, e: Event, f: Event)
    ensures Run(w, [e, f]) == Record(Record(w, e), f)
  {
    assert [e, f][1..] == [f];
    Run1(Record(w, e), f);
  }

  /** What the scrubber knows once the version is negotiated, once the security type is, and at the end. */
  function VersionNotes(s: Session): Notes
    requires Valid(s)
  {
    NO_NOTES.(protocolVersion := Some(StripNewlines(s.serverVersion)), negotiated := Some(Negotiated(s)))
  }

  function TypeNotes(s: Session): Notes
    requires Valid(s)
  {
    VersionNotes(s).(
      securityTypes := if Negotiated(s).AtLeast(3, 7) then s.offered else [Kind(s.auth)],
      securityType := Some(Kind(s.auth)))
  }

  function FinalNotes(s: Session): Notes
    requires Valid(s)
  {
    TypeNotes(s).(geometry := Some((U16(s.init[..2]), U16(s.init[2..4]))))
  }

  lemma GreetingRecorded(s: Session)
    requires Valid(s)
    ensures var v := Negotiated(s);
            Run(Fresh(false), Greeting(s))
            == Writer(At(if v.AtLeast(3, 7) then TypeCount(v) else AuthWord(v), VersionNotes(s)),
                      s.serverVersion, s.clientVersion)
  {
    var w := Fresh(false);
    Run2(w, Event(S2C, s.serverVersion), Event(C2S, s.clientVersion));
    ServerVersionRecorded(w, s.serverVersion);
    ClientVersionRecorded(s, Record(w, Event(S2C, s.serverVersion)));
    hide Record, Run;
  }

  lemma ServerVersionRecorded(w: Writer, line: seq<byte>)
    requires w == Fresh(false) && |line| == 12
    ensures Record(w, Event(S2C, line)) == Writer(Take(w.scrub, line).0, line, [])
  {
    RecordExact(w, S2C, line);
    hide Record;
    assert [] + line == line;
  }

  lemma ClientVersionRecorded(s: Session, w: Writer)
    requires Valid(s) && w == Writer(Take(Fresh(false).scrub, s.serverVersion).0, s.serverVersion, [])
    ensures var v := Negotiated(s);
            Record(w, Event(C2S, s.clientVersion))
            == Writer(At(if v.AtLeast(3, 7) then TypeCount(v) else AuthWord(v), VersionNotes(s)), s.serverVersion,
                      s.clientVersion)
  {
    RecordExact(w, C2S, s.clientVersion);
    hide Record;
    assert [] + s.clientVersion == s.clientVersion;
  }

  /** Where the grammar stands once the security type is settled. */
  function AfterChoice(s: Session): Step
    requires Valid(s)
  {
    match s.auth
    case VncAuth(_, _) => Challenge(Negotiated(s))
    case DhAuth(_, _, _, _, _) => DhHead(Negotiated(s))
    case NoAuth => if HasResult(s) then SecurityResult(Negotiated(s)) else ClientInit
  }

  /** The real offer and choice are replaced by None's. */
  lemma OfferRecorded(s: Session, w: Writer)
    requires Valid(s) && Negotiated(s).AtLeast(3, 7)
    requires w.scrub == At(TypeCount(Negotiated(s)), VersionNotes(s))
    ensures Record(w, Event(S2C, [|s.offered|] + s.offered))
            == Writer(At(TypeChoice(Negotiated(s)), VersionNotes(s).(securityTypes := s.offered)),
                      w.s2c + [1, AUTH_NONE], w.c2s)
  {
    var v, count := Negotiated(s), [|s.offered|];
    hide ParseVersion, StripNewlines;
    var list := At(TypeList(v, |s.offered|), VersionNotes(s));
    assert Take(w.scrub, count) == (list, []);
    ConsumeTake(w.scrub, S2C, count, s.offered);
    assert s.offered + [] == s.offered;
    ConsumeTake(list, S2C, s.offered, []);
    var chosen := Take(list, s.offered).0;
    assert Consume(chosen, S2C, []) == (chosen, []);
    assert [] + ([1, AUTH_NONE] + []) == [1, AUTH_NONE];
    assert [] + (count + s.offered) == count + s.offered;
  }

  lemma ChoiceRecorded(s: Session, w: Writer)
    requires Valid(s) && Negotiated(s).AtLeast(3, 7)
    requires w.scrub == At(TypeChoice(Negotiated(s)), VersionNotes(s).(securityTypes := s.offered))
    ensures Record(w, Event(C2S, [Kind(s.auth)]))
            == Writer(At(AfterChoice(s), TypeNotes(s)), w.s2c, w.c2s + [AUTH_NONE])
  {
    hide ParseVersion, StripNewlines;
    RecordExact(w, C2S, [Kind(s.auth)]);
  }

  lemma AuthWordRecorded(s: Session, w: Writer)
    requires Valid(s) && !Negotiated(s).AtLeast(3, 7)
    requires w.scrub == At(AuthWord(Negotiated(s)), VersionNotes(s))
    ensures Record(w, Event(S2C, Pack32(Kind(s.auth))))
            == Writer(At(AfterChoice(s), TypeNotes(s)), w.s2c + Pack32(AUTH_NONE), w.c2s)
  {
    hide ParseVersion, StripNewlines;
    RecordExact(w, S2C, Pack32(Kind(s.auth)));
  }

  lemma NegotiationRecorded(s: Session, w: Writer)
    requires Valid(s)
    requires var v := Negotiated(s);
             w.scrub == At(if v.AtLeast(3, 7) then TypeCount(v) else AuthWord(v), VersionNotes(s))
    ensures Run(w, Negotiation(s))
            == Writer(At(AfterChoice(s), TypeNotes(s)),
                      w.s2c + Sent(Negotiation(Noned(s)), S2C), w.c2s + Sent(Negotiation(Noned(s)), C2S))
  {
    hide ParseVersion, StripNewlines, Take, Record, AfterChoice, TypeNotes, VersionNotes;
    if Negotiated(s).AtLeast(3, 7) {
      var offer := Event(S2C, [|s.offered|] + s.offered);
      Run2(w, offer, Event(C2S, [Kind(s.auth)]));
      OfferRecorded(s, w);
      ChoiceRecorded(s, Record(w, offer));
      Sent2(Event(S2C, [1] + [AUTH_NONE]), Event(C2S, [AUTH_NONE]));
    } else {
      Run1(w, Event(S2C, Pack32(Kind(s.auth))));
      AuthWordRecorded(s, w);
      Sent1(Event(S2C, Pack32(AUTH_NONE)));
    }
  }

  lemma Sent1(e: Event)
    ensures Sent([e], e.dir) == e.data && Sent([e], e.dir.Other()) == []
  {
    assert [e][1..] == [];
    assert e.data + [] == e.data;
  }

  lemma Sent2(e: Event, f: Event)
    requires e.dir != f.dir
    ensures Sent([e, f], e.dir) == e.data && Sent([e, f], f.dir) == f.data
  {
    assert [e, f][1..] == [f];
    assert f.dir.Other() == e.dir;
    Sent1(f);
    assert e.data + [] == e.data && [] + f.data == f.data;
  }

  /** Nothing of the auth exchange is recorded, in either direction. */
  lemma ExchangeRecorded(s: Session, w: Writer)
    requires Valid(s) && !s.auth.NoAuth?
    requires w.scrub == At(AfterChoice(s), TypeNotes(s))
    ensures Run(w, Exchange(s.auth)) == w.(scrub := At(SecurityResult(Negotiated(s)), TypeNotes(s)))
  {
    hide ParseVersion, StripNewlines;
    match s.auth
    case VncAuth(challenge, response) =>
      Run2(w, Event(S2C, challenge), Event(C2S, response));
      RecordExact(w, S2C, challenge);
      RecordExact(Record(w, Event(S2C, challenge)), C2S, response);
    case DhAuth(generator, modulus, serverKey, credentials, clientKey) =>
      Run2(w, Exchange(s.auth)[0], Exchange(s.auth)[1]);
      DhServerHalf(w, generator, modulus, serverKey);
      DhClientHalf(Record(w, Exchange(s.auth)[0]), |modulus|, credentials, clientKey);
  }

  lemma DhServerHalf(w: Writer, generator: seq<byte>, modulus: seq<byte>, serverKey: seq<byte>)
    requires w.scrub == At(w.scrub.step, w.scrub.notes) && w.scrub.step.DhHead?
    requires |generator| == 2 && |modulus| == |serverKey| < 0x1_0000
    ensures Record(w, Event(S2C, generator + Pack16(|modulus|) + modulus + serverKey))
            == w.(scrub := w.scrub.(step := DhCredentials(w.scrub.step.v, |modulus|)))
  {
    var head := generator + Pack16(|modulus|);
    assert head[2..4] == Pack16(|modulus|);
    var a := w.scrub;
    var b := a.(step := DhModulus(a.step.v, |modulus|));
    var c := a.(step := DhServerKey(a.step.v, |modulus|));
    var d := a.(step := DhCredentials(a.step.v, |modulus|));
    DhServerSteps(a, head, modulus, serverKey);
    assert Consume(d, S2C, []) == (d, []);
    hide Take, Advance, Recorded, Consume, U16;
    ConsumeTake(a, S2C, head, modulus + serverKey);
    ConsumeTake(b, S2C, modulus, serverKey);
    ConsumeTake(c, S2C, serverKey, []);
    assert serverKey + [] == serverKey;
    assert [] + (head + modulus + serverKey) == head + (modulus + serverKey);
    assert w.s2c + [] == w.s2c;
  }

  /** The server's three Diffie-Hellman steps record nothing. */
  lemma DhServerSteps(a: State, head: seq<byte>, modulus: seq<byte>, serverKey: seq<byte>)
    requires !a.preserve && a.step.DhHead?
    requires |head| == 4 && U16(head[2..4]) == |modulus| == |serverKey|
    ensures var b := a.(step := DhModulus(a.step.v, |modulus|));
            var c := a.(step := DhServerKey(a.step.v, |modulus|));
            var d := a.(step := DhCredentials(a.step.v, |modulus|));
            Take(a, head) == (b, []) && Take(b, modulus) == (c, []) && Take(c, serverKey) == (d, [])
  {
  }

  lemma DhClientHalf(w: Writer, keyLen: nat, credentials: seq<byte>, clientKey: seq<byte>)
    requires w.scrub == At(w.scrub.step, w.scrub.notes)
    requires w.scrub.step.DhCredentials? && w.scrub.step.keyLen == keyLen
    requires |credentials| == ARD_CREDENTIALS_LEN && |clientKey| == keyLen
    ensures Record(w, Event(C2S, credentials + clientKey))
            == w.(scrub := w.scrub.(step := SecurityResult(w.scrub.step.v)))
  {
    var a := w.scrub;
    var b := a.(step := DhClientKey(a.step.v, keyLen));
    var c := a.(step := SecurityResult(a.step.v));
    assert Take(a, credentials) == (b, []) && Take(b, clientKey) == (c, []);
    ConsumeTake(a, C2S, credentials, clientKey);
    ConsumeTake(b, C2S, clientKey, []);
    assert clientKey + [] == clientKey;
    assert [] + (credentials + clientKey) == credentials + clientKey;
    assert Consume(c, C2S, []) == (c, []);
    assert w.c2s + [] == w.c2s;
  }

  /** The SecurityResult survives only where None has a slot for it. */
  lemma ResultRecorded(s: Session, w: Writer)
    requires Valid(s) && HasResult(s) && Succeeds(s)
    requires w.scrub == At(SecurityResult(Negotiated(s)), TypeNotes(s))
    ensures Record(w, Event(S2C, s.result))
            == Writer(At(ClientInit, TypeNotes(s)),
                      w.s2c + if HasResult(Noned(s)) then Pack32(0) else [], w.c2s)
  {
    hide ParseVersion, StripNewlines;
    RecordExact(w, S2C, s.result);
  }

  lemma InitialisationRecorded(s: Session, w: Writer)
    requires Valid(s) && w.scrub == At(ClientInit, TypeNotes(s))
    ensures Run(w, Initialisation(s))
            == Writer(At(Done, FinalNotes(s)), w.s2c + (s.init + s.name), w.c2s + [s.shared])
  {
    hide ParseVersion, StripNewlines;
    Run2(w, Event(C2S, [s.shared]), Event(S2C, s.init + s.name));
    RecordExact(w, C2S, [s.shared]);
    ServerInitRecorded(s, Record(w, Event(C2S, [s.shared])));
  }

  lemma ServerInitRecorded(s: Session, w: Writer)
    requires Valid(s) && w.scrub == At(ServerInit, TypeNotes(s))
    ensures Record(w, Event(S2C, s.init + s.name))
            == w.(scrub := At(Done, FinalNotes(s)), s2c := w.s2c + (s.init + s.name))
  {
    hide ParseVersion, StripNewlines;
    var a := w.scrub;
    var named := At(if s.name != [] then ServerName(|s.name|) else Done, FinalNotes(s));
    assert Take(a, s.init) == (named, s.init);
    ConsumeTake(a, S2C, s.init, s.name);
    assert [] + (s.init + s.name) == s.init + s.name;
    if s.name != [] {
      var done := At(Done, FinalNotes(s));
      assert Take(named, s.name) == (done, s.name);
      ConsumeTake(named, S2C, s.name, []);
      assert s.name + [] == s.name;
      assert Consume(done, S2C, []) == (done, []);
    }
  }

  /** Once the grammar is done both directions are recorded as they arrive. */
  lemma {:induction false} TailRecorded(w: Writer, es: seq<Event>)
    requires w.scrub == At(Done, w.scrub.notes)
    ensures Run(w, es) == Writer(w.scrub, w.s2c + Sent(es, S2C), w.c2s + Sent(es, C2S))
    decreases |es|
  {
    if es == [] {
      assert w.s2c + [] == w.s2c && w.c2s + [] == w.c2s;
    } else {
      var e, rest := es[0], es[1..];
      var s2c, c2s := if e.dir.S2C? then e.data else [], if e.dir.C2S? then e.data else [];
      RecordedAfter(w, e);
      assert Run(w, es) == Run(Record(w, e), rest);
      assert Sent(es, S2C) == s2c + Sent(rest, S2C) && Sent(es, C2S) == c2s + Sent(rest, C2S);
      hide *;
      TailRecorded(Record(w, e), rest);
      ConcatAssociates(w.s2c, s2c, Sent(rest, S2C));
      ConcatAssociates(w.c2s, c2s, Sent(rest, C2S));
    }
  }

  /** Once the handshake is over every byte is recorded as it is. */
  lemma RecordedAfter(w: Writer, e: Event)
    requires w.scrub == At(Done, w.scrub.notes)
    ensures var s2c, c2s := if e.dir.S2C? then e.data else [], if e.dir.C2S? then e.data else [];
            Record(w, e) == Writer(w.scrub, w.s2c + s2c, w.c2s + c2s)
  {
    assert [] + e.data == e.data && w.s2c + [] == w.s2c && w.c2s + [] == w.c2s;
  }

  lemma {:induction false} SentConcat(a: seq<Event>, b: seq<Event>, d: Dir)
    ensures Sent(a + b, d) == Sent(a, d) + Sent(b, d)
    decreases |a|
  {
    if a == [] {
      assert a + b == b;
    } else {
      assert (a + b)[1..] == a[1..] + b;
      SentConcat(a[1..], b, d);
    }
  }

  lemma RemainderRecorded(s: Session, w: Writer)
    requires Valid(s) && (HasResult(s) ==> Succeeds(s))
    requires w.scrub == At(if HasResult(s) then SecurityResult(Negotiated(s)) else ClientInit, TypeNotes(s))
    ensures Run(w, Remainder(s))
            == Writer(At(Done, FinalNotes(s)),
                      w.s2c + Sent(Remainder(Noned(s)), S2C), w.c2s + Sent(Remainder(Noned(s)), C2S))
  {
    hide Record, ParseVersion, TypeNotes, FinalNotes;
    var result := if HasResult(s) then [Event(S2C, s.result)] else [];
    var noneResult := if HasResult(Noned(s)) then [Event(S2C, Pack32(0))] else [];
    var mid := Run(w, result);
    if HasResult(s) {
      Run1(w, Event(S2C, s.result));
      ResultRecorded(s, w);
    }
    if HasResult(Noned(s)) { Sent1(Event(S2C, Pack32(0))); }
    assert mid.scrub == At(ClientInit, TypeNotes(s));
    assert w.s2c + [] == w.s2c && w.c2s + [] == w.c2s;
    assert mid.s2c == w.s2c + Sent(noneResult, S2C) && mid.c2s == w.c2s + Sent(noneResult, C2S);
    InitialisationRecorded(s, mid);
    var end := Run(mid, Initialisation(s));
    TailRecorded(end, s.tail);
    RunConcat(w, result, Initialisation(s));
    RunConcat(w, result + Initialisation(s), s.tail);
    Sent2(Event(C2S, [s.shared]), Event(S2C, s.init + s.name));
    SentThree(w.s2c, noneResult, Initialisation(s), s.tail, S2C);
    SentThree(w.c2s, noneResult, Initialisation(s), s.tail, C2S);
  }

  lemma SentThree(had: seq<byte>, a: seq<Event>, b: seq<Event>, c: seq<Event>, d: Dir)
    ensures had + Sent(a, d) + Sent(b, d) + Sent(c, d) == had + Sent(a + b + c, d)
  {
    SentConcat(a + b, c, d);
    SentConcat(a, b, d);
  }

  /** A session delivered turn by turn is recorded as its None-auth counterpart, byte for byte. */
  lemma ScriptRecorded(s: Session)
    requires Valid(s) && (HasResult(s) ==> Succeeds(s))
    ensures Run(Fresh(false), Script(s))
            == Writer(At(Done, FinalNotes(s)), Sent(Script(Noned(s)), S2C), Sent(Script(Noned(s)), C2S))
  {
    hide Record, ParseVersion, TypeNotes, FinalNotes, Remainder, Negotiation, Exchange;
    var n := Noned(s);
    var w0 := Fresh(false);
    var w1 := Run(w0, Greeting(s));
    GreetingRecorded(s);
    var w2 := Run(w1, Negotiation(s));
    NegotiationRecorded(s, w1);
    var w3 := Run(w2, Exchange(s.auth));
    if s.auth.NoAuth? {
      ExchangeOfNone();
    } else {
      ExchangeRecorded(s, w2);
    }
    RemainderRecorded(s, w3);
    RunConcat(w0, Greeting(s), Negotiation(s));
    RunConcat(w0, Greeting(s) + Negotiation(s), Exchange(s.auth));
    RunConcat(w0, Greeting(s) + Negotiation(s) + Exchange(s.auth), Remainder(s));
    ExchangeOfNone();
    assert Greeting(n) + Negotiation(n) + [] == Greeting(n) + Negotiation(n);
    Sent2(Event(S2C, s.serverVersion), Event(C2S, s.clientVersion));
    assert [] + Sent(Script(n), S2C) == Sent(Script(n), S2C) && [] + Sent(Script(n), C2S) == Sent(Script(n), C2S);
    assert [] + s.serverVersion == s.serverVersion && [] + s.clientVersion == s.clientVersion;
    SentThree([], Greeting(n), Negotiation(n), Remainder(n), S2C);
    SentThree([], Greeting(n), Negotiation(n), Remainder(n), C2S);
  }

  lemma ExchangeOfNone()
    ensures Exchange(NoAuth) == []
  {
  }

  /** A session cut into packets in any way, and its recording after the disconnect flush. */
  function Archived(es: seq<Event>): Writer { Close(Run(Fresh(false), es)) }

  /**
    The recorded pair is a None-auth session of the same version: whatever the packet boundaries, its two
    streams are those of `Noned(s)`, with the same geometry, name and following bytes, and nothing aborted.
   */
  lemma RecordsANoneSession(s: Session, es: seq<Event>)
    requires Valid(s) && (HasResult(s) ==> Succeeds(s))
    requires Wire(es) == Wire(Script(s))
    ensures Valid(Noned(s)) && Negotiated(Noned(s)) == Negotiated(s)
    ensures Archived(es).s2c == Sent(Script(Noned(s)), S2C) && Archived(es).c2s == Sent(Script(Noned(s)), C2S)
    ensures var notes := Run(Fresh(false), es).scrub.notes;
            notes.negotiated == Some(Negotiated(s)) && notes.securityType == Some(Kind(s.auth))
            && notes.geometry == Some((U16(s.init[..2]), U16(s.init[2..4])))
            && notes.abort.None? && notes.unstrippable.None?
  {
    hide ParseVersion, Script, Record;
    PacketBoundariesDoNotMatter(false, es, Script(s));
    ScriptRecorded(s);
    var w := Run(Fresh(false), es);
    assert w.s2c + [] == w.s2c && w.c2s + [] == w.c2s;
  }

  /** Scrubbing a recording again changes nothing, whatever the packet boundaries of either pass. */
  lemma ScrubbingIsIdempotent(s: Session, first: seq<Event>, second: seq<Event>)
    requires Valid(s) && (HasResult(s) ==> Succeeds(s))
    requires Wire(first) == Wire(Script(s))
    requires Wire(second) == Wire(Script(Noned(s)))
    ensures Sent(second, S2C) == Archived(first).s2c && Sent(second, C2S) == Archived(first).c2s
    ensures Archived(second).s2c == Sent(second, S2C) && Archived(second).c2s == Sent(second, C2S)
  {
    hide ParseVersion, Script, Record;
    RecordsANoneSession(s, first);
    assert U32(Pack32(0)) == 0;
    RecordsANoneSession(Noned(s), second);
    assert Noned(Noned(s)) == Noned(s);
    SentOfWire(second, S2C);
    SentOfWire(second, C2S);
    SentOfWire(Script(Noned(s)), S2C);
    SentOfWire(Script(Noned(s)), C2S);
  }

  lemma {:induction false} SentOfSingles(e: Dir, data: seq<byte>, d: Dir)
    ensures Sent(Singles(e, data), d) == if e == d then data else []
    decreases |data|
  {
    if data != [] {
      assert Singles(e, data)[1..] == Singles(e, data[1..]);
      SentOfSingles(e, data[1..], d);
      assert [data[0]] + data[1..] == data;
    }
  }

  /** The bytes of one direction do not depend on packet boundaries. */
  lemma {:induction false} SentOfWire(es: seq<Event>, d: Dir)
    ensures Sent(Wire(es), d) == Sent(es, d)
    decreases |es|
  {
    if es != [] {
      SentOfSingles(es[0].dir, es[0].data, d);
      SentOfWire(es[1..], d);
      SentConcat(Singles(es[0].dir, es[0].data), Wire(es[1..]), d);
    }
  }
}
