/**
  The handshake grammar of section 7.1 of RFC 6143 as the capture scrubber follows it
  (vncdotool/capture.py): the suspension points of the `_run` generator, what each waits for,
  and what one delivered chunk does.
 */
module Handshake {
  import opened Bytes

  /** The two directions of the proxied connection. */
  datatype Dir = S2C | C2S {
    function Other(): Dir { if S2C? then C2S else S2C }
  }

  datatype Version = Version(major: int, minor: int) {
    /** Python's tuple comparison `(major, minor) >= (a, b)`. */
    predicate AtLeast(a: int, b: int) { major > a || (major == a && minor >= b) }
  }

  const AUTH_INVALID := 0
  const AUTH_NONE := 1
  const AUTH_VNC := 2
  const AUTH_DH := 30
  const ARD_CREDENTIALS_LEN := 128

  // ---------------------------------------------------------------- version replies

  predicate IsSpace(b: byte) { 9 <= b <= 13 || b == 32 }

  predicate IsDigit(b: byte) { 48 <= b <= 57 }

  function StripLeft(s: seq<byte>): seq<byte> {
    if s != [] && IsSpace(s[0]) then StripLeft(s[1..]) else s
  }

  function StripRight(s: seq<byte>): seq<byte> {
    if s != [] && IsSpace(s[|s| - 1]) then StripRight(s[..|s| - 1]) else s
  }

  /** Decimal digits, a single underscore allowed between two of them. */
  function Digits(s: seq<byte>, acc: nat): Option<nat> {
    if s == [] || !IsDigit(s[0]) then None
    else
      var digit: nat := s[0];
      var n := 10 * acc + (digit - 48);
      if |s| == 1 then Some(n)
      else if s[1] == 95 then Digits(s[2..], n)
      else Digits(s[1..], n)
  }

  /** Python's `int(b)` on a byte string; None is its ValueError. */
  function PyInt(s: seq<byte>): Option<int> {
    var t := StripRight(StripLeft(s));
    if t == [] then None
    else if t[0] == 45 then
      match Digits(t[1..], 0) case None => None case Some(n) => var m: int := n; Some(-m)
    else
      match Digits(if t[0] == 43 then t[1..] else t, 0) case None => None case Some(n) => Some(n)
  }

  /** `(int(head[4:7]), int(head[8:11]))`, None where either raises. */
  function ParseVersion(head: seq<byte>): Option<Version>
    requires |head| == 12
  {
    match (PyInt(head[4..7]), PyInt(head[8..11]))
    case (Some(a), Some(b)) => Some(Version(a, b))
    case _ => None
  }

  function StripNewlines(s: seq<byte>): seq<byte> {
    if s != [] && s[|s| - 1] == 10 then StripNewlines(s[..|s| - 1]) else s
  }

  // ---------------------------------------------------------------- the generator's suspension points

  datatype Step =
    | ServerVersion
    | ClientVersion
    | TypeCount(v: Version)
    | TypeList(v: Version, count: nat)
    | TypeChoice(v: Version)
    | AuthWord(v: Version)
    | Challenge(v: Version)
    | Response(v: Version)
    | DhHead(v: Version)
    | DhModulus(v: Version, keyLen: nat)
    | DhServerKey(v: Version, keyLen: nat)
    | DhCredentials(v: Version, keyLen: nat)
    | DhClientKey(v: Version, keyLen: nat)
    | SecurityResult(v: Version)
    | ClientInit
    | ServerInit
    | ServerName(len: nat)
    | Done

  /** The direction a step reads from. */
  function Side(step: Step): Dir
    requires !step.Done?
  {
    match step
    case ServerVersion | TypeCount(_) | TypeList(_, _) | AuthWord(_) | Challenge(_) | DhHead(_) => S2C
    case DhModulus(_, _) | DhServerKey(_, _) | SecurityResult(_) | ServerInit | ServerName(_) => S2C
    case ClientVersion | TypeChoice(_) | Response(_) | DhCredentials(_, _) | DhClientKey(_, _) | ClientInit => C2S
  }

  /** How many bytes a step reads. */
  function Want(step: Step): nat
    requires !step.Done?
  {
    match step
    case ServerVersion | ClientVersion => 12
    case TypeCount(_) | TypeChoice(_) | ClientInit => 1
    case TypeList(_, count) => count
    case AuthWord(_) | DhHead(_) | SecurityResult(_) => 4
    case Challenge(_) | Response(_) => 16
    case DhModulus(_, n) => n
    case DhServerKey(_, n) => n
    case DhClientKey(_, n) => n
    case DhCredentials(_, _) => ARD_CREDENTIALS_LEN
    case ServerInit => 24
    case ServerName(n) => n
  }

  predicate Watches(step: Step, d: Dir) { !step.Done? && Side(step) == d }

  /** The grammar has no cycles: every step leads to one of smaller rank. */
  function Rank(step: Step): nat {
    match step
    case ServerVersion => 16
    case ClientVersion => 15
    case TypeCount(_) => 14
    case TypeList(_, _) => 13
    case TypeChoice(_) => 12
    case AuthWord(_) => 11
    case Challenge(_) => 10
    case Response(_) => 9
    case DhHead(_) => 10
    case DhModulus(_, _) => 9
    case DhServerKey(_, _) => 8
    case DhCredentials(_, _) => 7
    case DhClientKey(_, _) => 6
    case SecurityResult(_) => 5
    case ClientInit => 4
    case ServerInit => 3
    case ServerName(_) => 2
    case Done => 0
  }

  /** The steps whose bytes are credentials or challenge material. */
  predicate InAuth(step: Step) {
    step.Challenge? || step.Response? || step.DhHead? || step.DhModulus? || step.DhServerKey?
    || step.DhCredentials? || step.DhClientKey?
  }

  datatype AbortReason = UnparsedVersion(reply: seq<byte>) | Unfollowable(securityType: nat)

  /** What the scrubber has learned about the session. */
  datatype Notes = Notes(
    protocolVersion: Option<seq<byte>>,
    negotiated: Option<Version>,
    securityTypes: seq<nat>,
    securityType: Option<nat>,
    unstrippable: Option<nat>,
    abort: Option<AbortReason>,
    geometry: Option<(nat, nat)>)

  const NO_NOTES := Notes(None, None, [], None, None, None, None)

  /** One resumption of the generator: where it stops next, and what it asked to record. */
  datatype Advanced = Advanced(step: Step, notes: Notes, record: Option<seq<byte>>)

  /** The generator from the point where the security type is known. */
  function Authenticate(v: Version, kind: nat, notes: Notes, record: seq<byte>, preserve: bool): Advanced {
    var known := notes.(securityType := Some(kind));
    if kind == AUTH_VNC then Advanced(Challenge(v), known, Some(record))
    else if kind == AUTH_DH then Advanced(DhHead(v), known, Some(record))
    else if kind != AUTH_NONE && kind != AUTH_INVALID then
      Advanced(Done,
               known.(unstrippable := Some(kind),
                      abort := if preserve then known.abort else Some(Unfollowable(kind))),
               Some(record))
    else if !v.AtLeast(3, 8) && kind == AUTH_NONE then Advanced(ClientInit, known, Some(record))
    else Advanced(SecurityResult(v), known, Some(record))
  }

  /** Sends one chunk to the suspended generator. */
  function Advance(step: Step, notes: Notes, chunk: seq<byte>, preserve: bool): (r: Advanced)
    requires !step.Done? && |chunk| == Want(step)
    ensures Rank(r.step) < Rank(step)
  {
    match step
    case ServerVersion =>
      Advanced(ClientVersion, notes.(protocolVersion := Some(StripNewlines(chunk))), None)
    case ClientVersion =>
      (match ParseVersion(chunk)
       case None =>
         Advanced(Done, notes.(abort := if preserve then notes.abort else Some(UnparsedVersion(chunk))), None)
       case Some(v) =>
         Advanced(if v.AtLeast(3, 7) then TypeCount(v) else AuthWord(v), notes.(negotiated := Some(v)), None))
    case TypeCount(v) =>
      if chunk[0] == 0 then Advanced(Done, notes, None)
      else Advanced(TypeList(v, chunk[0]), notes, Some([]))
    case TypeList(v, _) => Advanced(TypeChoice(v), notes.(securityTypes := chunk), Some([1, AUTH_NONE]))
    case TypeChoice(v) => Authenticate(v, chunk[0], notes, [AUTH_NONE], preserve)
    case AuthWord(v) =>
      var kind := U32(chunk);
      if kind == AUTH_INVALID then Advanced(Done, notes, None)
      else Authenticate(v, kind, notes.(securityTypes := [kind]), Pack32(AUTH_NONE), preserve)
    case Challenge(v) => Advanced(Response(v), notes, None)
    case Response(v) => Advanced(SecurityResult(v), notes, None)
    case DhHead(v) => Advanced(DhModulus(v, U16(chunk[2..4])), notes, None)
    case DhModulus(v, n) => Advanced(DhServerKey(v, n), notes, None)
    case DhServerKey(v, n) => Advanced(DhCredentials(v, n), notes, None)
    case DhCredentials(v, n) => Advanced(DhClientKey(v, n), notes, None)
    case DhClientKey(v, n) => Advanced(SecurityResult(v), notes, None)
    case SecurityResult(v) =>
      if U32(chunk) != 0 then Advanced(Done, notes, if v.AtLeast(3, 8) then None else Some([]))
      else Advanced(ClientInit, notes, Some(if v.AtLeast(3, 8) then Pack32(0) else []))
    case ClientInit => Advanced(ServerInit, notes, None)
    case ServerInit =>
      var n := U32(chunk[20..24]);
      Advanced(if n != 0 then ServerName(n) else Done,
               notes.(geometry := Some((U16(chunk[..2]), U16(chunk[2..4])))), None)
    case ServerName(_) => Advanced(Done, notes, None)
  }

  /** What a chunk read at `step` contributes to the recorded stream. */
  function Recorded(step: Step, chunk: seq<byte>, record: Option<seq<byte>>, preserve: bool): seq<byte> {
    if preserve then chunk
    else match record
      case Some(bytes) => bytes
      case None => if InAuth(step) then [] else chunk
  }

  // ---------------------------------------------------------------- the scrubber as a value

  /** The scrubber's whole state: suspension point, notes and both taps' pending bytes. */
  datatype State = State(step: Step, notes: Notes, preserve: bool, s2c: seq<byte>, c2s: seq<byte>) {
    function Pending(d: Dir): seq<byte> { if d.S2C? then s2c else c2s }
    function Hold(d: Dir, bytes: seq<byte>): State {
      if d.S2C? then this.(s2c := bytes) else this.(c2s := bytes)
    }
  }

  function Start(preserve: bool): State { State(ServerVersion, NO_NOTES, preserve, [], []) }

  /** Everything buffered on tap `d` is `buf`: run the grammar over it; the second result is what to record. */
  function Consume(st: State, d: Dir, buf: seq<byte>): (State, seq<byte>)
    decreases Rank(st.step)
  {
    if !Watches(st.step, d) then (st.Hold(d, []), buf)
    else if |buf| < Want(st.step) then (st.Hold(d, buf), [])
    else
      var chunk := buf[..Want(st.step)];
      var r := Advance(st.step, st.notes, chunk, st.preserve);
      var (rest, out) := Consume(st.(step := r.step, notes := r.notes), d, buf[Want(st.step)..]);
      (rest, Recorded(st.step, chunk, r.record, st.preserve) + out)
  }

  /** The state a chunk read on `d` leads to, and what it records. */
  function Take(st: State, chunk: seq<byte>): (r: (State, seq<byte>))
    requires !st.step.Done? && |chunk| == Want(st.step)
    ensures Rank(r.0.step) < Rank(st.step)
    ensures r.0.preserve == st.preserve && r.0.s2c == st.s2c && r.0.c2s == st.c2s
    ensures st.preserve ==> r.1 == chunk
  {
    var r := Advance(st.step, st.notes, chunk, st.preserve);
    (st.(step := r.step, notes := r.notes), Recorded(st.step, chunk, r.record, st.preserve))
  }

  /** One turn of the drain loop. */
  lemma ConsumeTake(st: State, d: Dir, chunk: seq<byte>, rest: seq<byte>)
    requires Watches(st.step, d) && |chunk| == Want(st.step)
    ensures var (next, record) := Take(st, chunk);
            var (end, out) := Consume(next, d, rest);
            Consume(st, d, chunk + rest) == (end, record + out)
  {
    assert (chunk + rest)[..Want(st.step)] == chunk && (chunk + rest)[Want(st.step)..] == rest;
  }

  /** Where draining stops: held back by a watched tap, passed through by any other. */
  lemma ConsumeStops(st: State, d: Dir, buf: seq<byte>)
    requires !(Watches(st.step, d) && Want(st.step) <= |buf|)
    ensures Consume(st, d, buf) == if Watches(st.step, d) then (st.Hold(d, buf), []) else (st.Hold(d, []), buf)
  {
  }

  /** `Tap.feed`. */
  function Feed(st: State, d: Dir, data: seq<byte>): (State, seq<byte>) {
    if data == [] then (st, []) else Consume(st, d, st.Pending(d) + data)
  }

  /** `Tap.flush`. */
  function Flush(st: State, d: Dir): (State, seq<byte>) {
    (st.Hold(d, []), if !st.step.Done? && !st.preserve then [] else st.Pending(d))
  }

  /** A tap holds bytes only while it is watched, fewer than wanted; and the wait is for at least one byte. */
  predicate Settled(st: State) {
    && (!st.step.Done? ==> 0 < Want(st.step))
    && (forall d: Dir :: st.Pending(d) != [] ==> Watches(st.step, d) && |st.Pending(d)| < Want(st.step))
  }

  /** A step that wants nothing is reached only from a step on the same side, so one feed drains it. */
  lemma ZeroWantKeepsSide(step: Step, notes: Notes, chunk: seq<byte>, preserve: bool)
    requires !step.Done? && |chunk| == Want(step)
    ensures var next := Advance(step, notes, chunk, preserve).step;
            !next.Done? && Want(next) == 0 ==> Side(next) == Side(step)
  {
  }

  lemma {:induction false} ConsumeSettles(st: State, d: Dir, buf: seq<byte>)
    requires Watches(st.step, d) || st.step.Done? || 0 < Want(st.step)
    requires Watches(st.step, d) ==> st.Pending(d.Other()) == []
    requires !Watches(st.step, d) && st.Pending(d.Other()) != [] ==>
               Watches(st.step, d.Other()) && |st.Pending(d.Other())| < Want(st.step)
    ensures Settled(Consume(st, d, buf).0)
    decreases Rank(st.step)
  {
    if Watches(st.step, d) && |buf| >= Want(st.step) {
      var chunk := buf[..Want(st.step)];
      var r := Advance(st.step, st.notes, chunk, st.preserve);
      ZeroWantKeepsSide(st.step, st.notes, chunk, st.preserve);
      ConsumeSettles(st.(step := r.step, notes := r.notes), d, buf[Want(st.step)..]);
    }
  }

  /** Every feed, in either direction and whatever it carries, leaves the scrubber settled. */
  lemma FeedSettles(st: State, d: Dir, data: seq<byte>)
    requires Settled(st)
    ensures Settled(Feed(st, d, data).0)
  {
    assert st.Pending(d) != [] ==> Watches(st.step, d);
    assert st.Pending(d.Other()) != [] ==> Watches(st.step, d.Other());
    ConsumeSettles(st, d, st.Pending(d) + data);
  }

  /** Consuming a longer buffer is consuming the shorter one and then the rest of it. */
  lemma {:induction false} ConsumeAppend(st: State, d: Dir, x: seq<byte>, y: seq<byte>)
    ensures var (mid, out) := Consume(st, d, x);
            var (end, more) := Consume(mid, d, mid.Pending(d) + y);
            Consume(st, d, x + y) == (end, out + more)
    decreases Rank(st.step)
  {
    hide Advance, Recorded;
    if !Watches(st.step, d) {
      assert [] + y == y;
    } else if |x| < Want(st.step) {
      var mid := st.Hold(d, x);
      assert mid.Pending(d) == x;
      ConsumeIgnoresHeld(st, mid, d, x + y);
      assert [] + Consume(mid, d, x + y).1 == Consume(mid, d, x + y).1;
    } else {
      var n := Want(st.step);
      assert (x + y)[..n] == x[..n] && (x + y)[n..] == x[n..] + y;
      var r := Advance(st.step, st.notes, x[..n], st.preserve);
      var next := st.(step := r.step, notes := r.notes);
      ConsumeAppend(next, d, x[n..], y);
      var (mid, out) := Consume(next, d, x[n..]);
      var (end, more) := Consume(mid, d, mid.Pending(d) + y);
      var head := Recorded(st.step, x[..n], r.record, st.preserve);
      assert (head + out) + more == head + (out + more);
    }
  }

  /** What a tap held before is immaterial: the buffer passed in already includes it. */
  lemma {:induction false} ConsumeIgnoresHeld(a: State, b: State, d: Dir, buf: seq<byte>)
    requires a.Hold(d, []) == b.Hold(d, [])
    ensures Consume(a, d, buf) == Consume(b, d, buf)
    decreases Rank(a.step)
  {
    if Watches(a.step, d) && |buf| >= Want(a.step) {
      var r := Advance(a.step, a.notes, buf[..Want(a.step)], a.preserve);
      ConsumeIgnoresHeld(a.(step := r.step, notes := r.notes), b.(step := r.step, notes := r.notes),
                         d, buf[Want(a.step)..]);
    }
  }

  /** Two feeds in a row on one tap are one feed of the concatenation: packet boundaries do not matter. */
  lemma FeedAppend(st: State, d: Dir, x: seq<byte>, y: seq<byte>)
    requires Settled(st)
    ensures var (mid, out) := Feed(st, d, x);
            var (end, more) := Feed(mid, d, y);
            Feed(st, d, x + y) == (end, out + more)
  {
    if x == [] {
      assert x + y == y;
      assert [] + Feed(st, d, y).1 == Feed(st, d, y).1;
    } else if y == [] {
      assert x + y == x;
      assert Feed(st, d, x).1 + [] == Feed(st, d, x).1;
    } else {
      assert (st.Pending(d) + x) + y == st.Pending(d) + (x + y);
      ConsumeAppend(st, d, st.Pending(d) + x, y);
    }
  }
}
