/** `HandshakeScrubber` and `CaptureWriter` of vncdotool/capture.py, in place, against the value-level grammar. */
module Scrubber {
  import opened Bytes
  import opened Handshake
  import opened Recording

  class HandshakeScrubber {
    const preserveAuth: bool
    var s2cPending: seq<byte>
    var c2sPending: seq<byte>
    var step: Step
    var notes: Notes
    // What the chunk being read records instead of itself; None means verbatim.
    var recording: Option<seq<byte>>
    // Set across the auth exchange, so that a chunk nothing was recorded for is dropped.
    var inAuth: bool

    /** The flag follows the suspension point for as long as there is one. */
    ghost predicate Valid()
      reads this
    {
      !step.Done? ==> inAuth == InAuth(step)
    }

    ghost function Abs(): State
      reads this
    {
      State(step, notes, preserveAuth, s2cPending, c2sPending)
    }

    constructor (preserve: bool)
      ensures Valid() && Abs() == Start(preserve) && Settled(Abs())
    {
      preserveAuth := preserve;
      s2cPending, c2sPending := [], [];
      step, notes := ServerVersion, NO_NOTES;
      recording, inAuth := None, false;
    }

    /** Direction and byte count the grammar waits on next; the count is never zero at rest. */
    method Waiting() returns (w: Option<(Dir, nat)>)
      requires Settled(Abs())
      ensures w.None? <==> step.Done?
      ensures w.Some? ==> w.value == (Side(step), Want(step)) && 0 < w.value.1
    {
      if step.Done? {
        w := None;
      } else {
        w := Some((Side(step), Want(step)));
      }
    }

    method SetPending(d: Dir, bytes: seq<byte>)
      modifies this`s2cPending, this`c2sPending
      ensures Abs() == old(Abs()).Hold(d, bytes)
    {
      if d.S2C? { s2cPending := bytes; } else { c2sPending := bytes; }
    }

    /** The generator from the point where the security type is known (capture.py lines 198 to 234). */
    method StartAuth(v: Version, kind: nat)
      modifies this`step, this`notes, this`inAuth
      ensures var r := Authenticate(v, kind, old(notes), [], preserveAuth);
              step == r.step && notes == r.notes
      ensures Valid()
    {
      notes := notes.(securityType := Some(kind));
      inAuth := true;
      if kind == AUTH_VNC {
        step := Challenge(v);
        return;
      } else if kind == AUTH_DH {
        step := DhHead(v);
        return;
      } else if kind != AUTH_NONE && kind != AUTH_INVALID {
        notes := notes.(unstrippable := Some(kind));
        if !preserveAuth {
          notes := notes.(abort := Some(Unfollowable(kind)));
        }
        step := Done;
        return;
      }
      inAuth := false;
      if !v.AtLeast(3, 8) && kind == AUTH_NONE {
        step := ClientInit;
      } else {
        step := SecurityResult(v);
      }
    }

    /** `_run` while the session is being negotiated. */
    method ResumeNegotiation(chunk: seq<byte>)
      requires Valid() && !step.Done? && |chunk| == Want(step) && recording.None?
      requires step.ServerVersion? || step.ClientVersion? || step.TypeCount? || step.TypeList? || step.TypeChoice?
               || step.AuthWord?
      modifies this`step, this`notes, this`inAuth, this`recording
      ensures Valid()
      ensures var r := Advance(old(step), old(notes), chunk, preserveAuth);
              step == r.step && notes == r.notes && recording == r.record
    {
      match step {
        case ServerVersion =>
          notes := notes.(protocolVersion := Some(StripNewlines(chunk)));
          step := ClientVersion;
        case ClientVersion =>
          var parsed := ParseVersion(chunk);
          if parsed.None? {
            if !preserveAuth {
              notes := notes.(abort := Some(UnparsedVersion(chunk)));
            }
            step := Done;
          } else {
            var v := parsed.value;
            notes := notes.(negotiated := Some(v));
            step := if v.AtLeast(3, 7) then TypeCount(v) else AuthWord(v);
          }
        case TypeCount(v) =>
          if chunk[0] == 0 {
            step := Done;
          } else {
            recording := Some([]);
            step := TypeList(v, chunk[0]);
          }
        case TypeList(v, _) =>
          notes := notes.(securityTypes := chunk);
          recording := Some([1, AUTH_NONE]);
          step := TypeChoice(v);
        case TypeChoice(v) =>
          recording := Some([AUTH_NONE]);
          StartAuth(v, chunk[0]);
        case AuthWord(v) =>
          var kind := U32(chunk);
          if kind == AUTH_INVALID {
            step := Done;
          } else {
            recording := Some(Pack32(AUTH_NONE));
            notes := notes.(securityTypes := [kind]);
            StartAuth(v, kind);
          }
      }
    }

    /** `_run` inside the auth exchange, where no step records anything. */
    method ResumeAuth(chunk: seq<byte>)
      requires Valid() && InAuth(step) && |chunk| == Want(step) && recording.None?
      modifies this`step, this`notes, this`inAuth, this`recording
      ensures Valid()
      ensures var r := Advance(old(step), old(notes), chunk, preserveAuth);
              step == r.step && notes == r.notes && recording == r.record
    {
      match step {
        case Challenge(v) => step := Response(v);
        case DhHead(v) => step := DhModulus(v, U16(chunk[2..4]));
        case DhModulus(v, n) => step := DhServerKey(v, n);
        case DhServerKey(v, n) => step := DhCredentials(v, n);
        case DhCredentials(v, n) => step := DhClientKey(v, n);
        case Response(v) =>
          inAuth := false;
          step := SecurityResult(v);
        case DhClientKey(v, _) =>
          inAuth := false;
          step := SecurityResult(v);
      }
    }

    /** `_run` from the SecurityResult to the server name. */
    method ResumeInit(chunk: seq<byte>)
      requires Valid() && !step.Done? && |chunk| == Want(step) && recording.None?
      requires step.SecurityResult? || step.ClientInit? || step.ServerInit? || step.ServerName?
      modifies this`step, this`notes, this`inAuth, this`recording
      ensures Valid()
      ensures var r := Advance(old(step), old(notes), chunk, preserveAuth);
              step == r.step && notes == r.notes && recording == r.record
    {
      match step {
        case SecurityResult(v) =>
          if U32(chunk) != 0 {
            if !v.AtLeast(3, 8) {
              recording := Some([]);
            }
            step := Done;
          } else {
            recording := Some(if v.AtLeast(3, 8) then Pack32(0) else []);
            step := ClientInit;
          }
        case ClientInit => step := ServerInit;
        case ServerInit =>
          notes := notes.(geometry := Some((U16(chunk[..2]), U16(chunk[2..4]))));
          var len := U32(chunk[20..24]);
          step := if len != 0 then ServerName(len) else Done;
        case ServerName(_) => step := Done;
      }
    }

    /** `_advance`: resumes the generator with one chunk. */
    method Resume(chunk: seq<byte>)
      requires Valid() && !step.Done? && |chunk| == Want(step)
      requires recording.None?
      modifies this`step, this`notes, this`inAuth, this`recording
      ensures Valid()
      ensures var r := Advance(old(step), old(notes), chunk, preserveAuth);
              step == r.step && notes == r.notes && recording == r.record
    {
      hide Advance;
      if InAuth(step) {
        ResumeAuth(chunk);
      } else if step.SecurityResult? || step.ClientInit? || step.ServerInit? || step.ServerName? {
        ResumeInit(chunk);
      } else {
        ResumeNegotiation(chunk);
      }
    }

    /** One turn of the drain loop: reads a chunk and says what it records. */
    method TakeChunk(d: Dir, chunk: seq<byte>, ghost rest: seq<byte>) returns (record: seq<byte>)
      requires Valid() && Watches(step, d) && |chunk| == Want(step)
      modifies this`step, this`notes, this`inAuth, this`recording
      ensures Valid() && Rank(step) < old(Rank(step))
      ensures var (end, out) := Consume(Abs(), d, rest);
              Consume(old(Abs()), d, chunk + rest) == (end, record + out)
    {
      assert (chunk + rest)[..Want(step)] == chunk && (chunk + rest)[Want(step)..] == rest;
      // A step that records nothing of its own must drop the chunk, not leak it.
      var failClosed := if inAuth && !preserveAuth then [] else chunk;
      recording := None;
      Resume(chunk);
      if preserveAuth {
        record := chunk;
      } else {
        record := if recording.None? then failClosed else recording.value;
      }
    }

    /** The drain loop of `_feed`, zero-length steps included, and the release of what is no longer watched. */
    method Drain(d: Dir, buffered: seq<byte>) returns (held: seq<byte>, out: seq<byte>)
      requires Valid()
      modifies this`step, this`notes, this`inAuth, this`recording
      ensures Valid()
      ensures Consume(old(Abs()), d, buffered) == (Abs().Hold(d, held), out)
    {
      hide Advance, Recorded, Take, Consume;
      ghost var whole := Consume(Abs(), d, buffered);
      held, out := buffered, [];
      assert [] + whole.1 == whole.1;
      while Watches(step, d) && Want(step) <= |held|
        invariant Valid()
        invariant whole == (Consume(Abs(), d, held).0, out + Consume(Abs(), d, held).1)
        decreases Rank(step)
      {
        var chunk, rest := held[..Want(step)], held[Want(step)..];
        assert held == chunk + rest;
        var record := TakeChunk(d, chunk, rest);
        assert out + (record + Consume(Abs(), d, rest).1) == (out + record) + Consume(Abs(), d, rest).1;
        held, out := rest, out + record;
      }
      ConsumeStops(Abs(), d, held);
      if Watches(step, d) {
        assert out + [] == out;
      } else {
        out, held := out + held, [];
      }
    }

    /** `_feed`: what a tap records of `data`, whatever the packet boundaries. */
    method FeedTap(d: Dir, data: seq<byte>) returns (out: seq<byte>)
      requires Valid() && Settled(Abs())
      modifies this
      ensures Valid() && Settled(Abs())
      ensures (Abs(), out) == Feed(old(Abs()), d, data)
    {
      FeedSettles(Abs(), d, data);
      if data == [] {
        return [];
      }
      var buf := (if d.S2C? then s2cPending else c2sPending) + data;
      buf, out := Drain(d, buf);
      SetPending(d, buf);
    }

    /** `_flush`. */
    method FlushTap(d: Dir) returns (out: seq<byte>)
      requires Valid()
      modifies this`s2cPending, this`c2sPending
      ensures Valid() && (Abs(), out) == Flush(old(Abs()), d)
    {
      var pending := if d.S2C? then s2cPending else c2sPending;
      var midRewrite := !step.Done? && !preserveAuth;
      out := if midRewrite && pending != [] then [] else pending;
      SetPending(d, []);
    }
  }

  /** `CaptureWriter`: the two recorded streams of one connection. */
  class CaptureWriter {
    const scrubber: HandshakeScrubber
    var s2c: seq<byte>
    var c2s: seq<byte>

    ghost predicate Valid()
      reads this, scrubber
    {
      scrubber.Valid() && Settled(scrubber.Abs())
    }

    ghost function Abs(): Writer
      reads this, scrubber
    {
      Writer(scrubber.Abs(), s2c, c2s)
    }

    constructor (preserve: bool)
      ensures Valid() && fresh(scrubber) && Abs() == Fresh(preserve)
    {
      scrubber := new HandshakeScrubber(preserve);
      s2c, c2s := [], [];
    }

    method FeedS2C(data: seq<byte>)
      requires Valid()
      modifies this, scrubber
      ensures Valid() && Abs() == Record(old(Abs()), Event(S2C, data))
    {
      hide Handshake.Consume;
      var out := scrubber.FeedTap(S2C, data);
      s2c := s2c + out;
    }

    method FeedC2S(data: seq<byte>)
      requires Valid()
      modifies this, scrubber
      ensures Valid() && Abs() == Record(old(Abs()), Event(C2S, data))
    {
      hide Handshake.Consume;
      var out := scrubber.FeedTap(C2S, data);
      c2s := c2s + out;
    }

    /** Emits whatever the scrubber still holds, at disconnect. */
    method Flush()
      requires Valid()
      modifies this, scrubber
      ensures Valid() && Abs() == Close(old(Abs()))
    {
      var a := scrubber.FlushTap(S2C);
      s2c := s2c + a;
      var b := scrubber.FlushTap(C2S);
      c2s := c2s + b;
    }
  }
}
