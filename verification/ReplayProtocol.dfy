/** `ReplayProtocol` of vncdotool/replay.py, in place, against the value-level player. */
module ReplayProtocol {
  import opened Bytes
  import opened Handshake
  import opened Replay
  import opened Scrubber

  /** `saw_update_request`: takes whole client messages off the buffer until one asks for a framebuffer. */
  method TakeUpdateRequest(buffer: seq<byte>) returns (saw: bool, left: seq<byte>)
    ensures (saw, left) == SawUpdateRequest(buffer)
    ensures saw <==> Asks(buffer)
  {
    SawIffAsks(buffer);
    left := buffer;
    while left != []
      invariant SawUpdateRequest(left) == SawUpdateRequest(buffer)
      decreases |left|
    {
      var length := ClientMessageLength(left);
      if length.Unknown? {
        return true, [];
      }
      if length.NeedMore? || |left| < length.n {
        return false, left;
      }
      var kind := left[0];
      left := left[length.n..];
      if kind == UPDATE_REQUEST {
        return true, left;
      }
    }
    saw := false;
  }

  class Protocol {
    const capture: Capture
    const scrubber: HandshakeScrubber
    var pos: nat
    var buffer: seq<byte>
    var awaiting: bool
    var checked: bool
    var exhausted: bool
    var closed: bool
    // Everything handed to transport.write.
    var written: seq<byte>

    ghost function Abs(): Player
      reads this, scrubber
    {
      Player(scrubber.Abs(), pos, buffer, awaiting, checked, exhausted, closed, written)
    }

    /** What has been written is a prefix of the capture, and the scrubber is between steps. */
    ghost predicate Valid()
      reads this, scrubber
    {
      scrubber.Valid() && Sound(capture, Abs())
    }

    /** `connectionMade`. */
    constructor (capture: Capture)
      ensures Valid() && fresh(scrubber) && this.capture == capture
      ensures Abs() == Connect(capture)
    {
      this.capture := capture;
      scrubber := new HandshakeScrubber(false);
      pos, buffer, written := 0, [], [];
      awaiting, checked, exhausted, closed := false, false, false, false;
      new;
      Advance();
    }

    /** `dataReceived`. */
    method DataReceived(data: seq<byte>)
      requires Valid()
      modifies this, scrubber
      ensures Valid() && Abs() == Receive(capture, old(Abs()), data)
    {
      if exhausted {
        return;
      }
      buffer := buffer + data;
      Advance();
    }

    /** `advance`: terminates because the grammar rests only on a positive count, which each turn uses up. */
    method Advance()
      requires Valid() && !exhausted
      modifies this, scrubber
      ensures Valid() && Abs() == Pace(capture, old(Abs()))
    {
      hide Handshake.Consume, Handshake.Advance, ServeSession, Replay.ServerTurn, Replay.ClientTurn;
      PaceIsSound(capture, Abs());
      while !scrubber.step.Done?
        invariant Valid() && !exhausted
        invariant Pace(capture, Abs()) == Pace(capture, old(Abs()))
        decreases Rank(scrubber.step)
      {
        var waiting := scrubber.Waiting();
        var n := waiting.value.1;
        if waiting.value.0.S2C? {
          if |capture.s2c| - pos < n {
            break;
          }
          WriteStep(n);
        } else {
          if |buffer| < n {
            return;
          }
          var refused := ReadStep(n);
          if refused {
            return;
          }
        }
      }
      Finish();
    }

    method WriteStep(n: nat)
      requires Valid() && ServerMaySpeak(capture, Abs()) && n == Want(scrubber.step)
      modifies this`pos, this`written, scrubber
      ensures Valid() && Abs() == ServerTurn(capture, old(Abs()))
    {
      hide Handshake.Consume, Handshake.Advance;
      var chunk := capture.s2c[pos..pos + n];
      FeedExactly(scrubber.Abs(), S2C, chunk);
      assert capture.s2c[..pos] + chunk == capture.s2c[..pos + n];
      written := written + chunk;
      pos := pos + n;
      var recorded := scrubber.FeedTap(S2C, chunk);
    }

    method ReadStep(n: nat) returns (refused: bool)
      requires Valid() && !exhausted && ClientHasSpoken(Abs()) && n == Want(scrubber.step)
      modifies this`buffer, this`checked, this`closed, this`exhausted, scrubber
      ensures Valid() && Abs() == ClientTurn(capture, old(Abs())) && refused == exhausted
    {
      hide Handshake.Consume, Handshake.Advance;
      var chunk := buffer[..n];
      buffer := buffer[n..];
      FeedExactly(scrubber.Abs(), C2S, chunk);
      var recorded := scrubber.FeedTap(C2S, chunk);
      refused := VersionMismatch();
    }

    /** `_version_mismatch`: asked after every client chunk, decided once. */
    method VersionMismatch() returns (refused: bool)
      modifies this`checked, this`closed, this`exhausted
      ensures refused == Mismatch(capture, old(Abs()))
      ensures checked == (old(checked) || scrubber.notes.negotiated.Some?)
      ensures if refused then closed && exhausted else closed == old(closed) && exhausted == old(exhausted)
    {
      if checked || scrubber.notes.negotiated.None? {
        return false;
      }
      checked := true;
      if capture.negotiated.None? || capture.negotiated == scrubber.notes.negotiated {
        return false;
      }
      closed := true;
      exhausted := true;
      return true;
    }

    /** `_serve_session`. */
    method Finish()
      requires Valid() && !exhausted
      modifies this
      ensures Abs() == ServeSession(capture, old(Abs())) && Valid()
    {
      if !awaiting && scrubber.step.Done? && scrubber.notes.geometry.Some? {
        awaiting := true;
      }
      if awaiting {
        var saw, left := TakeUpdateRequest(buffer);
        buffer := left;
        if !saw {
          return;
        }
      }
      var remainder := capture.s2c[pos..];
      assert capture.s2c[..pos] + remainder == capture.s2c[..|capture.s2c|];
      if remainder != [] {
        written := written + remainder;
        pos := |capture.s2c|;
      } else {
        assert written + remainder == written;
      }
      exhausted := true;
    }
  }
}
