/** The refreshing half of `VNCDoToolClient` in vncdotool/client.py, field by field. */
module RefreshClient {
  import opened Bytes
  import opened Refresh

  /** `_FullScreenReceived`. */
  class FullScreenReceived {
    var retries: nat
    const size: Size
    var unpainted: set<Point>

    ghost function View(): Mask
      reads this
    {
      Mask(retries, size, unpainted)
    }

    constructor Awaiting(size: Size)
      ensures View() == Refresh.Awaiting(size)
    {
      retries, this.size, unpainted := 0, size, size.Area();
    }

    /** `retry`: whether to ask again, counting this attempt. */
    method Retry() returns (again: bool)
      modifies this
      ensures again == (old(retries) < MAX_RETRIES)
      ensures View() == old(View()).(retries := if again then old(retries) + 1 else old(retries))
    {
      if retries >= MAX_RETRIES { return false; }
      retries := retries + 1;
      return true;
    }

    /** `paintRect`; a box that runs off the mask is clipped. */
    method PaintRect(box: Box)
      modifies this
      ensures View() == Refresh.PaintRect(old(View()), box)
    {
      unpainted := set p | p in unpainted && !box.Covers(p);
    }

    predicate Complete()
      reads this
    {
      unpainted == {}
    }

    predicate Pending() { size != NO_AREA }
  }

  lemma RunTakes(first: Size, h: History, input: Input, c: Client, log: seq<Output>)
    requires Run(NewClient(first), h) == (c, log)
    ensures var told := Step(c, input).1;
            && Run(NewClient(first), h + [input]) == (Step(c, input).0, log + told)
            && (told == [] ==> log + told == log)
            && (|told| == 2 ==> log + told == (log + [told[0]]) + [told[1]])
  {
    Prefix(h, input, |h|);
    hide Step;
  }

  /** `VNCDoToolClient`, with the calls it has had (`history`) kept as a ghost. */
  class VNCDoToolClient {
    const MAX_DESKTOP_SIZE := 0x1_0000
    ghost const first: Size
    ghost var history: History
    var screen: bool
    var size: Size
    var fullscreen: FullScreenReceived
    var made: nat
    var deferred: Option<nat>
    var outputs: seq<Output>

    ghost function Now(): Client
      reads this, fullscreen
    {
      Client(screen, size, fullscreen.View(), made, deferred)
    }

    /** The object is where its history leads. */
    ghost predicate Valid()
      reads this, fullscreen
    {
      Run(NewClient(first), history) == (Now(), outputs)
    }

    constructor (size: Size)
      ensures Valid() && fresh(fullscreen) && first == size && history == []
    {
      var mask := new FullScreenReceived.Awaiting(NO_AREA);
      first, history, this.size := size, [], size;
      screen, fullscreen, made, deferred, outputs := false, mask, 0, None, [];
    }

    /** `refreshScreen`; its answer carries the number returned. */
    method RefreshScreen(incremental: bool) returns (d: nat)
      requires Valid()
      modifies this, fullscreen
      ensures Valid() && history == old(history) + [Refresh(incremental)] && deferred == Some(d) && d == old(made)
      ensures fullscreen == old(fullscreen) || fresh(fullscreen)
    {
      ghost var c, log := Now(), outputs;
      d, deferred, made := made, Some(made), made + 1;
      if incremental {
        fullscreen := new FullScreenReceived.Awaiting(NO_AREA);
      } else {
        fullscreen := new FullScreenReceived.Awaiting(size);
      }
      outputs := outputs + [Asked(incremental, size)];
      history := history + [Refresh(incremental)];
      RunTakes(first, old(history), Refresh(incremental), c, log);
    }

    /** `updateRectangle`: a rectangle with no pixels in it is nothing. */
    method UpdateRectangle(box: Box)
      requires Valid()
      modifies this, fullscreen
      ensures Valid() && history == old(history) + [Paint(box)] && fullscreen == old(fullscreen)
    {
      ghost var c, log := Now(), outputs;
      if box.width * box.height > 0 {
        screen := true;
        fullscreen.PaintRect(box);
      }
      history := history + [Paint(box)];
      RunTakes(first, old(history), Paint(box), c, log);
    }

    /** `copyRectangle`. */
    method CopyRectangle(box: Box)
      requires Valid()
      modifies this, fullscreen
      ensures Valid() && history == old(history) + [Copy(box)] && fullscreen == old(fullscreen)
    {
      ghost var c, log := Now(), outputs;
      if screen { fullscreen.PaintRect(box); }
      history := history + [Copy(box)];
      RunTakes(first, old(history), Copy(box), c, log);
    }

    /** `commitUpdate`; `CommitDecides` says what it tells the caller and the server. */
    method CommitUpdate(rectangles: seq<Box>)
      requires Valid()
      modifies this, fullscreen
      ensures Valid() && history == old(history) + [Input.CommitUpdate(rectangles)]
      ensures fullscreen == old(fullscreen) || fresh(fullscreen)
    {
      ghost var c, log := Now(), outputs;
      hide Refresh.PaintRect, Size.Area;
      ghost var input := Input.CommitUpdate(rectangles);
      history := history + [input];
      if deferred.Some? {
        if rectangles == [] || !screen {
          outputs := outputs + [Asked(false, size)];
          RunTakes(first, old(history), input, c, log);
          return;
        }
        if !fullscreen.Complete() {
          var again := fullscreen.Retry();
          if again {
            outputs := outputs + [Asked(false, size)];
            RunTakes(first, old(history), input, c, log);
            return;
          }
          outputs := outputs + [Warned(|fullscreen.unpainted|)];
        }
        fullscreen := new FullScreenReceived.Awaiting(NO_AREA);
        outputs := outputs + [Fired(deferred.value)];
        deferred := None;
      }
      RunTakes(first, old(history), input, c, log);
    }

    /** `updateDesktopSize`; a size out of range is refused before anything changes. */
    method UpdateDesktopSize(width: int, height: int) returns (ok: bool)
      requires Valid()
      modifies this
      ensures ok == (0 <= width < MAX_DESKTOP_SIZE && 0 <= height < MAX_DESKTOP_SIZE)
      ensures ok ==> Valid() && history == old(history) + [Resize(Size(width, height))]
      ensures !ok ==> Now() == old(Now()) && history == old(history) && outputs == old(outputs)
      ensures fullscreen == old(fullscreen) || fresh(fullscreen)
    {
      ghost var c, log := Now(), outputs;
      ok := 0 <= width < MAX_DESKTOP_SIZE && 0 <= height < MAX_DESKTOP_SIZE;
      if ok {
        screen, size := true, Size(width, height);
        if fullscreen.Pending() { fullscreen := new FullScreenReceived.Awaiting(size); }
        history := history + [Resize(size)];
        RunTakes(first, old(history), Resize(size), c, log);
      }
    }
  }
}
