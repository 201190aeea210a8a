/** Waiting for a screen to stop changing: `_StableWatch` in vncdotool/client.py, with the clock as an input. */
module StableWatch {
  import opened Bytes
  import opened ImageMatch

  /** How long, and how much, one call of `stableScreen` asks for. */
  datatype Terms = Terms(seconds: real, fuzz: nat, blur: nat)

  /** A refresh was answered and rendered, or time passed. */
  datatype Event = Frame(now: real, image: Image) | Tick(now: real)

  datatype Output = Asked(incremental: bool) | Settled

  datatype Watch = Watch(baseline: Option<Image>, deadline: Option<real>, settled: bool)

  const NEW_WATCH := Watch(None, None, false)

  predicate ValidEvent(e: Event) { e.Frame? ==> e.image.Valid() }

  predicate ValidWatch(w: Watch) { w.baseline.Some? ==> w.baseline.value.Valid() }

  /**
    What it means for `_changed` to find nothing: no pixel of the one further than `fuzz` from where it is in the
    other.
   */
  ghost predicate Alike(t: Terms, image: Image, baseline: Image)
    requires image.Valid() && baseline.Valid()
  {
    Close(image, baseline, t.fuzz, t.blur)
  }

  /** `_update`, and the timer. A watch that starts with a screen starts with its first frame. */
  ghost function Step(t: Terms, w: Watch, e: Event): (r: (Watch, seq<Output>))
    requires ValidWatch(w) && ValidEvent(e)
    ensures ValidWatch(r.0)
  {
    match e
    case Frame(now, image) =>
      if w.settled then (w, [])
      else if w.baseline.None? || !Alike(t, image, w.baseline.value) then
        (w.(baseline := Some(image), deadline := Some(now + t.seconds)), [Asked(true)])
      else (w, [Asked(true)])
    case Tick(now) =>
      if w.deadline.Some? && w.deadline.value <= now then (w.(deadline := None, settled := true), [Settled])
          else (w, [])
  }

  predicate ValidRun(es: seq<Event>) { forall k :: 0 <= k < |es| ==> ValidEvent(es[k]) }

  ghost function Run(t: Terms, es: seq<Event>): (r: (Watch, seq<Output>))
    requires ValidRun(es)
    ensures ValidWatch(r.0) && (r.0.settled ==> r.0.deadline.None?)
    decreases |es|
  {
    if es == [] then (NEW_WATCH, [])
    else
      var before := Run(t, es[..|es| - 1]);
      var step := Step(t, before.0, es[|es| - 1]);
      (step.0, before.1 + step.1)
  }

  // ---------------------------------------------------------------- said of the frames themselves

  /** Frame `a` began a window that nothing since has broken. */
  ghost predicate Quiet(t: Terms, es: seq<Event>, a: nat)
    requires ValidRun(es) && a < |es| && es[a].Frame?
  {
    forall j :: a < j < |es| && es[j].Frame? ==> Alike(t, es[j].image, es[a].image)
  }

  /** Frame `a` is one that the watch compares others with: the first, or one that differed from the last such. */
  ghost predicate Restarts(t: Terms, es: seq<Event>, a: nat)
    requires ValidRun(es) && a < |es| && es[a].Frame?
    decreases a
  {
    || (forall j :: 0 <= j < a ==> !es[j].Frame?)
    || exists b :: 0 <= b < a && es[b].Frame? && Restarts(t, es, b) && Quiet(t, es[..a], b)
                   && !Alike(t, es[a].image, es[b].image)
  }

  /** Where an unsettled watch stands: it has seen no frame, or its baseline is the one frame nothing has broken. */
  ghost predicate StandsAt(t: Terms, es: seq<Event>, w: Watch)
    requires ValidRun(es)
  {
    if w.baseline.None? then w.deadline.None? && forall j :: 0 <= j < |es| ==> !es[j].Frame?
    else exists a :: Anchors(t, es, w, a)
  }

  ghost predicate Anchors(t: Terms, es: seq<Event>, w: Watch, a: nat)
    requires ValidRun(es)
  {
    && a < |es| && es[a].Frame? && Restarts(t, es, a) && Quiet(t, es, a)
    && w.baseline == Some(es[a].image) && w.deadline == Some(es[a].now + t.seconds)
  }

  lemma {:induction false} RestartsInPrefix(t: Terms, es: seq<Event>, n: nat, a: nat)
    requires ValidRun(es) && a < n <= |es| && es[a].Frame?
    ensures Restarts(t, es[..n], a) == Restarts(t, es, a)
    decreases a
  {
    var fs := es[..n];
    assert forall j :: 0 <= j < n ==> fs[j] == es[j];
    assert fs[..a] == es[..a];
    forall b | 0 <= b < a && es[b].Frame? ensures Restarts(t, fs, b) == Restarts(t, es, b) {
      RestartsInPrefix(t, es, n, b);
    }
  }

  lemma Extended(es: seq<Event>, e: Event)
    requires ValidRun(es) && ValidEvent(e)
    ensures ValidRun(es + [e]) && (es + [e])[..|es|] == es && (es + [e])[|es|] == e
    ensures forall j :: 0 <= j < |es| ==> (es + [e])[j] == es[j]
  {
  }

  /** A window goes on through anything that does not differ from its first frame. */
  lemma AnchorHolds(t: Terms, es: seq<Event>, w: Watch, e: Event, a: nat)
    requires ValidRun(es) && ValidEvent(e) && Anchors(t, es, w, a)
    requires e.Frame? ==> Alike(t, e.image, es[a].image)
    ensures ValidRun(es + [e]) && Anchors(t, es + [e], w, a)
  {
    hide Alike, Restarts, Quiet;
    Extended(es, e);
    RestartsInPrefix(t, es + [e], |es|, a);
    QuietExtends(t, es, e, a);
  }

  lemma QuietExtends(t: Terms, es: seq<Event>, e: Event, a: nat)
    requires ValidRun(es) && ValidEvent(e) && a < |es| && es[a].Frame? && Quiet(t, es, a)
    requires e.Frame? ==> Alike(t, e.image, es[a].image)
    ensures ValidRun(es + [e]) && (es + [e])[a] == es[a] && Quiet(t, es + [e], a)
  {
    hide Alike;
    Extended(es, e);
  }

  lemma RestartsBecause(t: Terms, es: seq<Event>, a: nat, b: nat)
    requires ValidRun(es) && a < b < |es| && es[a].Frame? && es[b].Frame? && Restarts(t, es, a)
    requires Quiet(t, es[..b], a) && !Alike(t, es[b].image, es[a].image)
    ensures Restarts(t, es, b)
  {
    hide Alike, Quiet;
  }

  /** A frame that differs from it begins the next. */
  lemma AnchorMoves(t: Terms, es: seq<Event>, w: Watch, e: Event, a: nat)
    requires ValidRun(es) && ValidEvent(e) && Anchors(t, es, w, a) && e.Frame? && !Alike(t, e.image, es[a].image)
    ensures ValidRun(es + [e])
    ensures Anchors(t, es + [e], w.(baseline := Some(e.image), deadline := Some(e.now + t.seconds)), |es|)
  {
    hide Alike, Restarts, Quiet;
    Extended(es, e);
    RestartsInPrefix(t, es + [e], |es|, a);
    RestartsBecause(t, es + [e], a, |es|);
    QuietAtEnd(t, es + [e]);
  }

  lemma QuietAtEnd(t: Terms, es: seq<Event>)
    requires ValidRun(es) && es != [] && es[|es| - 1].Frame?
    ensures Quiet(t, es, |es| - 1)
  {
  }

  lemma StepStands(t: Terms, es: seq<Event>, w: Watch, e: Event)
    requires ValidRun(es) && ValidEvent(e) && ValidWatch(w) && !w.settled && StandsAt(t, es, w)
    requires !Step(t, w, e).0.settled
    ensures ValidRun(es + [e]) && StandsAt(t, es + [e], Step(t, w, e).0)
  {
    hide Alike, Restarts, Quiet;
    Extended(es, e);
    var next := Step(t, w, e).0;
    if w.baseline.Some? {
      var a: nat :| Anchors(t, es, w, a);
      if e.Frame? && !Alike(t, e.image, w.baseline.value) {
        AnchorMoves(t, es, w, e, a);
        assert Anchors(t, es + [e], next, |es|);
      } else {
        AnchorHolds(t, es, w, e, a);
        assert Anchors(t, es + [e], next, a);
      }
    } else if e.Frame? {
      FirstRestarts(t, es, e);
      assert Anchors(t, es + [e], next, |es|);
    }
  }

  lemma FirstRestarts(t: Terms, es: seq<Event>, e: Event)
    requires ValidRun(es) && ValidEvent(e) && e.Frame? && forall j :: 0 <= j < |es| ==> !es[j].Frame?
    ensures ValidRun(es + [e]) && Restarts(t, es + [e], |es|) && Quiet(t, es + [e], |es|)
  {
    Extended(es, e);
    hide Alike;
  }

  lemma {:induction false} RunStands(t: Terms, es: seq<Event>)
    requires ValidRun(es) && !Run(t, es).0.settled
    ensures StandsAt(t, es, Run(t, es).0)
    decreases |es|
  {
    hide Alike;
    if es != [] {
      var before, e := es[..|es| - 1], es[|es| - 1];
      assert before + [e] == es;
      RunStands(t, before);
      StepStands(t, before, Run(t, before).0, e);
    }
  }

  /**
    A tick settles an unsettled watch exactly when some frame, `seconds` old or older, restarted it and every frame
    since has matched that one.
   */
  lemma {:induction false} SettlesWhenStill(t: Terms, es: seq<Event>, now: real)
    requires ValidRun(es) && !Run(t, es).0.settled
    ensures Step(t, Run(t, es).0, Tick(now)).0.settled
            <==> exists a :: 0 <= a < |es| && es[a].Frame? && Restarts(t, es, a) && Quiet(t, es, a)
                             && es[a].now + t.seconds <= now
  {
    hide Alike, Restarts, Quiet, Run;
    var w := Run(t, es).0;
    RunStands(t, es);
    if w.baseline.Some? {
      var a: nat :| Anchors(t, es, w, a);
      forall b: nat | b < |es| && es[b].Frame? && Restarts(t, es, b) && Quiet(t, es, b) ensures b == a {
        if a < b { RestartBreaks(t, es, a, b); } else if b < a { RestartBreaks(t, es, b, a); }
      }
    }
  }

  /** What a restart differed from. */
  lemma RestartCause(t: Terms, es: seq<Event>, a: nat, b: nat) returns (c: nat)
    requires ValidRun(es) && a < b < |es| && es[a].Frame? && es[b].Frame? && Restarts(t, es, b)
    ensures c < b && es[c].Frame? && Restarts(t, es, c) && Quiet(t, es[..b], c) && !Alike(t, es[b].image, es[c].image)
  {
    hide Alike, Quiet;
    c :| 0 <= c < b && es[c].Frame? && Restarts(t, es, c) && Quiet(t, es[..b], c)
        && !Alike(t, es[b].image, es[c].image);
  }

  lemma QuietInPrefix(t: Terms, es: seq<Event>, a: nat, b: nat)
    requires ValidRun(es) && a < b < |es| && es[a].Frame? && es[b].Frame? && Quiet(t, es, a)
    ensures Quiet(t, es[..b], a) && Alike(t, es[b].image, es[a].image)
  {
    hide Alike;
  }

  /** A later restart has broken every earlier window. */
  lemma {:induction false} RestartBreaks(t: Terms, es: seq<Event>, a: nat, b: nat)
    requires ValidRun(es) && a < b < |es| && es[a].Frame? && es[b].Frame?
    requires Restarts(t, es, a) && Restarts(t, es, b)
    ensures !Quiet(t, es, a)
    decreases b
  {
    hide Alike, Restarts, Quiet;
    var c := RestartCause(t, es, a, b);
    var fs := es[..b];
    RestartsInPrefix(t, es, b, a);
    RestartsInPrefix(t, es, b, c);
    if Quiet(t, es, a) {
      QuietInPrefix(t, es, a, b);
      if a < c { RestartBreaks(t, fs, a, c); } else if c < a { RestartBreaks(t, fs, c, a); }
    }
  }

  /** A watch settles once and for all: nothing later is answered, and nothing more is asked of the server. */
  lemma {:induction false} SettledIsSettled(t: Terms, es: seq<Event>, later: seq<Event>)
    requires ValidRun(es) && ValidRun(later) && Run(t, es).0.settled
    ensures ValidRun(es + later) && Run(t, es + later) == Run(t, es)
    decreases |later|
  {
    hide Alike;
    if later == [] {
      assert es + later == es;
    } else {
      var before := later[..|later| - 1];
      assert (es + later)[..|es + later| - 1] == es + before;
      SettledIsSettled(t, es, before);
      var r := Run(t, es);
      assert r.1 + [] == r.1;
    }
  }

  // ---------------------------------------------------------------- the object

  /** `_StableWatch`: its fields, the requests and answer it has made, and as ghosts what it has been through. */
  class StableScreenWatch {
    const terms: Terms
    var baseline: Option<Image>
    var timer: Option<real>
    var settled: bool
    var outputs: seq<Output>
    ghost var opening: seq<Output>
    ghost var history: seq<Event>

    ghost predicate Valid()
      reads this
    {
      ValidRun(history) && Run(terms, history).0 == Watch(baseline, timer, settled)
      && outputs == opening + Run(terms, history).1
    }

    constructor (terms: Terms)
      ensures Valid() && this.terms == terms && history == [] && outputs == []
    {
      this.terms := terms;
      baseline, timer, settled, outputs, opening, history := None, None, false, [], [], [];
    }

    /** `start`: the window begins at once where there is a screen, else the whole screen is asked for. */
    method Begin(now: real, screen: Option<Image>)
      requires Valid() && history == [] && outputs == []
      requires screen.Some? ==> screen.value.Valid()
      modifies this
      ensures Valid() && history == (if screen.Some? then [Frame(now, screen.value)] else [])
      ensures opening == if screen.Some? then [] else [Asked(false)]
    {
      if screen.Some? {
        assert opening == [];
        Update(now, screen.value);
      } else {
        opening, outputs := [Asked(false)], [Asked(false)];
      }
    }

    /** `_changed`. */
    method HasChanged(frame: Image) returns (changed: bool)
      requires frame.Valid() && baseline.Some? && baseline.value.Valid()
      ensures changed == !Alike(terms, frame, baseline.value)
    {
      MatchesIsClose(frame, baseline.value, terms.fuzz, terms.blur);
      hide Close, Matches;
      changed := !Matches(frame, baseline.value, terms.fuzz, terms.blur);
    }

    /** `_update`, with the frame it renders. */
    method Update(now: real, frame: Image)
      requires Valid() && frame.Valid()
      modifies this
      ensures Valid() && history == old(history) + [Frame(now, frame)] && opening == old(opening)
    {
      hide Alike;
      RunExtends(terms, history, Frame(now, frame), opening);
      history := history + [Frame(now, frame)];
      if settled { return; }
      var restart := baseline.None?;
      if baseline.Some? { restart := HasChanged(frame); }
      if restart {
        baseline := Some(frame);
        timer := Some(now + terms.seconds);
      }
      outputs := outputs + [Asked(true)];
    }

    /** The reactor's clock: `_settle` when the timer is due. */
    method Elapse(now: real)
      requires Valid()
      modifies this
      ensures Valid() && history == old(history) + [Tick(now)] && opening == old(opening)
    {
      RunExtends(terms, history, Tick(now), opening);
      history := history + [Tick(now)];
      if timer.Some? && timer.value <= now {
        timer, settled := None, true;
        outputs := outputs + [Settled];
      }
    }
  }

  lemma RunExtends(t: Terms, es: seq<Event>, e: Event, opening: seq<Output>)
    requires ValidRun(es) && ValidEvent(e)
    ensures ValidRun(es + [e])
    ensures var r, step := Run(t, es), Step(t, Run(t, es).0, e);
            Run(t, es + [e]).0 == step.0 && opening + Run(t, es + [e]).1 == (opening + r.1) + step.1
            && (step.1 == [] ==> opening + Run(t, es + [e]).1 == opening + r.1)
  {
    assert (es + [e])[..|es + [e]| - 1] == es;
    hide Alike, Step;
  }
}
