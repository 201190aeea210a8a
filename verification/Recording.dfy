/**
  What `CaptureWriter` records over a whole connection: runs of feeds in both directions, packet
  boundaries, conservation, and which bytes of the wire the recording can depend on.
 */
module Recording {
  import opened Bytes
  import opened Handshake

  /** One arrival: bytes seen by the proxy in one direction. */
  datatype Event = Event(dir: Dir, data: seq<byte>)

  /** `CaptureWriter`: the scrubber and the two recorded streams. */
  datatype Writer = Writer(scrub: State, s2c: seq<byte>, c2s: seq<byte>) {
    function Stream(d: Dir): seq<byte> { if d.S2C? then s2c else c2s }
    function Emit(next: State, d: Dir, bytes: seq<byte>): Writer {
      if d.S2C? then Writer(next, s2c + bytes, c2s) else Writer(next, s2c, c2s + bytes)
    }
  }

  function Fresh(preserve: bool): Writer { Writer(Start(preserve), [], []) }

  /** `feed_s2c` and `feed_c2s`. */
  function Record(w: Writer, e: Event): Writer {
    var (next, out) := Feed(w.scrub, e.dir, e.data);
    w.Emit(next, e.dir, out)
  }

  function Run(w: Writer, es: seq<Event>): Writer
    decreases |es|
  {
    if es == [] then w else Run(Record(w, es[0]), es[1..])
  }

  /** `flush`, at disconnect. */
  function Close(w: Writer): Writer {
    var (a, x) := Flush(w.scrub, S2C);
    var (b, y) := Flush(a, C2S);
    w.Emit(a, S2C, x).Emit(b, C2S, y)
  }

  /** The wire itself: every byte with its direction, in arrival order, packet boundaries forgotten. */
  function Wire(es: seq<Event>): seq<Event> {
    if es == [] then [] else Singles(es[0].dir, es[0].data) + Wire(es[1..])
  }

  function Singles(d: Dir, data: seq<byte>): (r: seq<Event>)
    ensures |r| == |data|
  {
    seq(|data|, i requires 0 <= i < |data| => Event(d, [data[i]]))
  }

  /** The bytes of one direction. */
  function Sent(es: seq<Event>, d: Dir): seq<byte> {
    if es == [] then []
    else (if es[0].dir == d then es[0].data else []) + Sent(es[1..], d)
  }

  lemma {:induction false} RunSettles(w: Writer, es: seq<Event>)
    requires Settled(w.scrub)
    ensures Settled(Run(w, es).scrub)
    decreases |es|
  {
    if es != [] {
      FeedSettles(w.scrub, es[0].dir, es[0].data);
      RunSettles(Record(w, es[0]), es[1..]);
    }
  }

  /** At every moment of every run: a tap holds bytes only while watched, fewer than wanted, and waits are positive. */
  lemma TapsHoldOnlyWatchedBytes(preserve: bool, es: seq<Event>)
    ensures Settled(Run(Fresh(preserve), es).scrub)
  {
    RunSettles(Fresh(preserve), es);
  }

  lemma {:induction false} RunConcat(w: Writer, a: seq<Event>, b: seq<Event>)
    ensures Run(w, a + b) == Run(Run(w, a), b)
    decreases |a|
  {
    if a == [] {
      assert a + b == b;
    } else {
      assert (a + b)[1..] == a[1..] + b;
      RunConcat(Record(w, a[0]), a[1..], b);
    }
  }

  lemma RecordAppend(w: Writer, d: Dir, x: seq<byte>, y: seq<byte>)
    requires Settled(w.scrub)
    ensures Record(w, Event(d, x + y)) == Record(Record(w, Event(d, x)), Event(d, y))
  {
    FeedAppend(w.scrub, d, x, y);
    var (mid, out) := Feed(w.scrub, d, x);
    var (end, more) := Feed(mid, d, y);
    assert (w.Stream(d) + out) + more == w.Stream(d) + (out + more);
  }

  lemma {:induction false} RunSingles(w: Writer, d: Dir, data: seq<byte>)
    requires Settled(w.scrub)
    ensures Run(w, Singles(d, data)) == Record(w, Event(d, data))
    decreases |data|
  {
    if data == [] {
      assert w.Stream(d) + [] == w.Stream(d);
    } else {
      var e := Event(d, [data[0]]);
      assert Singles(d, data)[1..] == Singles(d, data[1..]);
      FeedSettles(w.scrub, d, [data[0]]);
      RunSingles(Record(w, e), d, data[1..]);
      RecordAppend(w, d, [data[0]], data[1..]);
      assert [data[0]] + data[1..] == data;
    }
  }

  lemma {:induction false} RunWire(w: Writer, es: seq<Event>)
    requires Settled(w.scrub)
    ensures Run(w, es) == Run(w, Wire(es))
    decreases |es|
  {
    if es != [] {
      FeedSettles(w.scrub, es[0].dir, es[0].data);
      RunSingles(w, es[0].dir, es[0].data);
      RunWire(Record(w, es[0]), es[1..]);
      RunConcat(w, Singles(es[0].dir, es[0].data), Wire(es[1..]));
      assert es[0] == Event(es[0].dir, es[0].data);
    }
  }

  /** Two ways of cutting the same traffic into packets leave the same recording and the same state. */
  lemma PacketBoundariesDoNotMatter(preserve: bool, a: seq<Event>, b: seq<Event>)
    requires Wire(a) == Wire(b)
    ensures Run(Fresh(preserve), a) == Run(Fresh(preserve), b)
  {
    RunWire(Fresh(preserve), a);
    RunWire(Fresh(preserve), b);
  }

  // ---------------------------------------------------------------- conservation

  lemma {:induction false} ConsumeKeepsEverything(st: State, d: Dir, buf: seq<byte>)
    requires st.preserve
    ensures var (end, out) := Consume(st, d, buf);
            end.preserve && out + end.Pending(d) == buf && end.Pending(d.Other()) == st.Pending(d.Other())
    decreases Rank(st.step)
  {
    assert !Watches(Done, d);
    hide *;
    if !Watches(st.step, d) || |buf| < Want(st.step) {
      StoppedKeepsEverything(st, d, buf);
    } else {
      var chunk, rest := buf[..Want(st.step)], buf[Want(st.step)..];
      assert buf == chunk + rest;
      ConsumeTake(st, d, chunk, rest);
      var next := Take(st, chunk).0;
      TakeHoldsNothing(st, chunk, d);
      ConsumeKeepsEverything(next, d, rest);
      ConcatAssociates(chunk, Consume(next, d, rest).1, Consume(next, d, rest).0.Pending(d));
    }
  }

  lemma StoppedKeepsEverything(st: State, d: Dir, buf: seq<byte>)
    requires !Watches(st.step, d) || |buf| < Want(st.step)
    ensures var (end, out) := Consume(st, d, buf);
            && end.preserve == st.preserve && out + end.Pending(d) == buf
            && end.Pending(d.Other()) == st.Pending(d.Other())
  {
    assert buf + [] == buf == [] + buf;
    hide Advance, Recorded, Rank, Side, Want;
  }

  lemma TakeHoldsNothing(st: State, chunk: seq<byte>, d: Dir)
    requires !st.step.Done? && |chunk| == Want(st.step)
    ensures Take(st, chunk).0.Pending(d.Other()) == st.Pending(d.Other())
  {
    hide Take;
  }

  /** Everything direction `d` has delivered so far, recorded or still held. */
  function Seen(w: Writer, d: Dir): seq<byte> { w.Stream(d) + w.scrub.Pending(d) }

  lemma RecordKeepsEverything(w: Writer, e: Event, d: Dir)
    requires w.scrub.preserve
    ensures Record(w, e).scrub.preserve
    ensures Seen(Record(w, e), d) == Seen(w, d) + if e.dir == d then e.data else []
  {
    hide Advance, Consume, Want, Side;
    if e.data != [] {
      ConsumeKeepsEverything(w.scrub, e.dir, w.scrub.Pending(e.dir) + e.data);
    }
    var (next, out) := Feed(w.scrub, e.dir, e.data);
    if e.dir == d {
      assert out + next.Pending(d) == w.scrub.Pending(d) + e.data;
      assert (w.Stream(d) + out) + next.Pending(d) == w.Stream(d) + (w.scrub.Pending(d) + e.data);
    } else {
      assert next.Pending(d) == w.scrub.Pending(d);
    }
  }

  lemma {:induction false} RunKeepsEverything(w: Writer, es: seq<Event>, d: Dir)
    requires w.scrub.preserve
    ensures Run(w, es).scrub.preserve
    ensures Seen(Run(w, es), d) == Seen(w, d) + Sent(es, d)
    decreases |es|
  {
    hide Record;
    if es != [] {
      RecordKeepsEverything(w, es[0], d);
      RunKeepsEverything(Record(w, es[0]), es[1..], d);
    }
  }

  /** With `preserve_auth` nothing is lost or altered: recorded plus held is what was fed, and a flush completes it. */
  lemma PreservedCaptureIsVerbatim(es: seq<Event>, d: Dir)
    ensures var end := Run(Fresh(true), es);
            end.Stream(d) + end.scrub.Pending(d) == Sent(es, d) && Close(end).Stream(d) == Sent(es, d)
  {
    hide *;
    FreshHoldsNothing(d);
    RunKeepsEverything(Fresh(true), es, d);
    CloseReleases(Run(Fresh(true), es), d);
    assert [] + Sent(es, d) == Sent(es, d);
  }

  lemma FreshHoldsNothing(d: Dir)
    ensures Fresh(true).scrub.preserve && Seen(Fresh(true), d) == []
  {
  }

  lemma CloseReleases(w: Writer, d: Dir)
    requires w.scrub.preserve
    ensures Close(w).Stream(d) == Seen(w, d) == w.Stream(d) + w.scrub.Pending(d)
  {
  }
}
