/**
  Whole runs of the pump: what `dataReceived` does with a server's stream, however TCP cut it into packets,
  and what is left of it after an abort.
 */
module Delivery {
  import opened Bytes
  import opened GeneratorFacts
  import opened Pump

  type Outcome = (Client, seq<byte>, seq<Event>)

  /** `dataReceived`. */
  function Receive(w: World, c: Client, packet: seq<byte>, data: seq<byte>): (r: Outcome)
    requires RgbImages(w.libs) && AtRest(c, packet)
    ensures AtRest(r.0, r.1)
  {
    if c.aborted then (c, packet, []) else Drain(w, c, packet + data)
  }

  /** A connection from some moment on: one `dataReceived` a packet. */
  function Deliver(w: World, c: Client, packet: seq<byte>, packets: seq<seq<byte>>): (r: Outcome)
    requires RgbImages(w.libs) && AtRest(c, packet)
    ensures AtRest(r.0, r.1)
    decreases |packets|
  {
    if packets == [] then (c, packet, [])
    else
      var first := Receive(w, c, packet, packets[0]);
      var rest := Deliver(w, first.0, first.1, packets[1..]);
      (rest.0, rest.1, first.2 + rest.2)
  }

  function Before(events: seq<Event>, o: Outcome): Outcome { (o.0, o.1, events + o.2) }

  lemma BeforeTwice(a: seq<Event>, b: seq<Event>, o: Outcome)
    ensures Before(a, Before(b, o)) == Before(a + b, o)
  {
    assert a + (b + o.2) == (a + b) + o.2;
  }

  lemma BeforeNothing(o: Outcome)
    ensures Before([], o) == o
  {
    assert [] + o.2 == o.2;
  }

  /** One turn of the loop. */
  lemma DrainStep(w: World, c: Client, packet: seq<byte>)
    requires RgbImages(w.libs) && Live(c) && Expected(c) <= |packet|
    ensures var n := Expected(c); var turn := Step(w, c, packet[..n]);
            Sound(turn.0) && Drain(w, c, packet) == Before(turn.1, Drain(w, turn.0, packet[n..]))
  {
    StepKeeps(w, c, packet[..Expected(c)]);
    hide Step, Expected, RgbImages, Sound;
  }

  /** Handling what has arrived now and the rest later comes to the same as waiting for all of it. */
  lemma {:induction false} DrainAppend(w: World, c: Client, packet: seq<byte>, more: seq<byte>)
    requires RgbImages(w.libs) && Sound(c)
    ensures var d := Drain(w, c, packet); Drain(w, c, packet + more) == Before(d.2, Drain(w, d.0, d.1 + more))
    decreases |packet|, if !c.aborted && Expected(c) == 0 then 1 else 0
  {
    hide Step, Expected, RgbImages, Sound;
    if c.aborted || |packet| < Expected(c) {
      BeforeNothing(Drain(w, c, packet + more));
    } else {
      var n := Expected(c);
      var block, rest := packet[..n], packet[n..];
      assert (packet + more)[..n] == block && (packet + more)[n..] == rest + more;
      StepKeeps(w, c, block);
      var turn := Step(w, c, block);
      DrainStep(w, c, packet);
      DrainStep(w, c, packet + more);
      DrainAppend(w, turn.0, rest, more);
      var d := Drain(w, turn.0, rest);
      BeforeTwice(turn.1, d.2, Drain(w, d.0, d.1 + more));
    }
  }

  /** Nothing happens to a parser that is waiting. */
  lemma DrainRests(w: World, c: Client, packet: seq<byte>)
    requires RgbImages(w.libs) && AtRest(c, packet)
    ensures Drain(w, c, packet) == (c, packet, [])
  {
    hide Step;
  }

  /** Packet by packet, or all of it at once. */
  lemma {:induction false} DeliverIsDrain(w: World, c: Client, packet: seq<byte>, packets: seq<seq<byte>>)
    requires RgbImages(w.libs) && AtRest(c, packet)
    ensures Deliver(w, c, packet, packets) == Drain(w, c, packet + Flatten(packets))
    decreases |packets|
  {
    hide Drain, RgbImages, AtRest;
    if packets == [] {
      assert packet + [] == packet;
      DrainRests(w, c, packet);
    } else {
      var head, tail := packets[0], Flatten(packets[1..]);
      var first := Receive(w, c, packet, head);
      DeliverIsDrain(w, first.0, first.1, packets[1..]);
      assert packet + (head + tail) == (packet + head) + tail;
      if c.aborted {
        AbortedIgnores(w, c, packet, packet + tail);
        AbortedIgnores(w, c, packet, packet + (head + tail));
        BeforeNothing((c, packet, []));
      } else {
        DrainSound(c, packet);
        DrainAppend(w, c, packet + head, tail);
      }
    }
  }

  lemma DrainSound(c: Client, packet: seq<byte>)
    requires AtRest(c, packet)
    ensures Sound(c)
  {
  }

  lemma AbortedIgnores(w: World, c: Client, packet: seq<byte>, bytes: seq<byte>)
    requires RgbImages(w.libs) && AtRest(c, packet) && c.aborted
    ensures Sound(c) && Drain(w, c, bytes) == (c, packet, [])
  {
  }

  /** However a server's stream is cut up: the same callbacks in the same order, the same parser, the same end. */
  lemma PacketsDoNotMatter(w: World, a: seq<seq<byte>>, b: seq<seq<byte>>)
    requires RgbImages(w.libs) && Flatten(a) == Flatten(b)
    ensures Deliver(w, NewClient(), [], a) == Deliver(w, NewClient(), [], b)
  {
    DeliverIsDrain(w, NewClient(), [], a);
    DeliverIsDrain(w, NewClient(), [], b);
  }

  /** Nothing a server sends after an abort is looked at. */
  lemma AbortIsForGood(w: World, c: Client, packet: seq<byte>, packets: seq<seq<byte>>)
    requires RgbImages(w.libs) && AtRest(c, packet) && c.aborted
    ensures Deliver(w, c, packet, packets) == (c, [], [])
  {
    DeliverIsDrain(w, c, packet, packets);
    AbortedIgnores(w, c, packet, packet + Flatten(packets));
  }
}
