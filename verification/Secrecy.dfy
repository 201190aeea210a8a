/**
  What a stripped recording can depend on: two connections that differ only inside the auth exchange are
  recorded identically, at every point where either may be cut off.
 */
module Secrecy {
  import opened Bytes
  import opened Handshake
  import opened Recording
  import opened Sessions

  /** The part of the bytes read at a step that may reach the recording or steer the grammar. */
  function Public(step: Step, bytes: seq<byte>): seq<byte> {
    if !InAuth(step) then bytes
    else if step.DhHead? && |bytes| > 2 then bytes[2..]
    else []
  }

  /** Same length and same public part. */
  predicate SamePublic(step: Step, x: seq<byte>, y: seq<byte>) {
    |x| == |y| && Public(step, x) == Public(step, y)
  }

  /** Two scrubbers that hold the same public bytes. */
  predicate Alike(a: State, b: State) {
    && a.step == b.step && a.notes == b.notes && !a.preserve && !b.preserve
    && SamePublic(a.step, a.s2c, b.s2c) && SamePublic(a.step, a.c2s, b.c2s)
  }

  /** Two buffers that agree on everything but auth material, as the grammar at `st` reads them. */
  predicate Agree(st: State, d: Dir, x: seq<byte>, y: seq<byte>)
    decreases Rank(st.step)
  {
    if !Watches(st.step, d) then x == y
    else if |x| < Want(st.step) then SamePublic(st.step, x, y)
    else
      var n := Want(st.step);
      && |x| == |y| && SamePublic(st.step, x[..n], y[..n])
      && Agree(Take(st, x[..n]).0, d, x[n..], y[n..])
  }

  /** Auth material steers nothing and is recorded nowhere. */
  lemma TakeIgnoresSecrets(st: State, x: seq<byte>, y: seq<byte>)
    requires !st.preserve && !st.step.Done? && |x| == Want(st.step)
    requires SamePublic(st.step, x, y)
    ensures Take(st, x) == Take(st, y)
  {
    if st.step.DhHead? {
      assert x[2..4] == x[2..] && y[2..4] == y[2..];
    }
  }

  lemma {:induction false} AgreeSameLength(st: State, d: Dir, x: seq<byte>, y: seq<byte>)
    requires Agree(st, d, x, y)
    ensures |x| == |y|
  {
  }

  lemma {:induction false} AgreeSelf(st: State, d: Dir, x: seq<byte>)
    ensures Agree(st, d, x, x)
    decreases Rank(st.step)
  {
    hide Advance;
    if Watches(st.step, d) && |x| >= Want(st.step) {
      AgreeSelf(Take(st, x[..Want(st.step)]).0, d, x[Want(st.step)..]);
    }
  }

  lemma {:induction false} AgreePrefix(st: State, d: Dir, x: seq<byte>, y: seq<byte>, m: nat)
    requires Agree(st, d, x, y) && m <= |x| == |y|
    ensures Agree(st, d, x[..m], y[..m])
    decreases Rank(st.step)
  {
    hide Advance, Take;
    if Watches(st.step, d) {
      var n := Want(st.step);
      if m < n {
        PublicPrefix(st.step, x, y, m);
        if n <= |x| {
          PublicPrefix(st.step, x[..n], y[..n], m);
          assert x[..n][..m] == x[..m] && y[..n][..m] == y[..m];
        }
      } else {
        AgreePrefix(Take(st, x[..n]).0, d, x[n..], y[n..], m - n);
        assert x[..m][..n] == x[..n] && y[..m][..n] == y[..n];
        assert x[..m][n..] == x[n..][..m - n] && y[..m][n..] == y[n..][..m - n];
      }
    }
  }

  lemma PublicPrefix(step: Step, x: seq<byte>, y: seq<byte>, m: nat)
    requires m <= |x|
    ensures SamePublic(step, x, y) ==> SamePublic(step, x[..m], y[..m])
  {
    if SamePublic(step, x, y) && InAuth(step) && step.DhHead? && m > 2 {
      assert x[..m][2..] == x[2..][..m - 2] && y[..m][2..] == y[2..][..m - 2];
    }
  }

  /** Feeding agreeing buffers: the same bytes recorded, and alike afterwards. */
  lemma {:induction false} ConsumeAgree(st: State, d: Dir, x: seq<byte>, y: seq<byte>)
    requires !st.preserve && st.Pending(d.Other()) == [] && Agree(st, d, x, y)
    ensures Consume(st, d, x).1 == Consume(st, d, y).1
    ensures Alike(Consume(st, d, x).0, Consume(st, d, y).0)
    decreases Rank(st.step)
  {
    hide Advance, Take, Recorded;
    if Watches(st.step, d) && |x| >= Want(st.step) {
      var n := Want(st.step);
      assert x == x[..n] + x[n..] && y == y[..n] + y[n..];
      TakeIgnoresSecrets(st, x[..n], y[..n]);
      ConsumeTake(st, d, x[..n], x[n..]);
      ConsumeTake(st, d, y[..n], y[n..]);
      ConsumeAgree(Take(st, x[..n]).0, d, x[n..], y[n..]);
    }
  }

  /** Two event lists that differ only in auth material, each event that differs starting with nothing held. */
  predicate AgreeRun(w: Writer, es: seq<Event>, fs: seq<Event>)
    decreases |es|
  {
    es == fs
    || (&& es != [] && fs != []
        && (es[0] == fs[0]
            || (&& es[0].dir == fs[0].dir && w.scrub == At(w.scrub.step, w.scrub.notes)
                && Agree(w.scrub, es[0].dir, es[0].data, fs[0].data)
                && Record(w, es[0]) == Record(w, fs[0])))
        && AgreeRun(Record(w, es[0]), es[1..], fs[1..]))
  }

  /** The first `n` bytes of a connection, as events. */
  function Cut(es: seq<Event>, n: nat): seq<Event> {
    if es == [] then []
    else if n < |es[0].data| then [Event(es[0].dir, es[0].data[..n])]
    else [es[0]] + Cut(es[1..], n - |es[0].data|)
  }

  lemma {:induction false} WireOfCut(es: seq<Event>, n: nat)
    requires n <= |Wire(es)|
    ensures Wire(Cut(es, n)) == Wire(es)[..n]
    decreases |es|
  {
    if es != [] {
      var e := es[0];
      if n < |e.data| {
        var cut := [Event(e.dir, e.data[..n])];
        assert cut[1..] == [];
        assert Wire(cut) == Singles(e.dir, e.data[..n]) + [];
        assert Singles(e.dir, e.data[..n]) == Singles(e.dir, e.data)[..n];
      } else {
        var m := n - |e.data|;
        WireOfCut(es[1..], m);
        assert ([e] + Cut(es[1..], m))[1..] == Cut(es[1..], m);
        assert (Singles(e.dir, e.data) + Wire(es[1..]))[..n] == Singles(e.dir, e.data) + Wire(es[1..])[..m];
      }
    }
  }

  lemma {:induction false} CutAgree(w: Writer, es: seq<Event>, fs: seq<Event>, n: nat)
    requires Settled(w.scrub) && !w.scrub.preserve && AgreeRun(w, es, fs)
    ensures var a, b := Run(w, Cut(es, n)), Run(w, Cut(fs, n));
            Alike(a.scrub, b.scrub) && a.s2c == b.s2c && a.c2s == b.c2s
    decreases |es|
  {
    hide Advance, Consume, Take, Recorded, Agree, Settled;
    if es != fs {
      var e, f := es[0], fs[0];
      if e != f { AgreeSameLength(w.scrub, e.dir, e.data, f.data); }
      if n < |e.data| && e == f {
        RunNeverPreserves(w, Cut(es, n));
      } else if n < |e.data| {
        AgreePrefix(w.scrub, e.dir, e.data, f.data, n);
        ConsumeAgree(w.scrub, e.dir, e.data[..n], f.data[..n]);
        Run1(w, Event(e.dir, e.data[..n]));
        Run1(w, Event(f.dir, f.data[..n]));
        assert [] + e.data[..n] == e.data[..n] && [] + f.data[..n] == f.data[..n];
      } else {
        var m := n - |e.data|;
        assert ([e] + Cut(es[1..], m))[1..] == Cut(es[1..], m);
        assert ([f] + Cut(fs[1..], m))[1..] == Cut(fs[1..], m);
        FeedSettles(w.scrub, e.dir, e.data);
        FeedNeverPreserves(w.scrub, e.dir, e.data);
        CutAgree(Record(w, e), es[1..], fs[1..], m);
      }
    } else {
      RunNeverPreserves(w, Cut(es, n));
    }
  }

  lemma {:induction false} ConsumeNeverPreserves(st: State, d: Dir, buf: seq<byte>)
    requires !st.preserve
    ensures !Consume(st, d, buf).0.preserve
    decreases Rank(st.step)
  {
    hide Advance;
    if Watches(st.step, d) && |buf| >= Want(st.step) {
      var n := Want(st.step);
      assert buf == buf[..n] + buf[n..];
      ConsumeTake(st, d, buf[..n], buf[n..]);
      ConsumeNeverPreserves(Take(st, buf[..n]).0, d, buf[n..]);
    }
  }

  lemma FeedNeverPreserves(st: State, d: Dir, data: seq<byte>)
    requires !st.preserve
    ensures !Feed(st, d, data).0.preserve
  {
    ConsumeNeverPreserves(st, d, st.Pending(d) + data);
  }

  lemma {:induction false} RunNeverPreserves(w: Writer, es: seq<Event>)
    requires !w.scrub.preserve
    ensures !Run(w, es).scrub.preserve
    decreases |es|
  {
    hide Feed;
    if es != [] {
      FeedNeverPreserves(w.scrub, es[0].dir, es[0].data);
      RunNeverPreserves(Record(w, es[0]), es[1..]);
    }
  }

  lemma {:induction false} AgreeRunAfter(w: Writer, common: seq<Event>, es: seq<Event>, fs: seq<Event>)
    requires AgreeRun(Run(w, common), es, fs)
    ensures AgreeRun(w, common + es, common + fs)
    decreases |common|
  {
    hide Record;
    if common == [] {
      assert common + es == es && common + fs == fs;
    } else {
      assert (common + es)[1..] == common[1..] + es && (common + fs)[1..] == common[1..] + fs;
      AgreeRunAfter(Record(w, common[0]), common[1..], es, fs);
    }
  }

  /** The same session up to the contents of its auth exchange. */
  predicate SameButSecrets(s: Session, t: Session) {
    && t == s.(auth := t.auth)
    && match (s.auth, t.auth)
       case (NoAuth, NoAuth) => true
       case (VncAuth(_, _), VncAuth(_, _)) => true
       case (DhAuth(_, m, _, _, _), DhAuth(_, n, _, _, _)) => |m| == |n|
       case _ => false
  }

  lemma ExchangesAgree(s: Session, t: Session, w: Writer, rest: seq<Event>)
    requires Valid(s) && Valid(t) && SameButSecrets(s, t)
    requires w.scrub == At(AfterChoice(s), TypeNotes(s))
    ensures AgreeRun(w, Exchange(s.auth) + rest, Exchange(t.auth) + rest)
  {
    hide ParseVersion, StripNewlines, TypeNotes;
    match (s.auth, t.auth)
    case (NoAuth, NoAuth) =>
    case (VncAuth(c, r), VncAuth(c', r')) =>
      RecordExact(w, S2C, c);
      RecordExact(w, S2C, c');
      var v := Record(w, Event(S2C, c));
      RecordExact(v, C2S, r);
      RecordExact(v, C2S, r');
      AgreeTwo(w, [Event(S2C, c), Event(C2S, r)], [Event(S2C, c'), Event(C2S, r')], rest);
    case (DhAuth(g, m, k, c, y), DhAuth(g', m', k', c', y')) =>
      DhServerHalf(w, g, m, k);
      DhServerHalf(w, g', m', k');
      ServerHeadsAgree(w.scrub, g, g', |m|);
      ServerHalvesAgree(w.scrub, g + Pack16(|m|), m, k, g' + Pack16(|m|), m', k');
      var v := Record(w, Exchange(s.auth)[0]);
      DhClientHalf(v, |m|, c, y);
      DhClientHalf(v, |m|, c', y');
      ClientHalvesAgree(v.scrub, c, y, c', y');
      AgreeTwo(w, Exchange(s.auth), Exchange(t.auth), rest);
  }

  lemma AgreeTwo(w: Writer, es: seq<Event>, fs: seq<Event>, rest: seq<Event>)
    requires |es| == |fs| == 2 && es[0].dir == fs[0].dir && es[1].dir == fs[1].dir
    requires w.scrub == At(w.scrub.step, w.scrub.notes)
    requires Record(w, es[0]) == Record(w, fs[0]) && Agree(w.scrub, es[0].dir, es[0].data, fs[0].data)
    requires var v := Record(w, es[0]);
             && v.scrub == At(v.scrub.step, v.scrub.notes) && Record(v, es[1]) == Record(v, fs[1])
             && Agree(v.scrub, es[1].dir, es[1].data, fs[1].data)
    ensures AgreeRun(w, es + rest, fs + rest)
  {
    hide Record, Agree;
    var v := Record(w, es[0]);
    assert (es + rest)[1..] == [es[1]] + rest && (fs + rest)[1..] == [fs[1]] + rest;
    assert ([es[1]] + rest)[1..] == rest && ([fs[1]] + rest)[1..] == rest;
    assert AgreeRun(Record(v, es[1]), rest, rest);
    assert AgreeRun(v, [es[1]] + rest, [fs[1]] + rest);
  }

  lemma AgreeTake(st: State, d: Dir, x: seq<byte>, y: seq<byte>, xs: seq<byte>, ys: seq<byte>)
    requires Watches(st.step, d) && |x| == Want(st.step) && SamePublic(st.step, x, y)
    requires Agree(Take(st, x).0, d, xs, ys)
    ensures Agree(st, d, x + xs, y + ys)
  {
    AgreeSameLength(Take(st, x).0, d, xs, ys);
    hide Take, Advance, SamePublic;
    SamePublicLength(st.step, x, y);
    assert (x + xs)[..|x|] == x && (x + xs)[|x|..] == xs;
    assert (y + ys)[..|x|] == y && (y + ys)[|x|..] == ys;
  }

  lemma SamePublicLength(step: Step, x: seq<byte>, y: seq<byte>)
    ensures SamePublic(step, x, y) ==> |x| == |y|
  {
  }

  lemma ServerKeysAgree(b: State, m: seq<byte>, k: seq<byte>, m': seq<byte>, k': seq<byte>)
    requires !b.preserve && b.step.DhModulus? && b.step.keyLen == |m| == |m'| == |k| == |k'|
    ensures Agree(b, S2C, m + k, m' + k')
  {
    var c := b.(step := DhServerKey(b.step.v, |m|));
    assert Take(b, m).0 == c;
    AgreeSelf(Take(c, k).0, S2C, []);
    AgreeTake(c, S2C, k, k', [], []);
    assert k + [] == k && k' + [] == k';
    AgreeTake(b, S2C, m, m', k, k');
  }

  lemma ServerHeadsAgree(st: State, g: seq<byte>, g': seq<byte>, n: nat)
    requires !st.preserve && st.step.DhHead? && |g| == |g'| == 2 && n < 0x1_0000
    ensures SamePublic(st.step, g + Pack16(n), g' + Pack16(n))
    ensures Take(st, g + Pack16(n)).0 == st.(step := DhModulus(st.step.v, n))
  {
    assert (g + Pack16(n))[2..] == (g + Pack16(n))[2..4] == Pack16(n) && (g' + Pack16(n))[2..] == Pack16(n);
  }

  lemma ServerHalvesAgree(st: State, head: seq<byte>, m: seq<byte>, k: seq<byte>,
                          head': seq<byte>, m': seq<byte>, k': seq<byte>)
    requires !st.preserve && st.step.DhHead? && |head| == 4
    requires |m| == |m'| == |k| == |k'|
    requires SamePublic(st.step, head, head') && Take(st, head).0 == st.(step := DhModulus(st.step.v, |m|))
    ensures Agree(st, S2C, head + m + k, head' + m' + k')
  {
    hide Take, Advance, Agree, SamePublic;
    ServerKeysAgree(st.(step := DhModulus(st.step.v, |m|)), m, k, m', k');
    AgreeTake(st, S2C, head, head', m + k, m' + k');
    ConcatAssociates(head, m, k);
    ConcatAssociates(head', m', k');
  }

  lemma ClientHalvesAgree(st: State, c: seq<byte>, y: seq<byte>, c': seq<byte>, y': seq<byte>)
    requires !st.preserve && st.step.DhCredentials?
    requires |c| == |c'| == ARD_CREDENTIALS_LEN && |y| == |y'| == st.step.keyLen
    ensures Agree(st, C2S, c + y, c' + y')
  {
    var key := st.(step := DhClientKey(st.step.v, |y|));
    assert Take(st, c).0 == key;
    AgreeSelf(Take(key, y).0, C2S, []);
    AgreeTake(key, C2S, y, y', [], []);
    assert y + [] == y && y' + [] == y';
    AgreeTake(st, C2S, c, c', y, y');
  }

  lemma ScriptsAgree(s: Session, t: Session)
    requires Valid(s) && Valid(t) && SameButSecrets(s, t)
    ensures AgreeRun(Fresh(false), Script(s), Script(t))
  {
    hide ParseVersion, Record, Feed, TypeNotes, AfterChoice, Negotiation, Exchange, Remainder, VersionNotes, AgreeRun;
    var w0 := Fresh(false);
    GreetingRecorded(s);
    var w1 := Run(w0, Greeting(s));
    NegotiationRecorded(s, w1);
    RunConcat(w0, Greeting(s), Negotiation(s));
    var common := Greeting(s) + Negotiation(s);
    SameOutside(s, t);
    ExchangesAgree(s, t, Run(w0, common), Remainder(s));
    AgreeRunAfter(w0, common, Exchange(s.auth) + Remainder(s), Exchange(t.auth) + Remainder(s));
    assert Script(s) == common + (Exchange(s.auth) + Remainder(s));
    assert Script(t) == common + (Exchange(t.auth) + Remainder(s));
  }

  /**
    Two-run independence: connections that differ only in challenge and response, or in Diffie-Hellman
    values and credentials of the same key length, are recorded identically. Both may be cut off after
    any number of bytes (succeeding or failing later), and cut into packets in any two different ways.
   */
  lemma AuthContentsNeverReachTheRecording(s: Session, t: Session, n: nat, es: seq<Event>, fs: seq<Event>)
    requires Valid(s) && Valid(t) && SameButSecrets(s, t)
    requires n <= |Wire(Script(s))| && n <= |Wire(Script(t))|
    requires Wire(es) == Wire(Script(s))[..n] && Wire(fs) == Wire(Script(t))[..n]
    ensures Archived(es).s2c == Archived(fs).s2c && Archived(es).c2s == Archived(fs).c2s
  {
    hide ParseVersion, Record, Script, AgreeRun;
    var w0 := Fresh(false);
    ScriptsAgree(s, t);
    CutAgree(w0, Script(s), Script(t), n);
    WireOfCut(Script(s), n);
    WireOfCut(Script(t), n);
    PacketBoundariesDoNotMatter(false, es, Cut(Script(s), n));
    PacketBoundariesDoNotMatter(false, fs, Cut(Script(t), n));
    TapsHoldOnlyWatchedBytes(false, es);
    TapsHoldOnlyWatchedBytes(false, fs);
    CloseOfAlike(Run(w0, es), Run(w0, fs));
  }

  lemma SameOutside(s: Session, t: Session)
    requires Valid(s) && Valid(t) && SameButSecrets(s, t)
    ensures Negotiation(t) == Negotiation(s) && Remainder(t) == Remainder(s)
  {
    hide ParseVersion;
  }

  /** A flush emits nothing mid-handshake, and there is nothing held after it. */
  lemma CloseOfAlike(a: Writer, b: Writer)
    requires Alike(a.scrub, b.scrub) && Settled(a.scrub) && Settled(b.scrub)
    requires a.s2c == b.s2c && a.c2s == b.c2s
    ensures Close(a).s2c == Close(b).s2c && Close(a).c2s == Close(b).c2s
  {
    assert a.scrub.Pending(S2C) != [] ==> Watches(a.scrub.step, S2C);
    assert a.scrub.Pending(C2S) != [] ==> Watches(a.scrub.step, C2S);
  }
}
