/**
  When a screen refresh is complete (`_FullScreenReceived`, `refreshScreen`, `commitUpdate` and
  `updateDesktopSize` of vncdotool/client.py; section 7.5.3 of RFC 6143), said of the history of a connection.
 */
module Refresh {
  import opened Bytes

  datatype Point = Point(x: nat, y: nat)

  datatype Box = Box(x: nat, y: nat, width: nat, height: nat) {
    predicate Covers(p: Point) { x <= p.x < x + width && y <= p.y < y + height }
  }

  datatype Size = Size(width: nat, height: nat) {
    function Area(): set<Point> { set x, y | 0 <= x < width && 0 <= y < height :: Point(x, y) }
  }

  const NO_AREA := Size(0, 0)

  /** What the client is told, by the caller or by the pump. */
  datatype Input =
    | Refresh(incremental: bool)
    | Paint(box: Box)
    | Copy(box: Box)
    | Resize(size: Size)
    | CommitUpdate(rectangles: seq<Box>)

  type History = seq<Input>

  // ---------------------------------------------------------------- the history, read off the inputs

  /** The framebuffer's size after a history that began at `first`. */
  function SizeAfter(first: Size, h: History): Size {
    if h == [] then first
    else
      var last := h[|h| - 1];
      if last.Resize? then last.size else SizeAfter(first, h[..|h| - 1])
  }

  /** An update with pixels in it, or a resize, makes `screen`. */
  predicate HasScreen(h: History) {
    exists j :: 0 <= j < |h| && (h[j].Resize? || (h[j].Paint? && h[j].box.width * h[j].box.height > 0))
  }

  /** Input `j` paints pixel `p`; there is nothing to copy from before there is a screen. */
  predicate Paints(h: History, j: nat, p: Point)
    requires j < |h|
  {
    match h[j]
    case Paint(box) => box.Covers(p)
    case Copy(box) => box.Covers(p) && HasScreen(h[..j])
    case _ => false
  }

  /** The last resize after refresh `i`, or the refresh itself. */
  function Since(h: History, i: nat): (k: nat)
    requires i < |h|
    ensures i <= k < |h|
    ensures forall j :: k < j < |h| ==> !h[j].Resize?
    ensures k > i ==> h[k].Resize?
  {
    if h[|h| - 1].Resize? || |h| - 1 == i then |h| - 1 else Since(h[..|h| - 1], i)
  }

  predicate Covered(h: History, from: nat, p: Point) {
    exists j :: from < j < |h| && Paints(h, j, p)
  }

  /** Every pixel of the framebuffer as it now is has been painted since. */
  ghost predicate AllCovered(first: Size, h: History, from: nat) {
    forall p :: p in SizeAfter(first, h).Area() ==> Covered(h, from, p)
  }

  /** The framebuffer was 0x0 when a full refresh was asked for, or has been since. */
  predicate Collapsed(first: Size, h: History, i: nat)
    requires i < |h|
  {
    SizeAfter(first, h[..i]) == NO_AREA || exists j :: i < j < |h| && h[j] == Resize(NO_AREA)
  }

  /** Input `j` ends an update that could complete a refresh. */
  predicate Counts(h: History, j: nat)
    requires j < |h|
  {
    h[j].CommitUpdate? && h[j].rectangles != [] && HasScreen(h[..j])
  }

  /** An update since then fell short, and the server was asked again. */
  predicate AskedAgain(h: History, from: nat) {
    exists j :: from < j < |h| && Counts(h, j)
  }

  /** The refresh asked for at `i` is owed nothing more. */
  ghost predicate Satisfied(first: Size, h: History, i: nat)
    requires i < |h| && h[i].Refresh?
  {
    h[i].incremental || Collapsed(first, h, i) || AllCovered(first, h, Since(h, i))
  }

  /** The refresh still to be answered after a history. */
  ghost function Outstanding(first: Size, h: History): (r: Option<nat>)
    ensures r.Some? ==> r.value < |h| && h[r.value].Refresh?
    decreases |h|, 0
  {
    if h == [] then None
    else
      var last := |h| - 1;
      if h[last].Refresh? then Some(last) else if Fires(first, h) then None else Outstanding(first, h[..last])
  }

  /** The last input of a history answers the outstanding refresh. */
  ghost predicate Fires(first: Size, h: History)
    requires h != [] && !h[|h| - 1].Refresh?
    decreases |h| - 1, 1
  {
    var before := h[..|h| - 1];
    && Counts(h, |h| - 1)
    && Outstanding(first, before).Some?
    && var i := Outstanding(first, before).value; Satisfied(first, before, i) || AskedAgain(before, Since(before, i))
  }

  // ---------------------------------------------------------------- the client's state

  /** `_FullScreenReceived`: what a refresh is still owed. */
  datatype Mask = Mask(retries: nat, size: Size, unpainted: set<Point>)

  function Awaiting(size: Size): Mask { Mask(0, size, size.Area()) }

  /** A refresh promised no area. */
  function Owed(): (m: Mask) { Awaiting(NO_AREA) }

  function PaintRect(m: Mask, box: Box): Mask {
    m.(unpainted := set p | p in m.unpainted && !box.Covers(p))
  }

  datatype Client = Client(screen: bool, size: Size, fullscreen: Mask, made: nat, deferred: Option<nat>)

  /** Requests to the server, the warning about unpainted pixels, and refreshes called back, by their number. */
  datatype Output = Asked(incremental: bool, size: Size) | Warned(unpainted: nat) | Fired(refresh: nat)

  const MAX_RETRIES := 1

  function NewClient(size: Size): Client { Client(false, size, Owed(), 0, None) }

  /** `commitUpdate`. */
  function Commit(c: Client, rectangles: seq<Box>): (Client, seq<Output>) {
    if c.deferred.None? then (c, [])
    else if rectangles == [] || !c.screen then (c, [Asked(false, c.size)])
    else
      var m := c.fullscreen;
      var done := c.(fullscreen := Owed(), deferred := None);
      if m.unpainted == {} then (done, [Fired(c.deferred.value)])
      else if m.retries < MAX_RETRIES then (c.(fullscreen := m.(retries := m.retries + 1)), [Asked(false, c.size)])
      else (done, [Warned(|m.unpainted|), Fired(c.deferred.value)])
  }

  function Step(c: Client, input: Input): (Client, seq<Output>) {
    match input
    case Refresh(incremental) =>
      (c.(deferred := Some(c.made), made := c.made + 1, fullscreen := if incremental then Owed() else Awaiting(c.size)),
       [Asked(incremental, c.size)])
    case Paint(box) =>
      if box.width * box.height == 0 then (c, [])
      else (c.(screen := true, fullscreen := PaintRect(c.fullscreen, box)), [])
    case Copy(box) => if c.screen then (c.(fullscreen := PaintRect(c.fullscreen, box)), []) else (c, [])
    case Resize(size) =>
      var mask := if c.fullscreen.size != NO_AREA then Awaiting(size) else c.fullscreen;
      (c.(screen := true, size := size, fullscreen := mask), [])
    case CommitUpdate(rectangles) => Commit(c, rectangles)
  }

  function Run(c: Client, h: History): (Client, seq<Output>)
    decreases |h|
  {
    if h == [] then (c, [])
    else
      var before := Run(c, h[..|h| - 1]);
      var step := Step(before.0, h[|h| - 1]);
      (step.0, before.1 + step.1)
  }

  function Refreshes(h: History): nat {
    if h == [] then 0 else Refreshes(h[..|h| - 1]) + if h[|h| - 1].Refresh? then 1 else 0
  }

  // ---------------------------------------------------------------- one more input

  lemma Prefix(h: History, x: Input, i: nat)
    requires i <= |h|
    ensures (h + [x])[..i] == h[..i] && (h + [x])[..|h|] == h
  {
  }

  lemma ScreenExtends(h: History, x: Input)
    ensures HasScreen(h + [x]) == (HasScreen(h) || x.Resize? || (x.Paint? && x.box.width * x.box.height > 0))
  {
    var k := h + [x];
    assert forall j :: 0 <= j < |h| ==> k[j] == h[j];
    assert k[|h|] == x;
  }

  lemma CoveredExtends(h: History, x: Input, from: nat, p: Point)
    requires from < |h|
    ensures Covered(h + [x], from, p)
            == (Covered(h, from, p) || (x.Paint? && x.box.Covers(p)) || (x.Copy? && HasScreen(h) && x.box.Covers(p)))
  {
    var k := h + [x];
    Prefix(h, x, |h|);
    assert forall j :: 0 <= j < |h| ==> k[j] == h[j] && k[..j] == h[..j];
    assert forall j: nat :: j < |h| ==> Paints(k, j, p) == Paints(h, j, p);
    assert Paints(k, |h|, p) == ((x.Paint? && x.box.Covers(p)) || (x.Copy? && HasScreen(h) && x.box.Covers(p)));
    if Covered(h, from, p) {
      var j :| from < j < |h| && Paints(h, j, p);
      assert Paints(k, j, p);
    }
  }

  lemma AskedExtends(h: History, x: Input, from: nat)
    requires from < |h|
    ensures AskedAgain(h + [x], from)
            == (AskedAgain(h, from) || (x.CommitUpdate? && x.rectangles != [] && HasScreen(h)))
  {
    var k := h + [x];
    Prefix(h, x, |h|);
    assert forall j :: 0 <= j < |h| ==> k[j] == h[j] && k[..j] == h[..j];
    assert forall j: nat :: j < |h| ==> Counts(k, j) == Counts(h, j);
    assert Counts(k, |h|) == (x.CommitUpdate? && x.rectangles != [] && HasScreen(h));
    if AskedAgain(h, from) {
      var j :| from < j < |h| && Counts(h, j);
      assert Counts(k, j);
    }
  }

  lemma CollapsedExtends(first: Size, h: History, x: Input, i: nat)
    requires i < |h|
    ensures Collapsed(first, h + [x], i) == (Collapsed(first, h, i) || x == Resize(NO_AREA))
  {
    var k := h + [x];
    Prefix(h, x, i);
    assert forall j :: 0 <= j < |h| ==> k[j] == h[j];
    assert k[|h|] == x;
  }

  // ---------------------------------------------------------------- the state is the history's

  /** The mask of a refresh asked for at `i`. */
  ghost predicate MaskIs(first: Size, h: History, i: nat, m: Mask)
    requires i < |h| && h[i].Refresh?
  {
    && m.retries == (if AskedAgain(h, Since(h, i)) then 1 else 0)
    && (if h[i].incremental || Collapsed(first, h, i) then m == Owed()
        else
          && m.size == SizeAfter(first, h) != NO_AREA
          && MaskedIs(m.unpainted, SizeAfter(first, h).Area(), h, Since(h, i)))
  }

  ghost predicate MaskedIs(unpainted: set<Point>, area: set<Point>, h: History, from: nat) {
    forall p :: p in unpainted <==> p in area && !Covered(h, from, p)
  }

  ghost predicate StateIs(first: Size, h: History, c: Client) {
    && c.size == SizeAfter(first, h) && c.screen == HasScreen(h) && c.made == Refreshes(h)
    && DeferredIs(first, h, Outstanding(first, h), c)
  }

  /** The refresh to be called back, and its mask. */
  ghost predicate DeferredIs(first: Size, h: History, outstanding: Option<nat>, c: Client)
    requires outstanding.Some? ==> outstanding.value < |h| && h[outstanding.value].Refresh?
  {
    match outstanding
    case None => c.deferred.None? && c.fullscreen == Owed()
    case Some(i) => c.deferred == Some(Refreshes(h[..i])) && MaskIs(first, h, i, c.fullscreen)
  }
}
