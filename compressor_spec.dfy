/** The event compressor of gum/observers/keyboard_compressor.py as a pure
    state machine: a `Compressor` value holds every field of the Python object,
    with the output file replaced by the sequence of records written so far.
    Each function below is one method of the source or one branch of
    `process_event`, taking the old state to the new one, and `Run` is the
    loop of the `__main__` block; the class in event_compressor.dfy is proved
    against them. */
module CompressorSpec {
  import opened CompressorTypes
  import opened PendingPresses

  datatype Compressor = Compressor(
    pending: Pending,
    typed: seq<TypedChar>, lastTypedTs: int,
    moves: seq<MoveSample>, lastMoveTs: int,
    scrolls: seq<ScrollSample>, lastScrollTs: int,
    output: seq<Record>)

  /** `__init__` (lines 25-37), with an empty output. */
  const Init := Compressor([], [], 0, [], 0, [], 0, [])

  /** `_write_event` */
  function Write(c: Compressor, r: Record): Compressor
  {
    c.(output := c.output + [r])
  }

  /** `_flush_typed_char_buffer` (lines 42-63). */
  function FlushTyped(c: Compressor): Compressor
  {
    if c.typed == [] then c
    else c.(output := c.output + [TypedStringRecord(c.typed)], typed := [], lastTypedTs := 0)
  }

  /** `_flush_mouse_move_buffer` (lines 65-84). */
  function FlushMoves(c: Compressor): Compressor
  {
    if c.moves == [] then c
    else c.(output := c.output + [CondensedMoveRecord(c.moves)], moves := [], lastMoveTs := 0)
  }

  /** `_flush_mouse_scroll_buffer` (lines 86-112). */
  function FlushScrolls(c: Compressor): Compressor
  {
    if c.scrolls == [] then c
    else c.(output := c.output + [CondensedScrollRecord(c.scrolls)], scrolls := [], lastScrollTs := 0)
  }

  /** `_flush_all_buffers(current_ts)` (lines 114-121): the timeout flush. */
  function FlushAll(c: Compressor, ts: int): Compressor
  {
    var c1 := if c.typed != [] && ts - c.lastTypedTs > TypingMaxInterkeyDelta then FlushTyped(c) else c;
    var c2 := if c1.moves != [] && ts - c1.lastMoveTs > MouseSequenceMaxDelta then FlushMoves(c1) else c1;
    if c2.scrolls != [] && ts - c2.lastScrollTs > MouseSequenceMaxDelta then FlushScrolls(c2) else c2
  }

  /** Lines 130-135: flush every buffer the event does not continue. */
  function TypeChangeFlush(c: Compressor, e: Event): Compressor
  {
    var c1 := if !IsCharKeyEvent(e) then FlushTyped(c) else c;
    var c2 := if !e.input.Move? then FlushMoves(c1) else c1;
    if !e.input.Scroll? then FlushScrolls(c2) else c2
  }

  /** Lines 130-138: both flushes that run before the event is classified. */
  function PreFlush(c: Compressor, e: Event): Compressor
  {
    FlushAll(TypeChangeFlush(c, e), e.ts)
  }

  /** A press (lines 146-150 and 203-207): a stale press with the same identity
      is popped and written, then the new press is stored. */
  function HandlePress(c: Compressor, id: string, e: Event): Compressor
  {
    var i := Find(c.pending, id);
    var c1 := if 0 <= i then c.(pending := RemoveAt(c.pending, i), output := c.output + [Raw(c.pending[i].1)]) else c;
    c1.(pending := Assign(c1.pending, id, e))
  }

  /** Lines 167-185: a quick release of a character key joins the typed run,
      or starts a new run when its press is too far from the last one. */
  function AppendTyped(c: Compressor, key: string, pressTs: int, duration: int): Compressor
  {
    var item := TypedChar(ToChar(key), pressTs, duration);
    if c.typed == [] || pressTs - c.lastTypedTs <= TypingMaxInterkeyDelta then
      c.(typed := c.typed + [item], lastTypedTs := pressTs)
    else
      var c1 := FlushTyped(c);
      c1.(typed := c1.typed + [item], lastTypedTs := pressTs)
  }

  /** A keyboard release whose press was found and removed from `c1`
      (lines 160-189): a quick click of a character key joins the typed run,
      a quick click of any other key is a `key_click`, a slow pair is passed
      through as the press and then the release. */
  function PairedKeyRelease(c1: Compressor, key: string, press: Event, e: Event): Compressor
  {
    var duration := e.ts - press.ts;
    if duration <= KeyClickMaxDelta then
      if IsCharKey(key) then AppendTyped(c1, key, press.ts, duration)
      else Write(FlushTyped(c1), KeyClick(press.ts, key, duration))
    else Write(Write(c1, Raw(press)), Raw(e))
  }

  /** A keyboard release (lines 152-193); `id` is the identity of its key. */
  function HandleKeyRelease(c: Compressor, id: string, key: string, e: Event): Compressor
  {
    var i := Find(c.pending, id);
    if i < 0 then Write(c, Raw(e))
    else PairedKeyRelease(c.(pending := RemoveAt(c.pending, i)), key, c.pending[i].1, e)
  }

  /** A mouse release whose press was found and removed from `c1`
      (lines 213-223): a quick pair is a `mouse_click`, a slow pair is passed
      through as the press and then the release. */
  function PairedMouseRelease(c1: Compressor, x: int, y: int, button: string, press: Event, e: Event): Compressor
  {
    var duration := e.ts - press.ts;
    if duration <= MouseClickMaxDelta then Write(c1, MouseClick(press.ts, x, y, button, duration))
    else Write(Write(c1, Raw(press)), Raw(e))
  }

  /** A mouse button release (lines 208-225); `id` is the identity of the
      button and position. */
  function HandleMouseRelease(c: Compressor, id: string, x: int, y: int, button: string, e: Event): Compressor
  {
    var i := Find(c.pending, id);
    if i < 0 then Write(c, Raw(e))
    else PairedMouseRelease(c.(pending := RemoveAt(c.pending, i)), x, y, button, c.pending[i].1, e)
  }

  /** A mouse move (lines 227-234). */
  function HandleMove(c: Compressor, ts: int, x: int, y: int): Compressor
  {
    var sample := MoveSample(ts, x, y);
    if c.moves == [] || ts - c.lastMoveTs <= MouseSequenceMaxDelta then
      c.(moves := c.moves + [sample], lastMoveTs := ts)
    else
      var c1 := FlushMoves(c);
      c1.(moves := c1.moves + [sample], lastMoveTs := ts)
  }

  /** A mouse scroll (lines 236-248). */
  function HandleScroll(c: Compressor, ts: int, x: int, y: int, dx: int, dy: int): Compressor
  {
    var sample := ScrollSample(ts, x, y, dx, dy);
    if c.scrolls == [] || ts - c.lastScrollTs <= MouseSequenceMaxDelta then
      c.(scrolls := c.scrolls + [sample], lastScrollTs := ts)
    else
      var c1 := FlushScrolls(c);
      c1.(scrolls := c1.scrolls + [sample], lastScrollTs := ts)
  }

  /** Classification of the event (lines 141-254), after the flushes. */
  function Handle(c: Compressor, e: Event): Compressor
  {
    match e.input
    case Key(action, key) =>
      (match action
       case Press => HandlePress(c, KeyboardId(key), e)
       case Release => HandleKeyRelease(c, KeyboardId(key), key, e)
       case OtherAction(_) => c)
    case Click(x, y, button, pressed) =>
      if pressed then HandlePress(c, MouseId(button, x, y), e)
      else HandleMouseRelease(c, MouseId(button, x, y), x, y, button, e)
    case Move(x, y) => HandleMove(c, e.ts, x, y)
    case Scroll(x, y, dx, dy) => HandleScroll(c, e.ts, x, y, dx, dy)
    case OtherMouse(_, _, _) => Write(c, Raw(e))
    case OtherDevice(_, _) => Write(c, Raw(e))
  }

  /** `process_event` (lines 123-254). */
  function Step(c: Compressor, e: Event): Compressor
  {
    Handle(PreFlush(c, e), e)
  }

  /** The pass-through records of the pending presses, in insertion order. */
  function PendingRecords(p: Pending): (rs: seq<Record>)
    ensures |rs| == |p|
    ensures forall k :: 0 <= k < |p| ==> rs[k] == Raw(p[k].1)
  {
    seq(|p|, k requires 0 <= k < |p| => Raw(p[k].1))
  }

  /** Lines 258-260: the buffers are flushed, typed first, scrolls last. */
  function FlushBuffers(c: Compressor): Compressor
  {
    FlushScrolls(FlushMoves(FlushTyped(c)))
  }

  /** `finalize` (lines 256-264). */
  function Finalize(c: Compressor): Compressor
  {
    var c1 := FlushBuffers(c);
    c1.(pending := [], output := c1.output + PendingRecords(c1.pending))
  }

  /** The compressor fed a sequence of events, one `process_event` each
      (the loop at lines 277-280). */
  function Run(c: Compressor, es: seq<Event>): Compressor
    decreases |es|
  {
    if es == [] then c else Run(Step(c, es[0]), es[1..])
  }

  // ---------------------------------------------------------------- invariant

  /** A pending entry is a press stored under its own identity. */
  predicate IsPressFor(id: string, e: Event)
  {
    match e.input
    case Key(action, key) => action == Press && id == KeyboardId(key)
    case Click(x, y, button, pressed) => pressed && id == MouseId(button, x, y)
    case _ => false
  }

  predicate PendingOk(p: Pending)
  {
    DistinctIds(p) && forall i :: 0 <= i < |p| ==> IsPressFor(p[i].0, p[i].1)
  }

  /** At most one of the three run buffers is open. */
  predicate OneBufferOpen(c: Compressor)
  {
    (c.typed != [] ==> c.moves == [] && c.scrolls == []) && (c.moves != [] ==> c.scrolls == [])
  }

  /** The "last timestamp" fields: 0 for an empty buffer, else the time of
      the newest element. */
  predicate ClocksOk(c: Compressor)
  {
    && (if c.typed == [] then c.lastTypedTs == 0 else c.lastTypedTs == c.typed[|c.typed| - 1].ts)
    && (if c.moves == [] then c.lastMoveTs == 0 else c.lastMoveTs == c.moves[|c.moves| - 1].ts)
    && (if c.scrolls == [] then c.lastScrollTs == 0 else c.lastScrollTs == c.scrolls[|c.scrolls| - 1].ts)
  }

  /** Consecutive elements of a run are close enough in time. */
  predicate GapsOk(c: Compressor)
  {
    && (forall i :: 0 < i < |c.typed| ==> c.typed[i].ts - c.typed[i - 1].ts <= TypingMaxInterkeyDelta)
    && (forall i :: 0 < i < |c.moves| ==> c.moves[i].ts - c.moves[i - 1].ts <= MouseSequenceMaxDelta)
    && (forall i :: 0 < i < |c.scrolls| ==> c.scrolls[i].ts - c.scrolls[i - 1].ts <= MouseSequenceMaxDelta)
  }

  /** Every typed element came from a quick click of a character key. */
  predicate TypedOk(c: Compressor)
  {
    forall i :: 0 <= i < |c.typed| ==> c.typed[i].ch != "" && c.typed[i].duration <= KeyClickMaxDelta
  }

  predicate Valid(c: Compressor)
  {
    PendingOk(c.pending) && OneBufferOpen(c) && ClocksOk(c) && GapsOk(c) && TypedOk(c)
  }

  /** No stored time lies after `t`: the input so far did not go back in time. */
  predicate NotAfter(c: Compressor, t: int)
  {
    && (forall i :: 0 <= i < |c.pending| ==> c.pending[i].1.ts <= t)
    && (c.typed != [] ==> c.lastTypedTs <= t)
    && (c.moves != [] ==> c.lastMoveTs <= t)
    && (c.scrolls != [] ==> c.lastScrollTs <= t)
  }

  predicate NonDecreasing(es: seq<Event>)
  {
    forall i :: 0 < i < |es| ==> es[i - 1].ts <= es[i].ts
  }
}
