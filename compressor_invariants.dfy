/** What one `process_event` call does to a valid compressor: the flushes
    that run first, the invariant it keeps, the classification cases of
    presses and releases, and the order of what it writes. */
module CompressorInvariants {
  import opened CompressorTypes
  import opened PendingPresses
  import opened CompressorSpec

  /** The summary records of the open buffers, typed first, scrolls last. */
  function OpenSummaries(c: Compressor): seq<Record>
  {
    (if c.typed == [] then [] else [TypedStringRecord(c.typed)])
    + (if c.moves == [] then [] else [CondensedMoveRecord(c.moves)])
    + (if c.scrolls == [] then [] else [CondensedScrollRecord(c.scrolls)])
  }

  /** `c` with every buffer flushed: buffers empty, clocks reset, one summary
      per open buffer written. */
  function Drained(c: Compressor): Compressor
  {
    c.(typed := [], lastTypedTs := 0, moves := [], lastMoveTs := 0, scrolls := [], lastScrollTs := 0,
       output := c.output + OpenSummaries(c))
  }

  /** Flushing all three buffers, in the order `finalize` uses, writes the
      summary of the one open buffer (if any) and keeps the invariant. */
  lemma FlushBuffersSpec(c: Compressor)
    requires Valid(c)
    ensures FlushBuffers(c) == Drained(c)
    ensures |OpenSummaries(c)| <= 1
    ensures Valid(Drained(c))
  {
  }

  /** The flushes of lines 130-138 either do nothing or flush the one open
      buffer. Afterwards only a buffer the event continues can be open, and
      an open buffer is recent enough not to have timed out. Conversely, an
      open buffer that the event continues within its threshold is kept:
      then the flushes change nothing. */
  lemma PreFlushSpec(c: Compressor, e: Event)
    requires Valid(c)
    ensures var f := PreFlush(c, e);
      && (f == c || f == Drained(c))
      && Valid(f)
      && (!IsCharKeyEvent(e) ==> f.typed == [])
      && (!e.input.Move? ==> f.moves == [])
      && (!e.input.Scroll? ==> f.scrolls == [])
      && (f.typed != [] ==> e.ts - f.lastTypedTs <= TypingMaxInterkeyDelta)
      && (f.moves != [] ==> e.ts - f.lastMoveTs <= MouseSequenceMaxDelta)
      && (f.scrolls != [] ==> e.ts - f.lastScrollTs <= MouseSequenceMaxDelta)
      && (c.typed != [] && IsCharKeyEvent(e) && e.ts - c.lastTypedTs <= TypingMaxInterkeyDelta ==> f == c)
      && (c.moves != [] && e.input.Move? && e.ts - c.lastMoveTs <= MouseSequenceMaxDelta ==> f == c)
      && (c.scrolls != [] && e.input.Scroll? && e.ts - c.lastScrollTs <= MouseSequenceMaxDelta ==> f == c)
  {
    FlushBuffersSpec(c);
    var t := TypeChangeFlush(c, e);
    assert t == c || t == Drained(c);
    if t == Drained(c) {
      assert FlushAll(t, e.ts) == t;
    }
  }

  /** The flushes never touch the pending presses. */
  lemma PreFlushKeepsPending(c: Compressor, e: Event)
    ensures PreFlush(c, e).pending == c.pending
  {
  }

  lemma RemoveKeepsPendingOk(p: Pending, i: int)
    requires PendingOk(p) && 0 <= i < |p|
    ensures PendingOk(RemoveAt(p, i))
    ensures Find(RemoveAt(p, i), p[i].0) == -1
  {
    RemoveAtKeepsDistinct(p, i);
  }

  lemma AssignKeepsPendingOk(p: Pending, id: string, e: Event)
    requires PendingOk(p) && IsPressFor(id, e)
    ensures PendingOk(Assign(p, id, e))
  {
    AssignSpec(p, id, e);
  }

  /** Changing only the pending presses and the output keeps the invariant
      as long as the new pending presses are well formed. */
  lemma ValidFrame(c: Compressor, p: Pending, o: seq<Record>)
    requires Valid(c) && PendingOk(p)
    ensures Valid(c.(pending := p, output := o))
  {
  }

  lemma FlushTypedValid(c: Compressor)
    requires Valid(c)
    ensures var d := FlushTyped(c);
      Valid(d) && d.pending == c.pending && d.typed == [] && d.moves == c.moves && d.scrolls == c.scrolls
  {
  }

  /** A repeated press writes the stale press and replaces it: the new press
      is the last entry. Nothing but the pending presses and the output
      changes. */
  lemma HandlePressShape(c: Compressor, id: string, e: Event)
    ensures var d := HandlePress(c, id, e); var i := Find(c.pending, id);
      && d == c.(pending := d.pending, output := d.output)
      && (i < 0 ==> d.pending == Assign(c.pending, id, e) && d.output == c.output)
      && (0 <= i ==> d.pending == Assign(RemoveAt(c.pending, i), id, e) && d.output == c.output + [Raw(c.pending[i].1)])
  {
  }

  /** After a press no identity is pending twice and the new press is the
      last entry. */
  lemma HandlePressSpec(c: Compressor, id: string, e: Event)
    requires Valid(c) && IsPressFor(id, e)
    ensures var d := HandlePress(c, id, e); var i := Find(c.pending, id);
      && Valid(d)
      && d == c.(pending := d.pending, output := d.output)
      && (i < 0 ==> d.pending == c.pending + [(id, e)] && d.output == c.output)
      && (0 <= i ==> d.pending == RemoveAt(c.pending, i) + [(id, e)] && d.output == c.output + [Raw(c.pending[i].1)])
      && Find(d.pending, id) == |d.pending| - 1
  {
    HandlePressShape(c, id, e);
    var d := HandlePress(c, id, e);
    var i := Find(c.pending, id);
    if 0 <= i {
      RemoveKeepsPendingOk(c.pending, i);
      AssignSpec(RemoveAt(c.pending, i), id, e);
      AssignKeepsPendingOk(RemoveAt(c.pending, i), id, e);
    } else {
      AssignSpec(c.pending, id, e);
      AssignKeepsPendingOk(c.pending, id, e);
    }
    ValidFrame(c, d.pending, d.output);
  }

  /** Appending one typed character keeps the invariant when it is close
      enough to the previous one, or starts the run. */
  lemma TypedExtendValid(c: Compressor, item: TypedChar)
    requires Valid(c) && c.moves == [] && c.scrolls == []
    requires item.ch != "" && item.duration <= KeyClickMaxDelta
    requires c.typed == [] || item.ts - c.lastTypedTs <= TypingMaxInterkeyDelta
    ensures Valid(c.(typed := c.typed + [item], lastTypedTs := item.ts))
  {
    var d := c.(typed := c.typed + [item], lastTypedTs := item.ts);
    assert forall i :: 0 <= i < |c.typed| ==> d.typed[i] == c.typed[i];
  }

  /** A quick release of a character key keeps the invariant: the typed run
      grows by one element whose press is close enough to the previous one,
      or a new run starts. */
  lemma AppendTypedValid(c: Compressor, key: string, pressTs: int, duration: int)
    requires Valid(c) && c.moves == [] && c.scrolls == []
    requires IsCharKey(key) && duration <= KeyClickMaxDelta
    ensures var d := AppendTyped(c, key, pressTs, duration); Valid(d) && d.pending == c.pending
  {
    ToCharOfCharKey(key);
    var item := TypedChar(ToChar(key), pressTs, duration);
    if c.typed == [] || pressTs - c.lastTypedTs <= TypingMaxInterkeyDelta {
      TypedExtendValid(c, item);
    } else {
      FlushTypedValid(c);
      TypedExtendValid(FlushTyped(c), item);
    }
  }

  lemma MoveExtendValid(c: Compressor, sample: MoveSample)
    requires Valid(c) && c.typed == [] && c.scrolls == []
    requires c.moves == [] || sample.ts - c.lastMoveTs <= MouseSequenceMaxDelta
    ensures Valid(c.(moves := c.moves + [sample], lastMoveTs := sample.ts))
  {
    var d := c.(moves := c.moves + [sample], lastMoveTs := sample.ts);
    assert forall i :: 0 <= i < |c.moves| ==> d.moves[i] == c.moves[i];
  }

  lemma HandleMoveValid(c: Compressor, ts: int, x: int, y: int)
    requires Valid(c) && c.typed == [] && c.scrolls == []
    ensures var d := HandleMove(c, ts, x, y); Valid(d) && d.pending == c.pending
  {
    var sample := MoveSample(ts, x, y);
    if c.moves == [] || ts - c.lastMoveTs <= MouseSequenceMaxDelta {
      MoveExtendValid(c, sample);
    } else {
      MoveExtendValid(FlushMoves(c), sample);
    }
  }

  lemma ScrollExtendValid(c: Compressor, sample: ScrollSample)
    requires Valid(c) && c.typed == [] && c.moves == []
    requires c.scrolls == [] || sample.ts - c.lastScrollTs <= MouseSequenceMaxDelta
    ensures Valid(c.(scrolls := c.scrolls + [sample], lastScrollTs := sample.ts))
  {
    var d := c.(scrolls := c.scrolls + [sample], lastScrollTs := sample.ts);
    assert forall i :: 0 <= i < |c.scrolls| ==> d.scrolls[i] == c.scrolls[i];
  }

  lemma HandleScrollValid(c: Compressor, ts: int, x: int, y: int, dx: int, dy: int)
    requires Valid(c) && c.typed == [] && c.moves == []
    ensures var d := HandleScroll(c, ts, x, y, dx, dy); Valid(d) && d.pending == c.pending
  {
    var sample := ScrollSample(ts, x, y, dx, dy);
    if c.scrolls == [] || ts - c.lastScrollTs <= MouseSequenceMaxDelta {
      ScrollExtendValid(c, sample);
    } else {
      ScrollExtendValid(FlushScrolls(c), sample);
    }
  }

  /** A quick click of a key that is not a character ends the typed run and
      writes a `key_click`. */
  lemma KeyClickValid(c1: Compressor, r: Record)
    requires Valid(c1)
    ensures var d := Write(FlushTyped(c1), r);
      Valid(d) && d.typed == [] && d.moves == c1.moves && d.scrolls == c1.scrolls
  {
    FlushTypedValid(c1);
    var c2 := FlushTyped(c1);
    ValidFrame(c2, c2.pending, c2.output + [r]);
  }

  /** A slow pair is written as it came and nothing else changes. */
  lemma SlowPairValid(c1: Compressor, press: Event, e: Event)
    requires Valid(c1)
    ensures var d := Write(Write(c1, Raw(press)), Raw(e));
      Valid(d) && d == c1.(output := d.output)
  {
    ValidFrame(c1, c1.pending, c1.output + [Raw(press), Raw(e)]);
    assert Write(Write(c1, Raw(press)), Raw(e)) == c1.(pending := c1.pending, output := c1.output + [Raw(press), Raw(e)]);
  }

  lemma PairedKeyReleaseValid(c1: Compressor, key: string, press: Event, e: Event)
    requires Valid(c1)
    requires IsCharKey(key) ==> c1.moves == [] && c1.scrolls == []
    ensures var d := PairedKeyRelease(c1, key, press, e);
      Valid(d) && (d.typed != [] ==> c1.typed != [] || IsCharKey(key))
      && d.moves == c1.moves && d.scrolls == c1.scrolls
  {
    var duration := e.ts - press.ts;
    if duration <= KeyClickMaxDelta {
      if IsCharKey(key) {
        AppendTypedValid(c1, key, press.ts, duration);
      } else {
        KeyClickValid(c1, KeyClick(press.ts, key, duration));
      }
    } else {
      SlowPairValid(c1, press, e);
    }
  }

  lemma HandleKeyReleaseValid(c: Compressor, id: string, key: string, e: Event)
    requires Valid(c)
    requires IsCharKey(key) ==> c.moves == [] && c.scrolls == []
    ensures var d := HandleKeyRelease(c, id, key, e);
      Valid(d) && (d.typed != [] ==> c.typed != [] || IsCharKey(key))
      && d.moves == c.moves && d.scrolls == c.scrolls
  {
    var i := Find(c.pending, id);
    if i < 0 {
      ValidFrame(c, c.pending, c.output + [Raw(e)]);
    } else {
      RemoveKeepsPendingOk(c.pending, i);
      var c1 := c.(pending := RemoveAt(c.pending, i));
      ValidFrame(c, c1.pending, c.output);
      assert c1 == c.(pending := c1.pending, output := c.output);
      PairedKeyReleaseValid(c1, key, c.pending[i].1, e);
    }
  }

  lemma PairedMouseReleaseValid(c1: Compressor, x: int, y: int, button: string, press: Event, e: Event)
    requires Valid(c1)
    ensures var d := PairedMouseRelease(c1, x, y, button, press, e);
      Valid(d) && d == c1.(output := d.output)
  {
    var duration := e.ts - press.ts;
    if duration <= MouseClickMaxDelta {
      ValidFrame(c1, c1.pending, c1.output + [MouseClick(press.ts, x, y, button, duration)]);
    } else {
      ValidFrame(c1, c1.pending, c1.output + [Raw(press), Raw(e)]);
      assert Write(Write(c1, Raw(press)), Raw(e)) == c1.(pending := c1.pending, output := c1.output + [Raw(press), Raw(e)]);
    }
  }

  lemma HandleMouseReleaseValid(c: Compressor, id: string, x: int, y: int, button: string, e: Event)
    requires Valid(c)
    ensures var d := HandleMouseRelease(c, id, x, y, button, e);
      Valid(d) && d == c.(pending := d.pending, output := d.output)
  {
    var i := Find(c.pending, id);
    if i < 0 {
      ValidFrame(c, c.pending, c.output + [Raw(e)]);
    } else {
      RemoveKeepsPendingOk(c.pending, i);
      var c1 := c.(pending := RemoveAt(c.pending, i));
      ValidFrame(c, c1.pending, c.output);
      assert c1 == c.(pending := c1.pending, output := c.output);
      PairedMouseReleaseValid(c1, x, y, button, c.pending[i].1, e);
    }
  }

  /** The classification step keeps the invariant when it starts from the
      state the flushes leave behind. */
  lemma HandleValid(f: Compressor, e: Event)
    requires Valid(f)
    requires !IsCharKeyEvent(e) ==> f.typed == []
    requires !e.input.Move? ==> f.moves == []
    requires !e.input.Scroll? ==> f.scrolls == []
    ensures var d := Handle(f, e);
      && Valid(d)
      && (d.typed != [] ==> IsCharKeyEvent(e))
      && (d.moves != [] ==> e.input.Move?)
      && (d.scrolls != [] ==> e.input.Scroll?)
  {
    match e.input
    case Key(action, key) =>
      match action {
        case Press => HandlePressSpec(f, KeyboardId(key), e);
        case Release => HandleKeyReleaseValid(f, KeyboardId(key), key, e);
        case OtherAction(_) =>
      }
    case Click(x, y, button, pressed) =>
      if pressed {
        HandlePressSpec(f, MouseId(button, x, y), e);
      } else {
        HandleMouseReleaseValid(f, MouseId(button, x, y), x, y, button, e);
      }
    case Move(x, y) => HandleMoveValid(f, e.ts, x, y);
    case Scroll(x, y, dx, dy) => HandleScrollValid(f, e.ts, x, y, dx, dy);
    case OtherMouse(_, _, _) => ValidFrame(f, f.pending, f.output + [Raw(e)]);
    case OtherDevice(_, _) => ValidFrame(f, f.pending, f.output + [Raw(e)]);
  }

  /** `process_event` keeps the invariant: no identity is pending twice, at
      most one buffer is open, the clocks match the buffers and consecutive
      elements of a run are within their threshold. An open buffer after the
      call was continued by that very event. */
  lemma StepValid(c: Compressor, e: Event)
    requires Valid(c)
    ensures var d := Step(c, e);
      && Valid(d)
      && (d.typed != [] ==> IsCharKeyEvent(e))
      && (d.moves != [] ==> e.input.Move?)
      && (d.scrolls != [] ==> e.input.Scroll?)
  {
    PreFlushSpec(c, e);
    HandleValid(PreFlush(c, e), e);
  }

  // ------------------------------------------------------ runs merge

  /** A move within `MOUSE_SEQUENCE_MAX_DELTA` of the open move run joins it
      (lines 228-230): nothing is written, the sample is appended and the
      clock moves to the event. */
  lemma MoveJoinsRun(c: Compressor, e: Event)
    requires Valid(c) && e.input.Move? && c.moves != []
    requires e.ts - c.lastMoveTs <= MouseSequenceMaxDelta
    ensures Step(c, e) == c.(moves := c.moves + [MoveSample(e.ts, e.input.x, e.input.y)], lastMoveTs := e.ts)
  {
    PreFlushSpec(c, e);
  }

  /** A move with no open move run starts one holding just its sample. */
  lemma MoveStartsRun(c: Compressor, e: Event)
    requires Valid(c) && e.input.Move? && c.moves == []
    ensures var d := Step(c, e);
      d.moves == [MoveSample(e.ts, e.input.x, e.input.y)] && d.lastMoveTs == e.ts && d.pending == c.pending
  {
    PreFlushSpec(c, e);
    PreFlushKeepsPending(c, e);
    var f := PreFlush(c, e);
    assert f.moves == [];
    assert Step(c, e) == HandleMove(f, e.ts, e.input.x, e.input.y);
  }

  /** A scroll within `MOUSE_SEQUENCE_MAX_DELTA` of the open scroll run joins
      it (lines 242-244). */
  lemma ScrollJoinsRun(c: Compressor, e: Event)
    requires Valid(c) && e.input.Scroll? && c.scrolls != []
    requires e.ts - c.lastScrollTs <= MouseSequenceMaxDelta
    ensures Step(c, e) == c.(scrolls := c.scrolls + [ScrollSample(e.ts, e.input.x, e.input.y, e.input.dx, e.input.dy)],
                             lastScrollTs := e.ts)
  {
    PreFlushSpec(c, e);
  }

  /** A scroll with no open scroll run starts one holding just its sample. */
  lemma ScrollStartsRun(c: Compressor, e: Event)
    requires Valid(c) && e.input.Scroll? && c.scrolls == []
    ensures var d := Step(c, e);
      d.scrolls == [ScrollSample(e.ts, e.input.x, e.input.y, e.input.dx, e.input.dy)]
      && d.lastScrollTs == e.ts && d.pending == c.pending
  {
    PreFlushSpec(c, e);
    PreFlushKeepsPending(c, e);
    var f := PreFlush(c, e);
    assert f.scrolls == [];
    assert Step(c, e) == HandleScroll(f, e.ts, e.input.x, e.input.y, e.input.dx, e.input.dy);
  }

  /** The press of a character key within the typing threshold of the open
      typed run keeps the run: only the press is stored. */
  lemma CharPressKeepsRun(c: Compressor, e: Event)
    requires Valid(c) && e.input.Key? && e.input.action == Press && IsCharKey(e.input.key)
    requires c.typed != [] && e.ts - c.lastTypedTs <= TypingMaxInterkeyDelta
    ensures Step(c, e) == HandlePress(c, KeyboardId(e.input.key), e)
    ensures Step(c, e).typed == c.typed && Step(c, e).lastTypedTs == c.lastTypedTs
  {
    PreFlushSpec(c, e);
    HandlePressShape(c, KeyboardId(e.input.key), e);
  }

  /** The quick release of a character key, within the typing threshold of
      the open typed run, joins the run (lines 167-177): the press is popped,
      nothing is written, `to_char(key)` is appended with the press time and
      the duration, and the clock moves to the press. */
  lemma TypedJoinsRun(c: Compressor, e: Event)
    requires OneBufferOpen(c) && e.input.Key? && e.input.action == Release && IsCharKey(e.input.key)
    requires c.typed != [] && e.ts - c.lastTypedTs <= TypingMaxInterkeyDelta
    requires 0 <= Find(c.pending, KeyboardId(e.input.key))
    requires var press := c.pending[Find(c.pending, KeyboardId(e.input.key))].1;
      press.ts <= e.ts && e.ts - press.ts <= KeyClickMaxDelta
    ensures var i := Find(c.pending, KeyboardId(e.input.key)); var press := c.pending[i].1;
      Step(c, e) == c.(pending := RemoveAt(c.pending, i),
                       typed := c.typed + [TypedChar(ToChar(e.input.key), press.ts, e.ts - press.ts)],
                       lastTypedTs := press.ts)
  {
    PreFlushKeepsTyped(c, e);
    var key := e.input.key;
    assert Step(c, e) == Handle(c, e);
    assert Handle(c, e) == HandleKeyRelease(c, KeyboardId(key), key, e);
    TypedReleaseAppends(c, KeyboardId(key), key, e);
  }

  /** A key press is stored where a later release of that key finds it, and
      the typed buffer is what the flushes left of it (lines 128-150). */
  lemma KeyPressStored(c: Compressor, e: Event)
    requires Valid(c) && e.input.Key? && e.input.action == Press
    ensures var d := Step(c, e); var i := Find(d.pending, KeyboardId(e.input.key));
      && Valid(d) && 0 <= i < |d.pending| && d.pending[i].1 == e
      && d.typed == PreFlush(c, e).typed && d.lastTypedTs == PreFlush(c, e).lastTypedTs
  {
    PreFlushSpec(c, e);
    var f := PreFlush(c, e);
    var id := KeyboardId(e.input.key);
    assert Step(c, e) == Handle(f, e);
    assert Handle(f, e) == HandlePress(f, id, e);
    PressStored(f, id, e);
    StepValid(c, e);
  }

  /** A press is bound to its identity, and the buffers stay. */
  lemma PressStored(f: Compressor, id: string, e: Event)
    requires DistinctIds(f.pending)
    ensures var d := HandlePress(f, id, e); var i := Find(d.pending, id);
      && 0 <= i < |d.pending| && d.pending[i].1 == e
      && d.typed == f.typed && d.lastTypedTs == f.lastTypedTs
  {
    HandlePressShape(f, id, e);
    var i := Find(f.pending, id);
    if 0 <= i {
      RemoveAtKeepsDistinct(f.pending, i);
      AssignSpec(RemoveAt(f.pending, i), id, e);
    } else {
      AssignSpec(f.pending, id, e);
    }
  }

  /** With no typed run open, a quick release of a character key whose press
      is pending starts a run holding just its character (lines 167-177). */
  lemma TypedOpensRun(c: Compressor, e: Event)
    requires e.input.Key? && e.input.action == Release && IsCharKey(e.input.key) && c.typed == []
    requires 0 <= Find(c.pending, KeyboardId(e.input.key))
    requires var press := c.pending[Find(c.pending, KeyboardId(e.input.key))].1;
      press.ts <= e.ts && e.ts - press.ts <= KeyClickMaxDelta
    ensures var press := c.pending[Find(c.pending, KeyboardId(e.input.key))].1; var d := Step(c, e);
      d.typed == [TypedChar(ToChar(e.input.key), press.ts, e.ts - press.ts)] && d.lastTypedTs == press.ts
  {
    PreFlushKeepsNoTyped(c, e);
    var f := PreFlush(c, e);
    var key := e.input.key;
    assert Step(c, e) == Handle(f, e);
    assert Handle(f, e) == HandleKeyRelease(f, KeyboardId(key), key, e);
    TypedReleaseOpens(f, KeyboardId(key), key, e);
  }

  /** The flushes open no typed run and keep the pending presses. */
  lemma PreFlushKeepsNoTyped(c: Compressor, e: Event)
    requires c.typed == []
    ensures PreFlush(c, e).typed == [] && PreFlush(c, e).pending == c.pending
  {
    assert TypeChangeFlush(c, e).typed == [];
    PreFlushKeepsPending(c, e);
  }

  /** The release of such a click, on a state with no typed run. */
  lemma TypedReleaseOpens(f: Compressor, id: string, key: string, e: Event)
    requires IsCharKey(key) && f.typed == [] && 0 <= Find(f.pending, id)
    requires var press := f.pending[Find(f.pending, id)].1; press.ts <= e.ts && e.ts - press.ts <= KeyClickMaxDelta
    ensures var press := f.pending[Find(f.pending, id)].1; var d := HandleKeyRelease(f, id, key, e);
      d.typed == [TypedChar(ToChar(key), press.ts, e.ts - press.ts)] && d.lastTypedTs == press.ts
  {
    var i := Find(f.pending, id);
    var press := f.pending[i].1;
    var f1 := f.(pending := RemoveAt(f.pending, i));
    assert HandleKeyRelease(f, id, key, e) == PairedKeyRelease(f1, key, press, e);
    assert PairedKeyRelease(f1, key, press, e) == AppendTyped(f1, key, press.ts, e.ts - press.ts);
  }

  /** A character-key event within the typing threshold of the open typed
      run leaves the flushes nothing to do. */
  lemma PreFlushKeepsTyped(c: Compressor, e: Event)
    requires OneBufferOpen(c) && IsCharKeyEvent(e)
    requires c.typed != [] && e.ts - c.lastTypedTs <= TypingMaxInterkeyDelta
    ensures PreFlush(c, e) == c
  {
    assert TypeChangeFlush(c, e) == c;
  }

  /** The release step of `TypedJoinsRun`, on the state the flushes left. */
  lemma TypedReleaseAppends(c: Compressor, id: string, key: string, e: Event)
    requires IsCharKey(key) && c.typed != [] && e.ts - c.lastTypedTs <= TypingMaxInterkeyDelta
    requires 0 <= Find(c.pending, id)
    requires var press := c.pending[Find(c.pending, id)].1; press.ts <= e.ts && e.ts - press.ts <= KeyClickMaxDelta
    ensures var i := Find(c.pending, id); var press := c.pending[i].1;
      HandleKeyRelease(c, id, key, e) == c.(pending := RemoveAt(c.pending, i),
        typed := c.typed + [TypedChar(ToChar(key), press.ts, e.ts - press.ts)], lastTypedTs := press.ts)
  {
    var i := Find(c.pending, id);
    var press := c.pending[i].1;
    var c1 := c.(pending := RemoveAt(c.pending, i));
    assert HandleKeyRelease(c, id, key, e) == PairedKeyRelease(c1, key, press, e);
    assert PairedKeyRelease(c1, key, press, e) == AppendTyped(c1, key, press.ts, e.ts - press.ts);
  }

  /** The `else` branches at lines 178-185, 231-233 and 245-247 ("too far,
      flush and start a new buffer") are never taken: the timeout flush at
      line 138 has already flushed such a buffer. For moves and scrolls this
      holds for any input; for typed characters it needs the press to be no
      later than its release. */
  lemma TooFarBranchesUnreachable(c: Compressor, e: Event)
    requires Valid(c)
    ensures var f := PreFlush(c, e);
      && (e.input.Move? ==> f.moves == [] || e.ts - f.lastMoveTs <= MouseSequenceMaxDelta)
      && (e.input.Scroll? ==> f.scrolls == [] || e.ts - f.lastScrollTs <= MouseSequenceMaxDelta)
      && (e.input.Key? && e.input.action == Release ==>
            var i := Find(f.pending, KeyboardId(e.input.key));
            0 <= i && f.pending[i].1.ts <= e.ts ==>
              f.typed == [] || f.pending[i].1.ts - f.lastTypedTs <= TypingMaxInterkeyDelta)
  {
    PreFlushSpec(c, e);
  }

  /** The flushes keep `NotAfter`: they only empty buffers. */
  lemma PreFlushNotAfter(c: Compressor, e: Event)
    requires Valid(c) && NotAfter(c, e.ts)
    ensures NotAfter(PreFlush(c, e), e.ts) && PreFlush(c, e).pending == c.pending
  {
    PreFlushSpec(c, e);
  }

  /** A paired key release, by duration and kind of key. */
  lemma PairedKeyReleaseSpec(c1: Compressor, key: string, press: Event, e: Event)
    requires IsCharKey(key) && c1.typed != [] ==> press.ts - c1.lastTypedTs <= TypingMaxInterkeyDelta
    ensures var d := PairedKeyRelease(c1, key, press, e); var duration := e.ts - press.ts;
      && d.pending == c1.pending
      && (duration <= KeyClickMaxDelta && IsCharKey(key) ==>
            d.output == c1.output && d.typed == c1.typed + [TypedChar(ToChar(key), press.ts, duration)])
      && (duration <= KeyClickMaxDelta && !IsCharKey(key) ==>
            d.output == FlushTyped(c1).output + [KeyClick(press.ts, key, duration)] && d.typed == [])
      && (duration > KeyClickMaxDelta ==> d.output == c1.output + [Raw(press), Raw(e)])
  {
  }

  /** The pending press a release finds was stored for the same key. */
  lemma KeyPressFound(p: Pending, key: string)
    requires PendingOk(p) && 0 <= Find(p, KeyboardId(key))
    ensures p[Find(p, KeyboardId(key))].1.input == Key(Press, key)
  {
    var i := Find(p, KeyboardId(key));
    assert IsPressFor(p[i].0, p[i].1);
    match p[i].1.input {
      case Key(a, k) => KeyboardIdInjective(k, key);
      case Click(x, y, b, pr) => KeyboardMouseIdsDiffer(key, b, x, y);
    }
  }

  /** Keyboard release (lines 152-193) under the identity `id` of its key,
      on the state `f` the flushes leave (`PreFlushSpec` gives the timing
      requirements). With no pending press the release is written alone.
      Otherwise the press is removed from the pending map (`KeyPressFound`:
      it is a press of this very key) and: a quick click of a character key
      writes nothing and adds the character to the typed buffer; a quick click
      of another key writes one `key_click` with the press time, the key and
      the duration; a slow pair writes the press, then the release. */
  lemma KeyReleaseCases(f: Compressor, id: string, key: string, e: Event)
    requires DistinctIds(f.pending)
    requires forall j :: 0 <= j < |f.pending| ==> f.pending[j].1.ts <= e.ts
    requires f.typed != [] ==> e.ts - f.lastTypedTs <= TypingMaxInterkeyDelta
    requires !IsCharKey(key) ==> f.typed == []
    ensures var d := HandleKeyRelease(f, id, key, e);
      var i := Find(f.pending, id);
      && (i < 0 ==> d == f.(output := f.output + [Raw(e)]))
      && (0 <= i ==>
            var press := f.pending[i].1; var duration := e.ts - press.ts;
            && d.pending == RemoveAt(f.pending, i)
            && Find(d.pending, id) == -1
            && (duration <= KeyClickMaxDelta && IsCharKey(key) ==>
                  d.output == f.output
                  && d.typed == f.typed + [TypedChar(ToChar(key), press.ts, duration)])
            && (duration <= KeyClickMaxDelta && !IsCharKey(key) ==>
                  d.output == f.output + [KeyClick(press.ts, key, duration)] && d.typed == [])
            && (duration > KeyClickMaxDelta ==> d.output == f.output + [Raw(press), Raw(e)]))
  {
    var i := Find(f.pending, id);
    if 0 <= i {
      RemoveAtKeepsDistinct(f.pending, i);
      var press := f.pending[i].1;
      assert press.ts <= e.ts;
      var c1 := f.(pending := RemoveAt(f.pending, i));
      PairedKeyReleaseSpec(c1, key, press, e);
      if !IsCharKey(key) {
        assert FlushTyped(c1) == c1;
      }
    }
  }

  /** A paired mouse release, by duration. */
  lemma PairedMouseReleaseSpec(c1: Compressor, x: int, y: int, b: string, press: Event, e: Event)
    ensures var d := PairedMouseRelease(c1, x, y, b, press, e); var duration := e.ts - press.ts;
      && d == c1.(output := d.output)
      && (duration <= MouseClickMaxDelta ==> d.output == c1.output + [MouseClick(press.ts, x, y, b, duration)])
      && (duration > MouseClickMaxDelta ==> d.output == c1.output + [Raw(press), Raw(e)])
  {
  }

  /** The pending press a mouse release finds was stored for the same button
      at the same coordinates; when none is found, no such press is pending. */
  lemma MousePressFound(p: Pending, x: int, y: int, b: string)
    requires PendingOk(p)
    ensures var i := Find(p, MouseId(b, x, y));
      && (0 <= i ==> p[i].1.input == Click(x, y, b, true))
      && (i < 0 ==> forall j :: 0 <= j < |p| ==> p[j].1.input != Click(x, y, b, true))
  {
    var i := Find(p, MouseId(b, x, y));
    if 0 <= i {
      assert IsPressFor(p[i].0, p[i].1);
      match p[i].1.input {
        case Key(a, k) => KeyboardMouseIdsDiffer(k, b, x, y);
        case Click(x', y', b', pr) => MouseIdInjective(b', x', y', b, x, y);
      }
    } else {
      forall j | 0 <= j < |p| ensures p[j].1.input != Click(x, y, b, true) {
        assert IsPressFor(p[j].0, p[j].1);
      }
    }
  }

  /** Mouse button release (lines 208-225) under the identity `id` of its
      button and position. A release with no pending press under `id` is
      written alone and every pending press stays. Otherwise that press is
      removed; a quick pair writes one `mouse_click` with the press time, the
      release coordinates, the button and the duration; a slow one writes the
      press, then the release. (`MousePressFound`: the press found is one of
      the same button at the same coordinates, and none is pending when none
      is found.) */
  lemma MouseReleaseCases(f: Compressor, id: string, x: int, y: int, b: string, e: Event)
    requires DistinctIds(f.pending)
    ensures var d := HandleMouseRelease(f, id, x, y, b, e);
      var i := Find(f.pending, id);
      && (i < 0 ==> d == f.(output := f.output + [Raw(e)]))
      && (0 <= i ==>
            var press := f.pending[i].1; var duration := e.ts - press.ts;
            && d.pending == RemoveAt(f.pending, i)
            && Find(d.pending, id) == -1
            && (duration <= MouseClickMaxDelta ==> d.output == f.output + [MouseClick(press.ts, x, y, b, duration)])
            && (duration > MouseClickMaxDelta ==> d.output == f.output + [Raw(press), Raw(e)]))
  {
    var i := Find(f.pending, id);
    if 0 <= i {
      RemoveAtKeepsDistinct(f.pending, i);
      PairedMouseReleaseSpec(f.(pending := RemoveAt(f.pending, i)), x, y, b, f.pending[i].1, e);
    }
  }

  /** A release under `id` leaves every pending press stored under another
      identity in place. */
  lemma ReleaseOtherIdKeepsEntry(f: Compressor, id: string, x: int, y: int, b: string, e: Event, j: int)
    requires 0 <= j < |f.pending| && f.pending[j].0 != id
    ensures var d := HandleMouseRelease(f, id, x, y, b, e);
      exists k :: 0 <= k < |d.pending| && d.pending[k] == f.pending[j]
  {
    var p := f.pending;
    var i := Find(p, id);
    if 0 <= i {
      assert i != j;
      var q := RemoveAt(p, i);
      var k := if j < i then j else j - 1;
      PairedMouseReleaseSpec(f.(pending := q), x, y, b, p[i].1, e);
      var d := HandleMouseRelease(f, id, x, y, b, e);
      assert d.pending == q;
      assert d.pending[k] == p[j];
    } else {
      assert HandleMouseRelease(f, id, x, y, b, e).pending[j] == p[j];
    }
  }

  /** A mouse release pairs only with a press of the same button at the same
      coordinates (line 201): a pending press stored for another button or
      position is still pending afterwards, with the same event. */
  lemma ReleaseElsewhereKeepsPress(f: Compressor, j: int, x: int, y: int, b: string, e: Event)
    requires PendingOk(f.pending) && 0 <= j < |f.pending|
    requires f.pending[j].1.input.Click? && f.pending[j].1.input != Click(x, y, b, true)
    ensures var d := HandleMouseRelease(f, MouseId(b, x, y), x, y, b, e);
      exists k :: 0 <= k < |d.pending| && d.pending[k] == f.pending[j]
  {
    var entry := f.pending[j];
    assert IsPressFor(entry.0, entry.1);
    var ev := entry.1.input;
    assert entry.0 == MouseId(ev.button, ev.x, ev.y);
    if entry.0 == MouseId(b, x, y) {
      MouseIdInjective(ev.button, ev.x, ev.y, b, x, y);
    }
    ReleaseOtherIdKeepsEntry(f, MouseId(b, x, y), x, y, b, e, j);
  }

  /** The identity under which a press is stored. */
  function PressId(e: Event): string
    requires e.input.Key? || e.input.Click?
  {
    if e.input.Key? then KeyboardId(e.input.key) else MouseId(e.input.button, e.input.x, e.input.y)
  }

  /** A press (lines 146-150, 203-207), on the state `f` the flushes leave:
      if its identity is already pending, the stale press is written first
      and dropped; the new press becomes the last pending entry and no
      identity is pending twice. Buffers are left as the flushes left them. */
  lemma PressCases(f: Compressor, e: Event)
    requires Valid(f)
    requires (e.input.Key? && e.input.action == Press) || (e.input.Click? && e.input.pressed)
    ensures var id := PressId(e); var d := Handle(f, e); var i := Find(f.pending, id);
      && d == f.(pending := d.pending, output := d.output)
      && (i < 0 ==> d.pending == f.pending + [(id, e)] && d.output == f.output)
      && (0 <= i ==> d.pending == RemoveAt(f.pending, i) + [(id, e)] && d.output == f.output + [Raw(f.pending[i].1)])
      && Find(d.pending, id) == |d.pending| - 1
      && DistinctIds(d.pending)
  {
    var id := PressId(e);
    assert Handle(f, e) == HandlePress(f, id, e);
    HandlePressSpec(f, id, e);
  }

  /** A keyboard event that is neither a press nor a release only runs the
      flushes: after them it falls through both branches and writes nothing
      of its own. */
  lemma OtherKeyActionOnlyFlushes(c: Compressor, e: Event)
    requires e.input.Key? && e.input.action.OtherAction?
    ensures Step(c, e) == PreFlush(c, e)
  {
  }

  /** No record of `r` summarises a buffer. */
  predicate NoSummary(r: seq<Record>)
  {
    r == [] || (!r[0].IsSummary() && NoSummary(r[1..]))
  }

  lemma {:induction false} NoSummaryMeans(r: seq<Record>)
    ensures NoSummary(r) <==> forall k :: 0 <= k < |r| ==> !r[k].IsSummary()
  {
    if r != [] {
      NoSummaryMeans(r[1..]);
      assert forall k :: 1 <= k < |r| ==> r[k] == r[1..][k - 1];
    }
  }

  /** `d` is `o` followed by records that summarise no buffer. */
  predicate AppendsPlain(o: seq<Record>, d: seq<Record>)
  {
    |o| <= |d| && d[..|o|] == o && NoSummary(d[|o|..])
  }

  lemma PlainAppend(o: seq<Record>, r: seq<Record>)
    requires NoSummary(r)
    ensures AppendsPlain(o, o + r)
  {
    assert (o + r)[..|o|] == o;
    assert (o + r)[|o|..] == r;
  }

  lemma PressWritesNoSummary(f: Compressor, id: string, e: Event)
    ensures AppendsPlain(f.output, HandlePress(f, id, e).output)
  {
    HandlePressShape(f, id, e);
    var i := Find(f.pending, id);
    if 0 <= i { PlainAppend(f.output, [Raw(f.pending[i].1)]); } else { PlainAppend(f.output, []); }
  }

  lemma PairedKeyReleaseWritesNoSummary(c1: Compressor, key: string, press: Event, e: Event)
    requires IsCharKey(key) && c1.typed != [] ==> press.ts - c1.lastTypedTs <= TypingMaxInterkeyDelta
    requires !IsCharKey(key) ==> c1.typed == []
    ensures AppendsPlain(c1.output, PairedKeyRelease(c1, key, press, e).output)
  {
    PairedKeyReleaseSpec(c1, key, press, e);
    var duration := e.ts - press.ts;
    if duration > KeyClickMaxDelta {
      PlainAppend(c1.output, [Raw(press), Raw(e)]);
    } else if IsCharKey(key) {
      PlainAppend(c1.output, []);
    } else {
      assert FlushTyped(c1) == c1;
      PlainAppend(c1.output, [KeyClick(press.ts, key, duration)]);
    }
  }

  lemma KeyReleaseWritesNoSummary(f: Compressor, id: string, key: string, e: Event)
    requires forall j :: 0 <= j < |f.pending| ==> f.pending[j].1.ts <= e.ts
    requires f.typed != [] ==> e.ts - f.lastTypedTs <= TypingMaxInterkeyDelta
    requires !IsCharKey(key) ==> f.typed == []
    ensures AppendsPlain(f.output, HandleKeyRelease(f, id, key, e).output)
  {
    var i := Find(f.pending, id);
    if i < 0 {
      PlainAppend(f.output, [Raw(e)]);
    } else {
      var press := f.pending[i].1;
      assert press.ts <= e.ts;
      var c1 := f.(pending := RemoveAt(f.pending, i));
      assert c1.typed == f.typed && c1.lastTypedTs == f.lastTypedTs && c1.output == f.output;
      PairedKeyReleaseWritesNoSummary(c1, key, press, e);
      assert HandleKeyRelease(f, id, key, e) == PairedKeyRelease(c1, key, press, e);
    }
  }

  lemma PairedMouseReleaseWritesNoSummary(c1: Compressor, x: int, y: int, b: string, press: Event, e: Event)
    ensures AppendsPlain(c1.output, PairedMouseRelease(c1, x, y, b, press, e).output)
  {
    var duration := e.ts - press.ts;
    if duration > MouseClickMaxDelta {
      PlainAppend(c1.output, [Raw(press), Raw(e)]);
    } else {
      PlainAppend(c1.output, [MouseClick(press.ts, x, y, b, duration)]);
    }
  }

  lemma MouseReleaseWritesNoSummary(f: Compressor, id: string, x: int, y: int, b: string, e: Event)
    ensures AppendsPlain(f.output, HandleMouseRelease(f, id, x, y, b, e).output)
  {
    var i := Find(f.pending, id);
    if i < 0 {
      PlainAppend(f.output, [Raw(e)]);
    } else {
      PairedMouseReleaseWritesNoSummary(f.(pending := RemoveAt(f.pending, i)), x, y, b, f.pending[i].1, e);
    }
  }

  /** The records the event itself writes hold no buffer summary once the
      input is in time order. */
  lemma HandleWritesNoSummary(f: Compressor, e: Event)
    requires Valid(f)
    requires !IsCharKeyEvent(e) ==> f.typed == []
    requires !e.input.Move? ==> f.moves == []
    requires !e.input.Scroll? ==> f.scrolls == []
    requires f.typed != [] ==> e.ts - f.lastTypedTs <= TypingMaxInterkeyDelta
    requires f.moves != [] ==> e.ts - f.lastMoveTs <= MouseSequenceMaxDelta
    requires f.scrolls != [] ==> e.ts - f.lastScrollTs <= MouseSequenceMaxDelta
    requires NotAfter(f, e.ts)
    ensures AppendsPlain(f.output, Handle(f, e).output)
  {
    match e.input
    case Key(action, key) =>
      match action {
        case Press => PressWritesNoSummary(f, KeyboardId(key), e);
        case Release => KeyReleaseWritesNoSummary(f, KeyboardId(key), key, e);
        case OtherAction(_) => PlainAppend(f.output, []);
      }
    case Click(x, y, button, pressed) =>
      if pressed {
        PressWritesNoSummary(f, MouseId(button, x, y), e);
      } else {
        MouseReleaseWritesNoSummary(f, MouseId(button, x, y), x, y, button, e);
      }
    case Move(x, y) =>
      assert HandleMove(f, e.ts, x, y).output == f.output;
      PlainAppend(f.output, []);
    case Scroll(x, y, dx, dy) =>
      assert HandleScroll(f, e.ts, x, y, dx, dy).output == f.output;
      PlainAppend(f.output, []);
    case OtherMouse(_, _, _) => PlainAppend(f.output, [Raw(e)]);
    case OtherDevice(_, _) => PlainAppend(f.output, [Raw(e)]);
  }

  /** At most one summary in front of plain records: what comes after `o`
      starts with that summary, if there is one, and holds no other. */
  lemma SummaryThenPlain(o: seq<Record>, s: seq<Record>, d: seq<Record>)
    requires |s| <= 1 && AppendsPlain(o + s, d)
    ensures |o| <= |d| && d[..|o|] == o
    ensures var w := d[|o|..];
      && (w != [] ==> NoSummary(w[1..]))
      && (w != [] && w[0].IsSummary() ==> s == [w[0]])
      && (s != [] ==> w != [] && w[0] == s[0])
  {
    assert d[..|o|] == (o + s)[..|o|] == o;
    var w := d[|o|..];
    if s == [] {
      assert w == d[|o + s|..];
    } else {
      assert d[|o|] == (o + s)[|o|] == s[0];
      assert w[1..] == d[|o + s|..];
    }
  }

  /** The output order of one call, from the two halves: the flushes write
      the open summary or nothing, the classification writes plain records. */
  lemma OrderFromHalves(c: Compressor, f: Compressor, e: Event, d: seq<Record>)
    requires Valid(c) && (f == c || f == Drained(c)) && |OpenSummaries(c)| <= 1
    requires !IsCharKeyEvent(e) ==> f.typed == []
    requires !e.input.Move? ==> f.moves == []
    requires !e.input.Scroll? ==> f.scrolls == []
    requires AppendsPlain(f.output, d)
    ensures |c.output| <= |d|
    ensures var w := d[|c.output|..];
      && d[..|c.output|] == c.output
      && (w != [] ==> NoSummary(w[1..]))
      && (w != [] && w[0].IsSummary() ==> OpenSummaries(c) == [w[0]])
      && (c.typed != [] && !IsCharKeyEvent(e) ==> w != [] && w[0] == TypedStringRecord(c.typed))
      && (c.moves != [] && !e.input.Move? ==> w != [] && w[0] == CondensedMoveRecord(c.moves))
      && (c.scrolls != [] && !e.input.Scroll? ==> w != [] && w[0] == CondensedScrollRecord(c.scrolls))
  {
    var s := if f == c then [] else OpenSummaries(c);
    assert f.output == c.output + s;
    SummaryThenPlain(c.output, s, d);
  }

  /** Output order of one `process_event` on time-ordered input. The call
      appends to the output; at most one buffer summary is written, it is the
      summary of the buffer open before the call, and it comes before every
      record the event itself produces. A `typed_string` run ended by any
      other event (a mouse click, say) is written first. */
  lemma StepOutputOrder(c: Compressor, e: Event)
    requires Valid(c) && NotAfter(c, e.ts)
    ensures |c.output| <= |Step(c, e).output|
    ensures var d := Step(c, e); var w := d.output[|c.output|..];
      && d.output[..|c.output|] == c.output
      && (w != [] ==> NoSummary(w[1..]))
      && (w != [] && w[0].IsSummary() ==> OpenSummaries(c) == [w[0]])
      && (c.typed != [] && !IsCharKeyEvent(e) ==> w != [] && w[0] == TypedStringRecord(c.typed))
      && (c.moves != [] && !e.input.Move? ==> w != [] && w[0] == CondensedMoveRecord(c.moves))
      && (c.scrolls != [] && !e.input.Scroll? ==> w != [] && w[0] == CondensedScrollRecord(c.scrolls))
  {
    PreFlushSpec(c, e);
    PreFlushNotAfter(c, e);
    FlushBuffersSpec(c);
    HandleOrder(c, PreFlush(c, e), e);
  }

  /** The order of one call, from the state `f` the flushes leave. */
  lemma HandleOrder(c: Compressor, f: Compressor, e: Event)
    requires Valid(c) && (f == c || f == Drained(c)) && |OpenSummaries(c)| <= 1 && Valid(f)
    requires !IsCharKeyEvent(e) ==> f.typed == []
    requires !e.input.Move? ==> f.moves == []
    requires !e.input.Scroll? ==> f.scrolls == []
    requires f.typed != [] ==> e.ts - f.lastTypedTs <= TypingMaxInterkeyDelta
    requires f.moves != [] ==> e.ts - f.lastMoveTs <= MouseSequenceMaxDelta
    requires f.scrolls != [] ==> e.ts - f.lastScrollTs <= MouseSequenceMaxDelta
    requires NotAfter(f, e.ts)
    ensures |c.output| <= |Handle(f, e).output|
    ensures var d := Handle(f, e); var w := d.output[|c.output|..];
      && d.output[..|c.output|] == c.output
      && (w != [] ==> NoSummary(w[1..]))
      && (w != [] && w[0].IsSummary() ==> OpenSummaries(c) == [w[0]])
      && (c.typed != [] && !IsCharKeyEvent(e) ==> w != [] && w[0] == TypedStringRecord(c.typed))
      && (c.moves != [] && !e.input.Move? ==> w != [] && w[0] == CondensedMoveRecord(c.moves))
      && (c.scrolls != [] && !e.input.Scroll? ==> w != [] && w[0] == CondensedScrollRecord(c.scrolls))
  {
    HandleWritesNoSummary(f, e);
    OrderFromHalves(c, f, e, Handle(f, e).output);
  }

  /** `finalize`: the buffers are flushed typed, then move, then scroll; then
      every pending press is written in insertion order. Everything ends
      empty. */
  lemma FinalizeSpec(c: Compressor)
    requires Valid(c)
    ensures var d := Finalize(c);
      && d.output == c.output + OpenSummaries(c) + PendingRecords(c.pending)
      && |OpenSummaries(c)| <= 1
      && d == Init.(output := d.output)
      && Valid(d)
  {
    FlushBuffersSpec(c);
  }
}
