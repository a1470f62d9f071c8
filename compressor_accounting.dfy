/** Nothing is lost: every keyboard press and release and every mouse click,
    move and scroll an `EventCompressor` reads ends up in exactly one record
    once `finalize` has run (gum/observers/keyboard_compressor.py:123-264).
    The statement counts events: a record stands for the number of input
    events it replaces, the state holds the events it has not written yet,
    and each `process_event` moves events from its input to the state and
    from the state to the output without creating or dropping any. */
module CompressorAccounting {
  import opened CompressorTypes
  import opened PendingPresses
  import opened CompressorSpec
  import opened CompressorInvariants
  import opened CompressorRuns

  /** The events an input stands for: a keyboard event that is neither a
      press nor a release produces no record (it falls through both branches
      of lines 141-193), every other event is one event. */
  function Weight(e: Event): nat
  {
    if e.input.Key? && e.input.action.OtherAction? then 0 else 1
  }

  function TotalWeight(es: seq<Event>): nat
  {
    if es == [] then 0 else TotalWeight(es[..|es| - 1]) + Weight(es[|es| - 1])
  }

  /** The events held by the state: a pending press is one, a typed character
      is a press and its release, a buffered move or scroll is one. */
  function Held(c: Compressor): nat
  {
    |c.pending| + 2 * |c.typed| + |c.moves| + |c.scrolls|
  }

  /** The events a written record stands for. A `typed_string` does not say
      how many characters it joins (`num_chars` is the length of the text), so
      the size `typed` of the buffer it summarises is passed in. */
  function RecordWeight(r: Record, typed: nat): nat
  {
    match r
    case Raw(_) => 1
    case KeyClick(_, _, _) => 2
    case MouseClick(_, _, _, _, _) => 2
    case TypedString(_, _, _, _) => 2 * typed
    case CondensedMove(_, _, _, _, _, _, n) => n
    case CondensedScroll(_, _, _, _, n) => n
  }

  function RecordsWeight(rs: seq<Record>, typed: nat): nat
  {
    if rs == [] then 0 else RecordsWeight(rs[..|rs| - 1], typed) + RecordWeight(rs[|rs| - 1], typed)
  }

  lemma {:induction false} RecordsWeightAppend(a: seq<Record>, b: seq<Record>, typed: nat)
    ensures RecordsWeight(a + b, typed) == RecordsWeight(a, typed) + RecordsWeight(b, typed)
    decreases |b|
  {
    if b != [] {
      assert (a + b)[..|a + b| - 1] == a + b[..|b| - 1];
      RecordsWeightAppend(a, b[..|b| - 1], typed);
    } else {
      assert a + b == a;
    }
  }

  lemma RecordsWeightPair(a: Record, b: Record, typed: nat)
    ensures RecordsWeight([a, b], typed) == RecordWeight(a, typed) + RecordWeight(b, typed)
  {
    assert [a, b][..1] == [a];
    assert [a][..0] == [];
    assert RecordsWeight([a], typed) == RecordWeight(a, typed);
  }

  /** Going from `c` to `d` appends records and moves `k` input events
      into the state or the output, with a `typed_string` counted as
      `typed` characters. */
  predicate Conserves(c: Compressor, d: Compressor, typed: nat, k: nat)
  {
    && |c.output| <= |d.output| && d.output[..|c.output|] == c.output
    && Held(d) + RecordsWeight(d.output[|c.output|..], typed) == Held(c) + k
  }

  lemma ConservesByAppend(c: Compressor, d: Compressor, w: seq<Record>, typed: nat, k: nat)
    requires d.output == c.output + w
    requires Held(d) + RecordsWeight(w, typed) == Held(c) + k
    ensures Conserves(c, d, typed, k)
  {
    assert d.output[..|c.output|] == c.output;
    assert d.output[|c.output|..] == w;
  }

  lemma ConservesTrans(a: Compressor, b: Compressor, c: Compressor, typed: nat, k1: nat, k2: nat)
    requires Conserves(a, b, typed, k1) && Conserves(b, c, typed, k2)
    ensures Conserves(a, c, typed, k1 + k2)
  {
    var u := b.output[|a.output|..];
    var v := c.output[|b.output|..];
    assert b.output == a.output + u;
    assert c.output == b.output + v;
    assert c.output == a.output + (u + v);
    RecordsWeightAppend(u, v, typed);
    ConservesByAppend(a, c, u + v, typed, k1 + k2);
  }

  // ------------------------------------------------------------ the flushes

  lemma FlushTypedConserves(c: Compressor, typed: nat)
    requires c.typed != [] ==> typed == |c.typed|
    ensures Conserves(c, FlushTyped(c), typed, 0)
  {
    if c.typed == [] {
      ConservesByAppend(c, c, [], typed, 0);
    } else {
      ConservesByAppend(c, FlushTyped(c), [TypedStringRecord(c.typed)], typed, 0);
    }
  }

  lemma FlushMovesConserves(c: Compressor, typed: nat)
    ensures Conserves(c, FlushMoves(c), typed, 0)
  {
    if c.moves == [] {
      ConservesByAppend(c, c, [], typed, 0);
    } else {
      ConservesByAppend(c, FlushMoves(c), [CondensedMoveRecord(c.moves)], typed, 0);
    }
  }

  lemma FlushScrollsConserves(c: Compressor, typed: nat)
    ensures Conserves(c, FlushScrolls(c), typed, 0)
  {
    if c.scrolls == [] {
      ConservesByAppend(c, c, [], typed, 0);
    } else {
      ConservesByAppend(c, FlushScrolls(c), [CondensedScrollRecord(c.scrolls)], typed, 0);
    }
  }

  /** Flushing every buffer writes exactly the events they held. */
  lemma DrainedConserves(c: Compressor)
    requires OneBufferOpen(c)
    ensures Conserves(c, Drained(c), |c.typed|, 0)
  {
    OpenSummariesWeight(c);
    ConservesByAppend(c, Drained(c), OpenSummaries(c), |c.typed|, 0);
  }

  /** The flushes before the classification (lines 130-138) write exactly
      the events they take out of the buffers. */
  lemma PreFlushConserves(c: Compressor, e: Event)
    requires Valid(c)
    ensures Conserves(c, PreFlush(c, e), |c.typed|, 0)
  {
    PreFlushSpec(c, e);
    if PreFlush(c, e) == c {
      ConservesByAppend(c, c, [], |c.typed|, 0);
    } else {
      DrainedConserves(c);
    }
  }

  // ------------------------------------------------------- the classification

  lemma PressConserves(f: Compressor, id: string, e: Event, typed: nat)
    requires DistinctIds(f.pending)
    ensures Conserves(f, HandlePress(f, id, e), typed, 1)
  {
    HandlePressShape(f, id, e);
    var i := Find(f.pending, id);
    var d := HandlePress(f, id, e);
    if 0 <= i {
      RemoveAtKeepsDistinct(f.pending, i);
      AssignSpec(RemoveAt(f.pending, i), id, e);
      ConservesByAppend(f, d, [Raw(f.pending[i].1)], typed, 1);
    } else {
      AssignSpec(f.pending, id, e);
      ConservesByAppend(f, d, [], typed, 1);
    }
  }

  lemma AppendTypedConserves(c1: Compressor, key: string, pressTs: int, duration: int, typed: nat)
    requires c1.typed != [] ==> typed == |c1.typed|
    ensures Conserves(c1, AppendTyped(c1, key, pressTs, duration), typed, 2)
  {
    var d := AppendTyped(c1, key, pressTs, duration);
    if c1.typed == [] || pressTs - c1.lastTypedTs <= TypingMaxInterkeyDelta {
      ConservesByAppend(c1, d, [], typed, 2);
    } else {
      FlushTypedConserves(c1, typed);
      var c2 := FlushTyped(c1);
      ConservesByAppend(c2, d, [], typed, 2);
      ConservesTrans(c1, c2, d, typed, 0, 2);
    }
  }

  /** A paired key release moves the release into the state or the output
      and takes the press `press` along from the pending map. */
  lemma PairedKeyReleaseConserves(c1: Compressor, key: string, press: Event, e: Event, typed: nat)
    requires c1.typed != [] ==> typed == |c1.typed|
    ensures Conserves(c1, PairedKeyRelease(c1, key, press, e), typed, 2)
  {
    var duration := e.ts - press.ts;
    var d := PairedKeyRelease(c1, key, press, e);
    if duration <= KeyClickMaxDelta {
      if IsCharKey(key) {
        AppendTypedConserves(c1, key, press.ts, duration, typed);
      } else {
        FlushTypedConserves(c1, typed);
        var c2 := FlushTyped(c1);
        ConservesByAppend(c2, d, [KeyClick(press.ts, key, duration)], typed, 2);
        ConservesTrans(c1, c2, d, typed, 0, 2);
      }
    } else {
      RecordsWeightPair(Raw(press), Raw(e), typed);
      ConservesByAppend(c1, d, [Raw(press), Raw(e)], typed, 2);
    }
  }

  /** Taking a press out of the pending map and adding its release to the
      state or the output takes in the one event of the release. */
  lemma PoppedConserves(f: Compressor, i: int, d: Compressor, typed: nat)
    requires 0 <= i < |f.pending|
    requires Conserves(f.(pending := RemoveAt(f.pending, i)), d, typed, 2)
    ensures Conserves(f, d, typed, 1)
  {
  }

  lemma KeyReleaseConserves(f: Compressor, id: string, key: string, e: Event, typed: nat)
    requires f.typed != [] ==> typed == |f.typed|
    ensures Conserves(f, HandleKeyRelease(f, id, key, e), typed, 1)
  {
    var i := Find(f.pending, id);
    var d := HandleKeyRelease(f, id, key, e);
    if i < 0 {
      ConservesByAppend(f, d, [Raw(e)], typed, 1);
    } else {
      var c1 := f.(pending := RemoveAt(f.pending, i));
      PairedKeyReleaseConserves(c1, key, f.pending[i].1, e, typed);
      PoppedConserves(f, i, d, typed);
    }
  }

  lemma PairedMouseReleaseConserves(c1: Compressor, x: int, y: int, b: string, press: Event, e: Event, typed: nat)
    ensures Conserves(c1, PairedMouseRelease(c1, x, y, b, press, e), typed, 2)
  {
    var d := PairedMouseRelease(c1, x, y, b, press, e);
    var duration := e.ts - press.ts;
    if duration <= MouseClickMaxDelta {
      ConservesByAppend(c1, d, [MouseClick(press.ts, x, y, b, duration)], typed, 2);
    } else {
      RecordsWeightPair(Raw(press), Raw(e), typed);
      ConservesByAppend(c1, d, [Raw(press), Raw(e)], typed, 2);
    }
  }

  lemma MouseReleaseConserves(f: Compressor, id: string, x: int, y: int, b: string, e: Event, typed: nat)
    ensures Conserves(f, HandleMouseRelease(f, id, x, y, b, e), typed, 1)
  {
    var i := Find(f.pending, id);
    var d := HandleMouseRelease(f, id, x, y, b, e);
    if i < 0 {
      ConservesByAppend(f, d, [Raw(e)], typed, 1);
    } else {
      var c1 := f.(pending := RemoveAt(f.pending, i));
      PairedMouseReleaseConserves(c1, x, y, b, f.pending[i].1, e, typed);
      PoppedConserves(f, i, d, typed);
    }
  }

  lemma MoveConserves(f: Compressor, ts: int, x: int, y: int, typed: nat)
    ensures Conserves(f, HandleMove(f, ts, x, y), typed, 1)
  {
    var d := HandleMove(f, ts, x, y);
    if f.moves == [] || ts - f.lastMoveTs <= MouseSequenceMaxDelta {
      ConservesByAppend(f, d, [], typed, 1);
    } else {
      FlushMovesConserves(f, typed);
      ConservesByAppend(FlushMoves(f), d, [], typed, 1);
      ConservesTrans(f, FlushMoves(f), d, typed, 0, 1);
    }
  }

  lemma ScrollConserves(f: Compressor, ts: int, x: int, y: int, dx: int, dy: int, typed: nat)
    ensures Conserves(f, HandleScroll(f, ts, x, y, dx, dy), typed, 1)
  {
    var d := HandleScroll(f, ts, x, y, dx, dy);
    if f.scrolls == [] || ts - f.lastScrollTs <= MouseSequenceMaxDelta {
      ConservesByAppend(f, d, [], typed, 1);
    } else {
      FlushScrollsConserves(f, typed);
      ConservesByAppend(FlushScrolls(f), d, [], typed, 1);
      ConservesTrans(f, FlushScrolls(f), d, typed, 0, 1);
    }
  }

  lemma KeyConserves(f: Compressor, e: Event, typed: nat)
    requires e.input.Key? && DistinctIds(f.pending)
    requires f.typed != [] ==> typed == |f.typed|
    ensures Conserves(f, Handle(f, e), typed, Weight(e))
  {
    var key := e.input.key;
    match e.input.action
    case Press => PressConserves(f, KeyboardId(key), e, typed);
    case Release => KeyReleaseConserves(f, KeyboardId(key), key, e, typed);
    case OtherAction(_) => ConservesByAppend(f, f, [], typed, 0);
  }

  lemma ClickConserves(f: Compressor, e: Event, typed: nat)
    requires e.input.Click? && DistinctIds(f.pending)
    ensures Conserves(f, Handle(f, e), typed, Weight(e))
  {
    var Click(x, y, button, pressed) := e.input;
    if pressed {
      PressConserves(f, MouseId(button, x, y), e, typed);
    } else {
      MouseReleaseConserves(f, MouseId(button, x, y), x, y, button, e, typed);
    }
  }

  /** The classification (lines 141-254) moves the event's weight into the
      state or the output. A `typed_string` it writes summarises the buffer
      of `f`, so `typed` is that buffer's size whenever it is open. */
  lemma HandleConserves(f: Compressor, e: Event, typed: nat)
    requires DistinctIds(f.pending)
    requires f.typed != [] ==> typed == |f.typed|
    ensures Conserves(f, Handle(f, e), typed, Weight(e))
  {
    match e.input
    case Key(_, _) => KeyConserves(f, e, typed);
    case Click(_, _, _, _) => ClickConserves(f, e, typed);
    case Move(x, y) => MoveConserves(f, e.ts, x, y, typed);
    case Scroll(x, y, dx, dy) => ScrollConserves(f, e.ts, x, y, dx, dy, typed);
    case OtherMouse(_, _, _) => ConservesByAppend(f, Handle(f, e), [Raw(e)], typed, 1);
    case OtherDevice(_, _) => ConservesByAppend(f, Handle(f, e), [Raw(e)], typed, 1);
  }

  /** One `process_event` call: the event's weight goes into the state or the
      output, and every event the call writes out was held before it. */
  lemma StepConserves(c: Compressor, e: Event)
    requires Valid(c)
    ensures Conserves(c, Step(c, e), |c.typed|, Weight(e))
  {
    PreFlushSpec(c, e);
    PreFlushConserves(c, e);
    var f := PreFlush(c, e);
    HandleConserves(f, e, |c.typed|);
    ConservesTrans(c, f, Handle(f, e), |c.typed|, 0, Weight(e));
  }

  // ------------------------------------------------------------ whole runs

  /** The events the records `d` added to those of `c` stand for. */
  function Emitted(c: Compressor, d: Compressor, typed: nat): nat
  {
    if |c.output| <= |d.output| then RecordsWeight(d.output[|c.output|..], typed) else 0
  }

  /** The events the records of a run stand for, each `typed_string` counted
      with the buffer it summarised. */
  function RunEmitted(c: Compressor, es: seq<Event>): nat
    decreases |es|
  {
    if es == [] then 0
    else
      var d := Step(c, es[0]);
      Emitted(c, d, |c.typed|) + RunEmitted(d, es[1..])
  }

  lemma {:induction false} TotalWeightCons(e: Event, es: seq<Event>)
    ensures TotalWeight([e] + es) == Weight(e) + TotalWeight(es)
    decreases |es|
  {
    if es != [] {
      assert ([e] + es)[..|[e] + es| - 1] == [e] + es[..|es| - 1];
      TotalWeightCons(e, es[..|es| - 1]);
    } else {
      assert [e] + es == [e];
      assert [e][..0] == [];
    }
  }

  /** A run of `process_event` calls: what the state holds at the end plus
      what was written equals what it held at the start plus the input. */
  lemma {:induction false} RunConserves(c: Compressor, es: seq<Event>)
    requires Valid(c)
    ensures Held(Run(c, es)) + RunEmitted(c, es) == Held(c) + TotalWeight(es)
    decreases |es|
  {
    if es != [] {
      StepConserves(c, es[0]);
      StepValid(c, es[0]);
      RunConserves(Step(c, es[0]), es[1..]);
      assert es == [es[0]] + es[1..];
      TotalWeightCons(es[0], es[1..]);
    }
  }

  /** The summaries of the open buffers stand for the events they hold. */
  lemma OpenSummariesWeight(c: Compressor)
    requires OneBufferOpen(c)
    ensures RecordsWeight(OpenSummaries(c), |c.typed|) == 2 * |c.typed| + |c.moves| + |c.scrolls|
  {
    if c.typed != [] {
      assert OpenSummaries(c) == [TypedStringRecord(c.typed)];
    } else if c.moves != [] {
      assert OpenSummaries(c) == [CondensedMoveRecord(c.moves)];
    } else if c.scrolls != [] {
      assert OpenSummaries(c) == [CondensedScrollRecord(c.scrolls)];
    } else {
      assert OpenSummaries(c) == [];
    }
  }

  /** `finalize` writes out everything the state holds and leaves nothing. */
  lemma FinalizeConserves(c: Compressor)
    requires Valid(c)
    ensures Conserves(c, Finalize(c), |c.typed|, 0)
    ensures Held(Finalize(c)) == 0
  {
    FinalizeSpec(c);
    OpenSummariesWeight(c);
    DrainConserves(c, Finalize(c), OpenSummaries(c), PendingRecords(c.pending));
  }

  lemma DrainConserves(c: Compressor, d: Compressor, s: seq<Record>, pr: seq<Record>)
    requires d.output == c.output + s + pr
    requires d == Init.(output := d.output)
    requires pr == PendingRecords(c.pending)
    requires RecordsWeight(s, |c.typed|) == 2 * |c.typed| + |c.moves| + |c.scrolls|
    ensures Conserves(c, d, |c.typed|, 0)
    ensures Held(d) == 0
  {
    assert c.output + s + pr == c.output + (s + pr);
    RecordsWeightAppend(s, pr, |c.typed|);
    PendingRecordsWeight(c.pending, |c.typed|);
    ConservesByAppend(c, d, s + pr, |c.typed|, 0);
  }

  lemma {:induction false} PendingRecordsWeight(p: Pending, typed: nat)
    ensures RecordsWeight(PendingRecords(p), typed) == |p|
    decreases |p|
  {
    if p != [] {
      var q := p[..|p| - 1];
      assert PendingRecords(p)[..|p| - 1] == PendingRecords(q);
      PendingRecordsWeight(q, typed);
    }
  }

  lemma InitValid()
    ensures Valid(Init) && Held(Init) == 0
  {
  }

  /** Every event fed to a fresh compressor and then `finalize` is accounted
      for, counted by the input events each record replaces: the total is
      the number of input events that are not keyboard events of another
      type. */
  lemma EveryEventAccounted(es: seq<Event>)
    ensures var c := Run(Init, es);
      RunEmitted(Init, es) + Emitted(c, Finalize(c), |c.typed|) == TotalWeight(es)
    ensures Held(Finalize(Run(Init, es))) == 0
  {
    InitValid();
    RunConserves(Init, es);
    RunValid(Init, es);
    FinalizeConserves(Run(Init, es));
  }

  /** An event weighs nothing exactly when it is a keyboard event that is
      neither a press nor a release. */
  lemma WeightZeroIff(e: Event)
    ensures Weight(e) == 0 <==> e.input.Key? && e.input.action.OtherAction?
    ensures Weight(e) <= 1
  {
  }

  /** The input weight is the number of events minus the keyboard events of
      another type. */
  lemma {:induction false} TotalWeightCounts(es: seq<Event>)
    ensures TotalWeight(es) == |es| - |OtherKeyEvents(es)|
    decreases |es|
  {
    if es != [] {
      TotalWeightCounts(es[..|es| - 1]);
      assert |OtherKeyEvents(es[..|es| - 1])| <= |es| - 1 by {
        OtherKeyEventsBound(es[..|es| - 1]);
      }
    }
  }

  /** The keyboard events whose type is neither press nor release. */
  function OtherKeyEvents(es: seq<Event>): (r: seq<Event>)
  {
    if es == [] then []
    else
      var last := es[|es| - 1];
      OtherKeyEvents(es[..|es| - 1]) + (if last.input.Key? && last.input.action.OtherAction? then [last] else [])
  }

  lemma {:induction false} OtherKeyEventsBound(es: seq<Event>)
    ensures |OtherKeyEvents(es)| <= |es|
    decreases |es|
  {
    if es != [] {
      OtherKeyEventsBound(es[..|es| - 1]);
    }
  }
}
