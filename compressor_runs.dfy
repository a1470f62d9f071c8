/** The compressor over a whole input stream, the loop at
    gum/observers/keyboard_compressor.py:277-280: the invariant holds after
    every event, on time-ordered input no stored time lies in the future
    (so the "too far" branches are dead and each call's flushes come first),
    and the flush records are what the buffers held. */
module CompressorRuns {
  import opened CompressorTypes
  import opened PendingPresses
  import opened CompressorSpec
  import opened CompressorInvariants

  /** Feeding one more event is one more `process_event`. */
  lemma {:induction false} RunAppend(c: Compressor, es: seq<Event>, e: Event)
    ensures Run(c, es + [e]) == Step(Run(c, es), e)
    decreases |es|
  {
    if es == [] {
      assert [] + [e] == [e];
      assert [e][1..] == [];
    } else {
      assert (es + [e])[0] == es[0];
      assert (es + [e])[1..] == es[1..] + [e];
      RunAppend(Step(c, es[0]), es[1..], e);
    }
  }

  /** The invariant holds after every event of any stream. */
  lemma {:induction false} RunValid(c: Compressor, es: seq<Event>)
    requires Valid(c)
    ensures Valid(Run(c, es))
    decreases |es|
  {
    if es != [] {
      StepKeepsValid(c, es[0]);
      RunValid(Step(c, es[0]), es[1..]);
    }
  }

  // ------------------------------------------------------ stored times

  /** Every pending press happened at `t` or before. */
  predicate PendingNotAfter(p: Pending, t: int)
  {
    forall i :: 0 <= i < |p| ==> p[i].1.ts <= t
  }

  lemma NotAfterLater(c: Compressor, t: int, u: int)
    requires NotAfter(c, t) && t <= u
    ensures NotAfter(c, u)
  {
  }

  lemma RemoveAtNotAfter(p: Pending, i: int, t: int)
    requires PendingNotAfter(p, t) && 0 <= i < |p|
    ensures PendingNotAfter(RemoveAt(p, i), t)
  {
    var q := RemoveAt(p, i);
    forall j | 0 <= j < |q| ensures q[j].1.ts <= t {
      if j < i { assert q[j] == p[j]; } else { assert q[j] == p[j + 1]; }
    }
  }

  lemma AssignNotAfter(p: Pending, id: string, ev: Event, t: int)
    requires PendingNotAfter(p, t) && ev.ts <= t
    ensures PendingNotAfter(Assign(p, id, ev), t)
  {
  }

  lemma PressNotAfter(f: Compressor, id: string, e: Event)
    requires NotAfter(f, e.ts)
    ensures NotAfter(HandlePress(f, id, e), e.ts)
  {
    HandlePressShape(f, id, e);
    var i := Find(f.pending, id);
    if 0 <= i {
      RemoveAtNotAfter(f.pending, i, e.ts);
      AssignNotAfter(RemoveAt(f.pending, i), id, e, e.ts);
    } else {
      AssignNotAfter(f.pending, id, e, e.ts);
    }
  }

  lemma PairedKeyReleaseNotAfter(c1: Compressor, key: string, press: Event, e: Event)
    requires NotAfter(c1, e.ts) && press.ts <= e.ts
    ensures NotAfter(PairedKeyRelease(c1, key, press, e), e.ts)
  {
    var duration := e.ts - press.ts;
    if duration <= KeyClickMaxDelta && IsCharKey(key) {
      var d := AppendTyped(c1, key, press.ts, duration);
      assert d.lastTypedTs == press.ts;
    }
  }

  lemma KeyReleaseNotAfter(f: Compressor, id: string, key: string, e: Event)
    requires NotAfter(f, e.ts)
    ensures NotAfter(HandleKeyRelease(f, id, key, e), e.ts)
  {
    var i := Find(f.pending, id);
    if 0 <= i {
      RemoveAtNotAfter(f.pending, i, e.ts);
      PairedKeyReleaseNotAfter(f.(pending := RemoveAt(f.pending, i)), key, f.pending[i].1, e);
    }
  }

  lemma MouseReleaseNotAfter(f: Compressor, id: string, x: int, y: int, b: string, e: Event)
    requires NotAfter(f, e.ts)
    ensures NotAfter(HandleMouseRelease(f, id, x, y, b, e), e.ts)
  {
    var i := Find(f.pending, id);
    if 0 <= i {
      RemoveAtNotAfter(f.pending, i, e.ts);
    }
  }

  lemma HandleNotAfter(f: Compressor, e: Event)
    requires NotAfter(f, e.ts)
    ensures NotAfter(Handle(f, e), e.ts)
  {
    match e.input
    case Key(action, key) =>
      match action {
        case Press => PressNotAfter(f, KeyboardId(key), e);
        case Release => KeyReleaseNotAfter(f, KeyboardId(key), key, e);
        case OtherAction(_) =>
      }
    case Click(x, y, button, pressed) =>
      if pressed {
        PressNotAfter(f, MouseId(button, x, y), e);
      } else {
        MouseReleaseNotAfter(f, MouseId(button, x, y), x, y, button, e);
      }
    case Move(x, y) =>
    case Scroll(x, y, dx, dy) =>
    case OtherMouse(_, _, _) =>
    case OtherDevice(_, _) =>
  }

  /** After an event nothing stored is later than that event. */
  lemma StepNotAfter(c: Compressor, e: Event)
    requires Valid(c) && NotAfter(c, e.ts)
    ensures NotAfter(Step(c, e), e.ts)
  {
    PreFlushNotAfter(c, e);
    HandleNotAfter(PreFlush(c, e), e);
  }

  /** One event keeps the invariant and, on time-ordered input, leaves
      nothing later than the next event. */
  lemma StepInOrder(c: Compressor, e: Event, t: int)
    requires Valid(c) && NotAfter(c, e.ts) && e.ts <= t
    ensures Valid(Step(c, e)) && NotAfter(Step(c, e), t)
  {
    StepValid(c, e);
    StepNotAfter(c, e);
    NotAfterLater(Step(c, e), e.ts, t);
  }

  /** Before the `j`-th event of a time-ordered stream the compressor is
      valid and holds nothing later than that event. */
  lemma {:induction false} RunInOrder(c: Compressor, es: seq<Event>, j: int)
    requires Valid(c) && NonDecreasing(es) && 0 <= j < |es|
    requires NotAfter(c, es[0].ts)
    ensures Valid(Run(c, es[..j])) && NotAfter(Run(c, es[..j]), es[j].ts)
    decreases j
  {
    if j == 0 {
      assert es[..0] == [];
    } else {
      RunInOrder(c, es, j - 1);
      assert es[..j] == es[..j - 1] + [es[j - 1]];
      RunAppend(c, es[..j - 1], es[j - 1]);
      StepInOrder(Run(c, es[..j - 1]), es[j - 1], es[j].ts);
    }
  }

  /** On a time-ordered stream fed to a fresh compressor, every call writes
      the summary of a buffer its event ends before anything of its own, and
      the "too far" branches at lines 178-185, 231-233 and 245-247 are never
      taken. */
  lemma InOrderStream(es: seq<Event>, j: int)
    requires NonDecreasing(es) && 0 <= j < |es|
    ensures var c := Run(Init, es[..j]); var e := es[j]; var f := PreFlush(c, e);
      && Valid(c) && NotAfter(c, e.ts)
      && (e.input.Move? ==> f.moves == [] || e.ts - f.lastMoveTs <= MouseSequenceMaxDelta)
      && (e.input.Scroll? ==> f.scrolls == [] || e.ts - f.lastScrollTs <= MouseSequenceMaxDelta)
      && (e.input.Key? && e.input.action == Release ==>
            var i := Find(f.pending, KeyboardId(e.input.key));
            0 <= i ==> f.typed == [] || f.pending[i].1.ts - f.lastTypedTs <= TypingMaxInterkeyDelta)
  {
    RunInOrder(Init, es, j);
    var c := Run(Init, es[..j]);
    PreFlushNotAfter(c, es[j]);
    TooFarBranchesUnreachable(c, es[j]);
  }

  // ------------------------------------------------------ flush records

  /** The joined text of two buffers is the join of each. */
  lemma {:induction false} JoinCharsAppend(a: seq<TypedChar>, b: seq<TypedChar>)
    ensures JoinChars(a + b) == JoinChars(a) + JoinChars(b)
    decreases |b|
  {
    if b == [] {
      assert a + b == a;
    } else {
      assert (a + b)[..|a + b| - 1] == a + b[..|b| - 1];
      JoinCharsAppend(a, b[..|b| - 1]);
    }
  }

  lemma {:induction false} SumAppend(a: seq<ScrollSample>, b: seq<ScrollSample>)
    ensures SumDx(a + b) == SumDx(a) + SumDx(b)
    ensures SumDy(a + b) == SumDy(a) + SumDy(b)
    decreases |b|
  {
    if b == [] {
      assert a + b == a;
    } else {
      assert (a + b)[..|a + b| - 1] == a + b[..|b| - 1];
      SumAppend(a, b[..|b| - 1]);
    }
  }

  /** A character appended to a run extends the text the run will be written
      as; that text is the characters in the order their keys were
      released. */
  lemma JoinCharsSnoc(buf: seq<TypedChar>, item: TypedChar)
    ensures JoinChars(buf + [item]) == JoinChars(buf) + item.ch
  {
    assert (buf + [item])[..|buf|] == buf;
  }

  /** `_flush_typed_char_buffer` (lines 42-63): nothing on an empty buffer;
      otherwise one `typed_string` from the first press to the end of the last
      click, its text the characters joined in order, then an empty buffer
      with its clock at 0. */
  lemma FlushTypedSpec(c: Compressor)
    requires TypedOk(c)
    ensures c.typed == [] ==> FlushTyped(c) == c
    ensures c.typed != [] ==>
      var d := FlushTyped(c); var first, last := c.typed[0], c.typed[|c.typed| - 1];
      && d == c.(typed := [], lastTypedTs := 0, output := d.output)
      && |d.output| == |c.output| + 1 && d.output[..|c.output|] == c.output
      && var r := d.output[|c.output|];
      && r.TypedString? && r.ts == first.ts && r.text == JoinChars(c.typed)
      && r.duration == last.ts + last.duration - first.ts
      && r.numChars == |r.text| >= |c.typed|
  {
    if c.typed != [] {
      JoinCharsLength(c.typed);
      var d := FlushTyped(c);
      assert d.output[..|c.output|] == c.output;
    }
  }

  /** `_flush_mouse_move_buffer` (lines 65-84). */
  lemma FlushMovesSpec(c: Compressor)
    ensures c.moves == [] ==> FlushMoves(c) == c
    ensures c.moves != [] ==>
      var d := FlushMoves(c); var first, last := c.moves[0], c.moves[|c.moves| - 1];
      && d == c.(moves := [], lastMoveTs := 0, output := d.output)
      && d.output == c.output + [CondensedMove(first.ts, first.x, first.y, last.x, last.y, last.ts - first.ts, |c.moves|)]
  {
  }

  /** `_flush_mouse_scroll_buffer` (lines 86-112): the totals are the sums of
      the buffered steps. */
  lemma FlushScrollsSpec(c: Compressor)
    ensures c.scrolls == [] ==> FlushScrolls(c) == c
    ensures c.scrolls != [] ==>
      var d := FlushScrolls(c); var first, last := c.scrolls[0], c.scrolls[|c.scrolls| - 1];
      && d == c.(scrolls := [], lastScrollTs := 0, output := d.output)
      && d.output == c.output + [CondensedScroll(first.ts, SumDx(c.scrolls), SumDy(c.scrolls), last.ts - first.ts, |c.scrolls|)]
  {
  }

  /** A scroll run written in pieces adds up to the same totals. */
  lemma ScrollTotalsSplit(a: seq<ScrollSample>, b: seq<ScrollSample>)
    requires a != [] && b != []
    ensures var r := CondensedScrollRecord(a + b); var ra := CondensedScrollRecord(a); var rb := CondensedScrollRecord(b);
      && r.totalDx == ra.totalDx + rb.totalDx && r.totalDy == ra.totalDy + rb.totalDy
      && r.numScrolls == ra.numScrolls + rb.numScrolls
  {
    SumAppend(a, b);
  }

  // ------------------------------------------------------ whole runs

  predicate AllMoves(es: seq<Event>)
  {
    forall k :: 0 <= k < |es| ==> es[k].input.Move?
  }

  predicate AllScrolls(es: seq<Event>)
  {
    forall k :: 0 <= k < |es| ==> es[k].input.Scroll?
  }

  /** Consecutive events at most `MOUSE_SEQUENCE_MAX_DELTA` apart. */
  predicate CloseTogether(es: seq<Event>)
  {
    forall k :: 0 < k < |es| ==> es[k].ts - es[k - 1].ts <= MouseSequenceMaxDelta
  }

  /** The move samples a stream of moves is buffered as, in stream order. */
  function MoveSamples(es: seq<Event>): (r: seq<MoveSample>)
    requires AllMoves(es)
    ensures |r| == |es|
    ensures es != [] ==> r[0] == MoveSample(es[0].ts, es[0].input.x, es[0].input.y)
    ensures es != [] ==> var e := es[|es| - 1]; r[|r| - 1] == MoveSample(e.ts, e.input.x, e.input.y)
    decreases |es|
  {
    if es == [] then [] else [MoveSample(es[0].ts, es[0].input.x, es[0].input.y)] + MoveSamples(es[1..])
  }

  /** Sample `k` is the position and time of move `k`. */
  lemma {:induction false} MoveSamplesAt(es: seq<Event>, k: int)
    requires AllMoves(es) && 0 <= k < |es|
    ensures MoveSamples(es)[k] == MoveSample(es[k].ts, es[k].input.x, es[k].input.y)
    decreases k
  {
    if k > 0 {
      MoveSamplesAt(es[1..], k - 1);
    }
  }

  /** The scroll samples a stream of scrolls is buffered as, in stream order. */
  function ScrollSamples(es: seq<Event>): (r: seq<ScrollSample>)
    requires AllScrolls(es)
    ensures |r| == |es|
    ensures es != [] ==> var e := es[0]; r[0] == ScrollSample(e.ts, e.input.x, e.input.y, e.input.dx, e.input.dy)
    ensures es != [] ==> var e := es[|es| - 1];
      r[|r| - 1] == ScrollSample(e.ts, e.input.x, e.input.y, e.input.dx, e.input.dy)
    decreases |es|
  {
    if es == [] then []
    else [ScrollSample(es[0].ts, es[0].input.x, es[0].input.y, es[0].input.dx, es[0].input.dy)] + ScrollSamples(es[1..])
  }

  /** Sample `k` is the position, time and steps of scroll `k`. */
  lemma {:induction false} ScrollSamplesAt(es: seq<Event>, k: int)
    requires AllScrolls(es) && 0 <= k < |es|
    ensures var e := es[k]; ScrollSamples(es)[k] == ScrollSample(e.ts, e.input.x, e.input.y, e.input.dx, e.input.dy)
    decreases k
  {
    if k > 0 {
      ScrollSamplesAt(es[1..], k - 1);
    }
  }

  /** The horizontal and vertical steps of a stream of scrolls, added up
      from the front. */
  function EventsDx(es: seq<Event>): int
    requires AllScrolls(es)
    decreases |es|
  {
    if es == [] then 0 else es[0].input.dx + EventsDx(es[1..])
  }

  function EventsDy(es: seq<Event>): int
    requires AllScrolls(es)
    decreases |es|
  {
    if es == [] then 0 else es[0].input.dy + EventsDy(es[1..])
  }

  /** The buffered totals are the stream's totals. */
  lemma {:induction false} ScrollSamplesTotals(es: seq<Event>)
    requires AllScrolls(es)
    ensures SumDx(ScrollSamples(es)) == EventsDx(es) && SumDy(ScrollSamples(es)) == EventsDy(es)
    decreases |es|
  {
    if es != [] {
      var head := [ScrollSample(es[0].ts, es[0].input.x, es[0].input.y, es[0].input.dx, es[0].input.dy)];
      assert ScrollSamples(es) == head + ScrollSamples(es[1..]);
      SumAppend(head, ScrollSamples(es[1..]));
      assert head[..0] == [];
      ScrollSamplesTotals(es[1..]);
    }
  }

  /** A stream of moves that keeps within `MOUSE_SEQUENCE_MAX_DELTA` of an
      open move run extends it sample by sample: nothing is written and no
      other part of the state changes (lines 227-234, called once per
      event). */
  lemma {:induction false} MovesExtendRun(c: Compressor, es: seq<Event>)
    requires Valid(c) && c.moves != [] && AllMoves(es) && CloseTogether(es)
    requires es != [] ==> es[0].ts - c.lastMoveTs <= MouseSequenceMaxDelta
    ensures Run(c, es) == c.(moves := c.moves + MoveSamples(es),
                             lastMoveTs := if es == [] then c.lastMoveTs else es[|es| - 1].ts)
    decreases |es|
  {
    if es == [] {
      assert c.moves + MoveSamples(es) == c.moves;
    } else {
      var d := MoveHead(c, es);
      var rest := es[1..];
      MovesExtendRun(d, rest);
      assert MoveSamples(es) == [MoveSample(es[0].ts, es[0].input.x, es[0].input.y)] + MoveSamples(rest);
      assert c.moves + MoveSamples(es) == d.moves + MoveSamples(rest);
      assert rest != [] ==> rest[|rest| - 1] == es[|es| - 1];
    }
  }

  /** The first move of such a stream joins the run; the rest of the stream
      then meets the same conditions. */
  lemma MoveHead(c: Compressor, es: seq<Event>) returns (d: Compressor)
    requires Valid(c) && c.moves != [] && AllMoves(es) && CloseTogether(es)
    requires es != [] && es[0].ts - c.lastMoveTs <= MouseSequenceMaxDelta
    ensures d == c.(moves := c.moves + [MoveSample(es[0].ts, es[0].input.x, es[0].input.y)], lastMoveTs := es[0].ts)
    ensures Valid(d) && Run(c, es) == Run(d, es[1..])
    ensures AllMoves(es[1..]) && CloseTogether(es[1..])
    ensures es[1..] != [] ==> es[1..][0].ts - d.lastMoveTs <= MouseSequenceMaxDelta
  {
    MoveJoinsRun(c, es[0]);
    StepKeepsValid(c, es[0]);
    d := Step(c, es[0]);
    if |es| > 1 { assert es[1..][0] == es[1]; }
  }

  /** A stream of moves with no open move run, each within
      `MOUSE_SEQUENCE_MAX_DELTA` of the one before, is buffered as one run
      and written as a single `condensed_move` record: from the first
      position to the last, over the time between them, counting every
      move (lines 65-84 and 227-234). */
  lemma MoveRunCondensed(c: Compressor, es: seq<Event>)
    requires Valid(c) && c.moves == [] && es != [] && AllMoves(es) && CloseTogether(es)
    ensures var d := Run(c, es); var first, last := es[0], es[|es| - 1];
      && d.moves == MoveSamples(es) && d.pending == c.pending
      && FlushMoves(d).output == d.output + [CondensedMove(first.ts, first.input.x, first.input.y,
                                                            last.input.x, last.input.y, last.ts - first.ts, |es|)]
  {
    var d := MoveStart(c, es);
    var rest := es[1..];
    MovesExtendRun(d, rest);
    var r := Run(c, es);
    assert MoveSamples(es) == d.moves + MoveSamples(rest);
    assert r.moves == MoveSamples(es) && r.pending == c.pending;
    FlushMovesSpec(r);
  }

  /** The first move of a stream with no open move run starts one. */
  lemma MoveStart(c: Compressor, es: seq<Event>) returns (d: Compressor)
    requires Valid(c) && c.moves == [] && es != [] && AllMoves(es) && CloseTogether(es)
    ensures d.moves == [MoveSample(es[0].ts, es[0].input.x, es[0].input.y)] && d.lastMoveTs == es[0].ts
    ensures d.pending == c.pending && Valid(d) && Run(c, es) == Run(d, es[1..])
    ensures AllMoves(es[1..]) && CloseTogether(es[1..])
    ensures es[1..] != [] ==> es[1..][0].ts - d.lastMoveTs <= MouseSequenceMaxDelta
  {
    MoveStartsRun(c, es[0]);
    StepKeepsValid(c, es[0]);
    d := Step(c, es[0]);
    if |es| > 1 { assert es[1..][0] == es[1]; }
  }

  /** The analogue of `MovesExtendRun` for scrolls (lines 236-248). */
  lemma {:induction false} ScrollsExtendRun(c: Compressor, es: seq<Event>)
    requires Valid(c) && c.scrolls != [] && AllScrolls(es) && CloseTogether(es)
    requires es != [] ==> es[0].ts - c.lastScrollTs <= MouseSequenceMaxDelta
    ensures Run(c, es) == c.(scrolls := c.scrolls + ScrollSamples(es),
                             lastScrollTs := if es == [] then c.lastScrollTs else es[|es| - 1].ts)
    decreases |es|
  {
    if es == [] {
      assert c.scrolls + ScrollSamples(es) == c.scrolls;
    } else {
      var d := ScrollHead(c, es);
      var rest := es[1..];
      ScrollsExtendRun(d, rest);
      assert ScrollSamples(es) == [ScrollSample(es[0].ts, es[0].input.x, es[0].input.y, es[0].input.dx, es[0].input.dy)]
                                  + ScrollSamples(rest);
      assert c.scrolls + ScrollSamples(es) == d.scrolls + ScrollSamples(rest);
      assert rest != [] ==> rest[|rest| - 1] == es[|es| - 1];
    }
  }

  /** The first scroll of such a stream joins the run; the rest of the
      stream then meets the same conditions. */
  lemma ScrollHead(c: Compressor, es: seq<Event>) returns (d: Compressor)
    requires Valid(c) && c.scrolls != [] && AllScrolls(es) && CloseTogether(es)
    requires es != [] && es[0].ts - c.lastScrollTs <= MouseSequenceMaxDelta
    ensures d == c.(scrolls := c.scrolls + [ScrollSample(es[0].ts, es[0].input.x, es[0].input.y, es[0].input.dx, es[0].input.dy)],
                    lastScrollTs := es[0].ts)
    ensures Valid(d) && Run(c, es) == Run(d, es[1..])
    ensures AllScrolls(es[1..]) && CloseTogether(es[1..])
    ensures es[1..] != [] ==> es[1..][0].ts - d.lastScrollTs <= MouseSequenceMaxDelta
  {
    ScrollJoinsRun(c, es[0]);
    StepKeepsValid(c, es[0]);
    d := Step(c, es[0]);
    if |es| > 1 { assert es[1..][0] == es[1]; }
  }

  /** A stream of close-together scrolls with no open scroll run is written
      as a single `condensed_scroll` record whose totals are the sums of the
      stream's steps (lines 86-112 and 236-248). */
  lemma ScrollRunCondensed(c: Compressor, es: seq<Event>)
    requires Valid(c) && c.scrolls == [] && es != [] && AllScrolls(es) && CloseTogether(es)
    ensures var d := Run(c, es); var first, last := es[0], es[|es| - 1];
      && d.scrolls == ScrollSamples(es) && d.pending == c.pending
      && FlushScrolls(d).output == d.output + [CondensedScroll(first.ts, EventsDx(es), EventsDy(es),
                                                                last.ts - first.ts, |es|)]
  {
    var d := ScrollStart(c, es);
    var rest := es[1..];
    ScrollsExtendRun(d, rest);
    var r := Run(c, es);
    assert ScrollSamples(es) == d.scrolls + ScrollSamples(rest);
    assert r.scrolls == ScrollSamples(es) && r.pending == c.pending;
    ScrollSamplesTotals(es);
    FlushScrollsSpec(r);
  }

  /** The first scroll of a stream with no open scroll run starts one. */
  lemma ScrollStart(c: Compressor, es: seq<Event>) returns (d: Compressor)
    requires Valid(c) && c.scrolls == [] && es != [] && AllScrolls(es) && CloseTogether(es)
    ensures d.scrolls == [ScrollSample(es[0].ts, es[0].input.x, es[0].input.y, es[0].input.dx, es[0].input.dy)]
    ensures d.lastScrollTs == es[0].ts && d.pending == c.pending && Valid(d) && Run(c, es) == Run(d, es[1..])
    ensures AllScrolls(es[1..]) && CloseTogether(es[1..])
    ensures es[1..] != [] ==> es[1..][0].ts - d.lastScrollTs <= MouseSequenceMaxDelta
  {
    ScrollStartsRun(c, es[0]);
    StepKeepsValid(c, es[0]);
    d := Step(c, es[0]);
    if |es| > 1 { assert es[1..][0] == es[1]; }
  }

  // ------------------------------------------------------ typed runs

  /** A click of one key: its press time and its release time. */
  datatype KeyTap = KeyTap(key: string, pressTs: int, releaseTs: int)

  /** The two raw events of a tap. */
  function PressOf(t: KeyTap): Event
  {
    Event(t.pressTs, Key(Press, t.key))
  }

  function ReleaseOf(t: KeyTap): Event
  {
    Event(t.releaseTs, Key(Release, t.key))
  }

  /** The element a tap is buffered as (lines 172-176). */
  function TapChar(t: KeyTap): TypedChar
  {
    TypedChar(ToChar(t.key), t.pressTs, t.releaseTs - t.pressTs)
  }

  /** The input stream of a sequence of taps, press then release each. */
  function TapEvents(ts: seq<KeyTap>): (r: seq<Event>)
    ensures |r| == 2 * |ts|
    decreases |ts|
  {
    if ts == [] then [] else [PressOf(ts[0]), ReleaseOf(ts[0])] + TapEvents(ts[1..])
  }

  function TapChars(ts: seq<KeyTap>): (r: seq<TypedChar>)
    ensures |r| == |ts|
    ensures ts != [] ==> r[0] == TapChar(ts[0]) && r[|r| - 1] == TapChar(ts[|ts| - 1])
    decreases |ts|
  {
    if ts == [] then [] else [TapChar(ts[0])] + TapChars(ts[1..])
  }

  /** The characters of the taps, in order. */
  function TapText(ts: seq<KeyTap>): string
    decreases |ts|
  {
    if ts == [] then "" else ToChar(ts[0].key) + TapText(ts[1..])
  }

  /** A quick click of a character key, released no earlier than pressed. */
  predicate QuickTap(t: KeyTap)
  {
    IsCharKey(t.key) && t.pressTs <= t.releaseTs && t.releaseTs - t.pressTs <= KeyClickMaxDelta
  }

  /** Quick character clicks, each released within `TYPING_MAX_INTERKEY_DELTA`
      of the previous press. */
  predicate TypingRun(ts: seq<KeyTap>)
  {
    && (forall k :: 0 <= k < |ts| ==> QuickTap(ts[k]))
    && (forall k :: 0 < k < |ts| ==> ts[k].releaseTs - ts[k - 1].pressTs <= TypingMaxInterkeyDelta)
  }

  /** The buffered text is the text of the taps. */
  lemma {:induction false} TapCharsText(ts: seq<KeyTap>)
    ensures JoinChars(TapChars(ts)) == TapText(ts)
    decreases |ts|
  {
    if ts != [] {
      assert TapChars(ts) == [TapChar(ts[0])] + TapChars(ts[1..]);
      JoinCharsCons(TapChar(ts[0]), TapChars(ts[1..]));
      TapCharsText(ts[1..]);
    }
  }

  lemma JoinCharsCons(x: TypedChar, rest: seq<TypedChar>)
    ensures JoinChars([x] + rest) == x.ch + JoinChars(rest)
  {
    JoinCharsAppend([x], rest);
    JoinCharsSnoc([], x);
    assert [] + [x] == [x];
  }

  /** One quick character click, released within the typing threshold of an
      open run, appends its character to the typed buffer; with no run open
      it starts one (lines 146-150 and 167-177). */
  lemma TapStep(c: Compressor, t: KeyTap) returns (d: Compressor)
    requires Valid(c) && QuickTap(t)
    requires c.typed != [] ==> t.releaseTs - c.lastTypedTs <= TypingMaxInterkeyDelta
    ensures d == Step(Step(c, PressOf(t)), ReleaseOf(t))
    ensures Valid(d) && d.typed == c.typed + [TapChar(t)] && d.lastTypedTs == t.pressTs
  {
    var c1 := TapPress(c, t);
    d := TapRelease(c1, t);
  }

  /** The press of a tap is stored and leaves the typed run as it was. */
  lemma TapPress(c: Compressor, t: KeyTap) returns (c1: Compressor)
    requires Valid(c) && QuickTap(t)
    requires c.typed != [] ==> t.releaseTs - c.lastTypedTs <= TypingMaxInterkeyDelta
    ensures c1 == Step(c, PressOf(t)) && Valid(c1)
    ensures c1.typed == c.typed && (c.typed != [] ==> c1.lastTypedTs == c.lastTypedTs)
    ensures var i := Find(c1.pending, KeyboardId(t.key)); 0 <= i < |c1.pending| && c1.pending[i].1 == PressOf(t)
  {
    KeyPressStored(c, PressOf(t));
    if c.typed != [] {
      PreFlushKeepsTyped(c, PressOf(t));
    } else {
      PreFlushKeepsNoTyped(c, PressOf(t));
    }
    c1 := Step(c, PressOf(t));
  }

  /** `StepValid`, invariant only. */
  lemma StepKeepsValid(c: Compressor, e: Event)
    requires Valid(c)
    ensures Valid(Step(c, e))
  {
    StepValid(c, e);
  }

  /** The release of a tap whose press is stored joins or opens the typed
      run. */
  lemma TapRelease(c1: Compressor, t: KeyTap) returns (d: Compressor)
    requires Valid(c1) && QuickTap(t)
    requires c1.typed != [] ==> t.releaseTs - c1.lastTypedTs <= TypingMaxInterkeyDelta
    requires var i := Find(c1.pending, KeyboardId(t.key)); 0 <= i < |c1.pending| && c1.pending[i].1 == PressOf(t)
    ensures d == Step(c1, ReleaseOf(t))
    ensures Valid(d) && d.typed == c1.typed + [TapChar(t)] && d.lastTypedTs == t.pressTs
  {
    StepKeepsValid(c1, ReleaseOf(t));
    if c1.typed != [] {
      TapReleaseJoins(c1, t);
    } else {
      TapReleaseOpens(c1, t);
    }
    d := Step(c1, ReleaseOf(t));
  }

  lemma TapReleaseJoins(c1: Compressor, t: KeyTap)
    requires OneBufferOpen(c1) && QuickTap(t) && c1.typed != []
    requires t.releaseTs - c1.lastTypedTs <= TypingMaxInterkeyDelta
    requires var i := Find(c1.pending, KeyboardId(t.key)); 0 <= i < |c1.pending| && c1.pending[i].1 == PressOf(t)
    ensures Step(c1, ReleaseOf(t)).typed == c1.typed + [TapChar(t)] && Step(c1, ReleaseOf(t)).lastTypedTs == t.pressTs
  {
    var r := ReleaseOf(t);
    assert r.input == Key(Release, t.key) && r.ts == t.releaseTs;
    var press := c1.pending[Find(c1.pending, KeyboardId(t.key))].1;
    assert press.ts == t.pressTs;
    TypedJoinsRun(c1, r);
    assert TypedChar(ToChar(t.key), press.ts, r.ts - press.ts) == TapChar(t);
  }

  lemma TapReleaseOpens(c1: Compressor, t: KeyTap)
    requires QuickTap(t) && c1.typed == []
    requires var i := Find(c1.pending, KeyboardId(t.key)); 0 <= i < |c1.pending| && c1.pending[i].1 == PressOf(t)
    ensures Step(c1, ReleaseOf(t)).typed == [TapChar(t)] && Step(c1, ReleaseOf(t)).lastTypedTs == t.pressTs
  {
    var r := ReleaseOf(t);
    var id := KeyboardId(t.key);
    PreFlushKeepsNoTyped(c1, r);
    var f := PreFlush(c1, r);
    assert Step(c1, r) == Handle(f, r);
    assert Handle(f, r) == HandleKeyRelease(f, id, t.key, r);
    TypedReleaseOpens(f, id, t.key, r);
  }

  /** The first tap of a typing run joins or opens the typed run; the rest
      of the stream then meets the same conditions. */
  lemma TapHead(c: Compressor, ts: seq<KeyTap>) returns (d: Compressor)
    requires Valid(c) && ts != [] && TypingRun(ts)
    requires c.typed != [] ==> ts[0].releaseTs - c.lastTypedTs <= TypingMaxInterkeyDelta
    ensures Valid(d) && d.typed == c.typed + [TapChar(ts[0])] && d.lastTypedTs == ts[0].pressTs
    ensures RunTaps(c, ts) == RunTaps(d, ts[1..])
    ensures TypingRun(ts[1..])
    ensures ts[1..] != [] ==> ts[1..][0].releaseTs - d.lastTypedTs <= TypingMaxInterkeyDelta
  {
    d := TapStep(c, ts[0]);
    TypingRunTail(ts);
  }

  /** Two events fed one after the other. */
  lemma RunTwo(c: Compressor, p: Event, r: Event, rest: seq<Event>)
    ensures Run(c, [p, r] + rest) == Run(Step(Step(c, p), r), rest)
  {
    var es := [p, r] + rest;
    assert es[0] == p && es[1..] == [r] + rest;
    assert ([r] + rest)[0] == r && ([r] + rest)[1..] == rest;
  }

  /** The taps after the first still form a typing run. */
  lemma TypingRunTail(ts: seq<KeyTap>)
    requires ts != [] && TypingRun(ts)
    ensures TypingRun(ts[1..])
    ensures |ts| > 1 ==> ts[1..][0] == ts[1] && ts[1].releaseTs - ts[0].pressTs <= TypingMaxInterkeyDelta
  {
    forall k | 0 < k < |ts[1..]| ensures ts[1..][k].releaseTs - ts[1..][k - 1].pressTs <= TypingMaxInterkeyDelta {
      assert ts[1..][k] == ts[k + 1] && ts[1..][k - 1] == ts[k];
    }
  }

  /** The compressor fed the taps one press and release at a time. */
  function RunTaps(c: Compressor, ts: seq<KeyTap>): Compressor
    decreases |ts|
  {
    if ts == [] then c else RunTaps(Step(Step(c, PressOf(ts[0])), ReleaseOf(ts[0])), ts[1..])
  }

  /** Feeding the taps' events is feeding the taps. */
  lemma {:induction false} RunTapsIsRun(c: Compressor, ts: seq<KeyTap>)
    ensures Run(c, TapEvents(ts)) == RunTaps(c, ts)
    decreases |ts|
  {
    if ts != [] {
      var p, r := PressOf(ts[0]), ReleaseOf(ts[0]);
      assert TapEvents(ts) == [p, r] + TapEvents(ts[1..]);
      RunTwo(c, p, r, TapEvents(ts[1..]));
      RunTapsIsRun(Step(Step(c, p), r), ts[1..]);
    }
  }

  /** A typing run appends one character per tap to the typed buffer, its
      clock at the last press. */
  /** A typing run appends one character per tap to the typed buffer, its
      clock at the last press. */
  lemma {:induction false} TypedExtendRun(c: Compressor, ts: seq<KeyTap>)
    requires Valid(c) && TypingRun(ts)
    requires ts != [] && c.typed != [] ==> ts[0].releaseTs - c.lastTypedTs <= TypingMaxInterkeyDelta
    ensures var d := RunTaps(c, ts);
      && d.typed == c.typed + TapChars(ts)
      && (ts != [] ==> d.lastTypedTs == ts[|ts| - 1].pressTs)
    decreases |ts|
  {
    if ts == [] {
      assert c.typed + TapChars(ts) == c.typed;
    } else {
      var d := TapHead(c, ts);
      var rest := ts[1..];
      TypedExtendRun(d, rest);
      TapsCombine(c.typed, ts);
      if rest == [] {
        assert RunTaps(d, rest) == d;
      } else {
        assert rest[|rest| - 1] == ts[|ts| - 1];
      }
    }
  }

  /** The first tap's character followed by the rest's is the whole run's. */
  lemma TapsCombine(prefix: seq<TypedChar>, ts: seq<KeyTap>)
    requires ts != []
    ensures (prefix + [TapChar(ts[0])]) + TapChars(ts[1..]) == prefix + TapChars(ts)
  {
    assert TapChars(ts) == [TapChar(ts[0])] + TapChars(ts[1..]);
  }

  /** A typing run with no typed run open is buffered as one run, written as
      a single `typed_string`: from the first press to the last release, the
      characters of the taps in order, `num_chars` the length of that text
      (lines 42-63 and 146-185). */
  lemma TypedRunCondensed(c: Compressor, ts: seq<KeyTap>)
    requires Valid(c) && c.typed == [] && ts != [] && TypingRun(ts)
    ensures var d := Run(c, TapEvents(ts)); var first, last := ts[0], ts[|ts| - 1];
      && d.typed == TapChars(ts)
      && FlushTyped(d).output == d.output + [TypedString(first.pressTs, TapText(ts), last.releaseTs - first.pressTs,
                                                         |TapText(ts)|)]
  {
    RunTapsIsRun(c, ts);
    TypedExtendRun(c, ts);
    TypedRunFlush(RunTaps(c, ts), ts);
  }

  /** A typed buffer holding the characters of a typing run flushes to the
      `typed_string` of the run. */
  lemma TypedRunFlush(d: Compressor, ts: seq<KeyTap>)
    requires ts != [] && d.typed == TapChars(ts)
    ensures var first, last := ts[0], ts[|ts| - 1];
      FlushTyped(d).output == d.output + [TypedString(first.pressTs, TapText(ts), last.releaseTs - first.pressTs,
                                                       |TapText(ts)|)]
  {
    TapsRecord(ts);
  }

  /** The `typed_string` record of a typing run's characters. */
  lemma TapsRecord(ts: seq<KeyTap>)
    requires ts != []
    ensures var first, last := ts[0], ts[|ts| - 1];
      TypedStringRecord(TapChars(ts)) == TypedString(first.pressTs, TapText(ts), last.releaseTs - first.pressTs,
                                                     |TapText(ts)|)
  {
    TapCharsText(ts);
  }
}
