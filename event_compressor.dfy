/** The `EventCompressor` class of gum/observers/keyboard_compressor.py:24-264
    as an object whose methods update its fields in place. Every method is
    proved to take `Model()`, the value of all fields, exactly where the
    matching function of `CompressorSpec` takes it, so every property proved
    about those functions holds of the object. The output file is the
    `output` field: `_write_event` appends one record to it. */
module KeyboardCompressor {
  import opened CompressorTypes
  import opened PendingPresses
  import opened CompressorSpec
  import opened CompressorInvariants
  import opened CompressorRuns

  class EventCompressor {
    var pendingEvents: Pending
    var typedCharBuffer: seq<TypedChar>
    var lastTypedCharTs: int
    var mouseMoveBuffer: seq<MoveSample>
    var lastMouseMoveTs: int
    var mouseScrollBuffer: seq<ScrollSample>
    var lastMouseScrollTs: int
    var output: seq<Record>

    /** The state of the object as a value. */
    function Model(): Compressor
      reads this
    {
      Compressor(pendingEvents, typedCharBuffer, lastTypedCharTs, mouseMoveBuffer, lastMouseMoveTs,
                 mouseScrollBuffer, lastMouseScrollTs, output)
    }

    /** `__init__` (lines 25-37): no pending presses, empty buffers, clocks at
        0 and nothing written. */
    constructor ()
      ensures Model() == Init
      ensures Valid(Model())
    {
      pendingEvents := [];
      typedCharBuffer := [];
      lastTypedCharTs := 0;
      mouseMoveBuffer := [];
      lastMouseMoveTs := 0;
      mouseScrollBuffer := [];
      lastMouseScrollTs := 0;
      output := [];
    }

    /** `_write_event` (lines 39-40). */
    method WriteEvent(r: Record)
      modifies this
      ensures Model() == Write(old(Model()), r)
    {
      output := output + [r];
    }

    /** `_flush_typed_char_buffer` (lines 42-63). */
    method FlushTypedCharBuffer()
      modifies this
      ensures Model() == FlushTyped(old(Model()))
    {
      if typedCharBuffer == [] {
        return;
      }
      var first := typedCharBuffer[0];
      var last := typedCharBuffer[|typedCharBuffer| - 1];
      var combined := JoinChars(typedCharBuffer);
      WriteEvent(TypedString(first.ts, combined, last.ts + last.duration - first.ts, |combined|));
      typedCharBuffer := [];
      lastTypedCharTs := 0;
    }

    /** `_flush_mouse_move_buffer` (lines 65-84). */
    method FlushMouseMoveBuffer()
      modifies this
      ensures Model() == FlushMoves(old(Model()))
    {
      if mouseMoveBuffer == [] {
        return;
      }
      var first := mouseMoveBuffer[0];
      var last := mouseMoveBuffer[|mouseMoveBuffer| - 1];
      WriteEvent(CondensedMove(first.ts, first.x, first.y, last.x, last.y, last.ts - first.ts, |mouseMoveBuffer|));
      mouseMoveBuffer := [];
      lastMouseMoveTs := 0;
    }

    /** `_flush_mouse_scroll_buffer` (lines 86-112); the totals are summed by
        a loop over the buffer. */
    method FlushMouseScrollBuffer()
      modifies this
      ensures Model() == FlushScrolls(old(Model()))
    {
      if mouseScrollBuffer == [] {
        return;
      }
      var first := mouseScrollBuffer[0];
      var last := mouseScrollBuffer[|mouseScrollBuffer| - 1];
      var totalDx, totalDy := 0, 0;
      var k := 0;
      while k < |mouseScrollBuffer|
        invariant 0 <= k <= |mouseScrollBuffer|
        invariant totalDx == SumDx(mouseScrollBuffer[..k]) && totalDy == SumDy(mouseScrollBuffer[..k])
      {
        assert mouseScrollBuffer[..k + 1][..k] == mouseScrollBuffer[..k];
        totalDx := totalDx + mouseScrollBuffer[k].dx;
        totalDy := totalDy + mouseScrollBuffer[k].dy;
        k := k + 1;
      }
      assert mouseScrollBuffer[..k] == mouseScrollBuffer;
      WriteEvent(CondensedScroll(first.ts, totalDx, totalDy, last.ts - first.ts, |mouseScrollBuffer|));
      mouseScrollBuffer := [];
      lastMouseScrollTs := 0;
    }

    /** `_flush_all_buffers(current_ts)` (lines 114-121). */
    method FlushAllBuffers(currentTs: int)
      modifies this
      ensures Model() == FlushAll(old(Model()), currentTs)
    {
      if typedCharBuffer != [] && currentTs - lastTypedCharTs > TypingMaxInterkeyDelta {
        FlushTypedCharBuffer();
      }
      if mouseMoveBuffer != [] && currentTs - lastMouseMoveTs > MouseSequenceMaxDelta {
        FlushMouseMoveBuffer();
      }
      if mouseScrollBuffer != [] && currentTs - lastMouseScrollTs > MouseSequenceMaxDelta {
        FlushMouseScrollBuffer();
      }
    }

    /** A press under identity `id` (lines 146-150 and 203-207). */
    method Press(id: string, e: Event)
      modifies this
      ensures Model() == HandlePress(old(Model()), id, e)
    {
      var i := Find(pendingEvents, id);
      if 0 <= i {
        var stale := pendingEvents[i].1;
        pendingEvents := RemoveAt(pendingEvents, i);
        WriteEvent(Raw(stale));
      }
      pendingEvents := Assign(pendingEvents, id, e);
    }

    /** Lines 167-185: a quick click of a character key joins the typed run,
        after flushing a run whose last press is too long ago. */
    method AppendTypedChar(key: string, pressTs: int, duration: int)
      modifies this
      ensures Model() == AppendTyped(old(Model()), key, pressTs, duration)
    {
      var item := TypedChar(ToChar(key), pressTs, duration);
      if typedCharBuffer == [] || pressTs - lastTypedCharTs <= TypingMaxInterkeyDelta {
        typedCharBuffer := typedCharBuffer + [item];
        lastTypedCharTs := pressTs;
      } else {
        FlushTypedCharBuffer();
        typedCharBuffer := typedCharBuffer + [item];
        lastTypedCharTs := pressTs;
      }
    }

    /** Lines 155-191: the release of a key whose press was just popped. */
    method PairedKeyReleaseOf(key: string, pressEvent: Event, e: Event)
      modifies this
      ensures Model() == PairedKeyRelease(old(Model()), key, pressEvent, e)
    {
      var duration := e.ts - pressEvent.ts;
      if duration <= KeyClickMaxDelta {
        if IsCharKey(key) {
          AppendTypedChar(key, pressEvent.ts, duration);
        } else {
          FlushTypedCharBuffer();
          WriteEvent(KeyClick(pressEvent.ts, key, duration));
        }
      } else {
        WriteEvent(Raw(pressEvent));
        WriteEvent(Raw(e));
      }
    }

    /** A keyboard release (lines 152-193). */
    method KeyRelease(id: string, key: string, e: Event)
      modifies this
      ensures Model() == HandleKeyRelease(old(Model()), id, key, e)
    {
      ghost var c := Model();
      var i := Find(pendingEvents, id);
      if i < 0 {
        WriteEvent(Raw(e));
        return;
      }
      var pressEvent := pendingEvents[i].1;
      pendingEvents := RemoveAt(pendingEvents, i);
      ghost var c1 := Model();
      assert c1 == c.(pending := RemoveAt(c.pending, i));
      PairedKeyReleaseOf(key, pressEvent, e);
      assert Model() == PairedKeyRelease(c1, key, pressEvent, e);
    }

    /** Lines 211-223: the release of a button whose press was just popped. */
    method PairedMouseReleaseOf(x: int, y: int, button: string, pressEvent: Event, e: Event)
      modifies this
      ensures Model() == PairedMouseRelease(old(Model()), x, y, button, pressEvent, e)
    {
      var duration := e.ts - pressEvent.ts;
      if duration <= MouseClickMaxDelta {
        WriteEvent(MouseClick(pressEvent.ts, x, y, button, duration));
      } else {
        WriteEvent(Raw(pressEvent));
        WriteEvent(Raw(e));
      }
    }

    /** A mouse button release (lines 208-225). */
    method MouseRelease(id: string, x: int, y: int, button: string, e: Event)
      modifies this
      ensures Model() == HandleMouseRelease(old(Model()), id, x, y, button, e)
    {
      ghost var c := Model();
      var i := Find(pendingEvents, id);
      if i < 0 {
        WriteEvent(Raw(e));
        return;
      }
      var pressEvent := pendingEvents[i].1;
      pendingEvents := RemoveAt(pendingEvents, i);
      ghost var c1 := Model();
      assert c1 == c.(pending := RemoveAt(c.pending, i));
      PairedMouseReleaseOf(x, y, button, pressEvent, e);
      assert Model() == PairedMouseRelease(c1, x, y, button, pressEvent, e);
    }

    /** A mouse move (lines 227-234). */
    method MouseMove(ts: int, x: int, y: int)
      modifies this
      ensures Model() == HandleMove(old(Model()), ts, x, y)
    {
      if mouseMoveBuffer == [] || ts - lastMouseMoveTs <= MouseSequenceMaxDelta {
        mouseMoveBuffer := mouseMoveBuffer + [MoveSample(ts, x, y)];
      } else {
        FlushMouseMoveBuffer();
        mouseMoveBuffer := mouseMoveBuffer + [MoveSample(ts, x, y)];
      }
      lastMouseMoveTs := ts;
    }

    /** A mouse scroll (lines 236-248). */
    method MouseScroll(ts: int, x: int, y: int, dx: int, dy: int)
      modifies this
      ensures Model() == HandleScroll(old(Model()), ts, x, y, dx, dy)
    {
      if mouseScrollBuffer == [] || ts - lastMouseScrollTs <= MouseSequenceMaxDelta {
        mouseScrollBuffer := mouseScrollBuffer + [ScrollSample(ts, x, y, dx, dy)];
      } else {
        FlushMouseScrollBuffer();
        mouseScrollBuffer := mouseScrollBuffer + [ScrollSample(ts, x, y, dx, dy)];
      }
      lastMouseScrollTs := ts;
    }

    /** The classification of lines 141-254, once the flushes have run. */
    method Classify(e: Event)
      modifies this
      ensures Model() == Handle(old(Model()), e)
    {
      match e.input
      case Key(action, key) =>
        var pendingKeyId := KeyboardId(key);
        match action {
          case Press => Press(pendingKeyId, e);
          case Release => KeyRelease(pendingKeyId, key, e);
          case OtherAction(_) =>
        }
      case Click(x, y, button, pressed) =>
        var pendingMouseClickId := MouseId(button, x, y);
        if pressed {
          Press(pendingMouseClickId, e);
        } else {
          MouseRelease(pendingMouseClickId, x, y, button, e);
        }
      case Move(x, y) => MouseMove(e.ts, x, y);
      case Scroll(x, y, dx, dy) => MouseScroll(e.ts, x, y, dx, dy);
      case OtherMouse(_, _, _) => WriteEvent(Raw(e));
      case OtherDevice(_, _) => WriteEvent(Raw(e));
    }

    /** `process_event` (lines 123-254): the type-change flushes, the timeout
        flush, then the classification. */
    method ProcessEvent(e: Event)
      modifies this
      ensures Model() == Step(old(Model()), e)
    {
      ghost var c := Model();
      if !IsCharKeyEvent(e) {
        FlushTypedCharBuffer();
      }
      if !e.input.Move? {
        FlushMouseMoveBuffer();
      }
      if !e.input.Scroll? {
        FlushMouseScrollBuffer();
      }
      assert Model() == TypeChangeFlush(c, e);
      FlushAllBuffers(e.ts);
      assert Model() == PreFlush(c, e);
      Classify(e);
    }

    /** Lines 263-264: every pending press, popped from a snapshot of the
        keys and written in insertion order. */
    method WritePendingEvents()
      modifies this
      ensures Model() == old(Model()).(pending := [], output := old(output) + PendingRecords(old(pendingEvents)))
    {
      var keys := pendingEvents;
      var k := 0;
      while k < |keys|
        invariant 0 <= k <= |keys|
        invariant pendingEvents == keys[k..]
        invariant output == old(output) + PendingRecords(keys[..k])
        invariant Model() == old(Model()).(pending := pendingEvents, output := output)
      {
        var id := keys[k].0;
        var i := Find(pendingEvents, id);
        assert i == 0;
        var ev := pendingEvents[i].1;
        pendingEvents := RemoveAt(pendingEvents, i);
        assert pendingEvents == keys[k + 1..];
        PendingRecordsSnoc(keys, k);
        output := output + [Raw(ev)];
        k := k + 1;
      }
      assert keys[..k] == keys;
    }

    /** `finalize` (lines 256-264): the three flushes in order, then the
        pending presses. Afterwards nothing is pending or buffered. */
    method Finalize()
      modifies this
      ensures Model() == CompressorSpec.Finalize(old(Model()))
      ensures pendingEvents == [] && typedCharBuffer == [] && mouseMoveBuffer == [] && mouseScrollBuffer == []
    {
      FlushTypedCharBuffer();
      FlushMouseMoveBuffer();
      FlushMouseScrollBuffer();
      WritePendingEvents();
    }

    /** The loop at lines 277-280 over events already read: one
        `process_event` per event, in order. */
    method ProcessEvents(es: seq<Event>)
      modifies this
      ensures Model() == Run(old(Model()), es)
      ensures Valid(old(Model())) ==> Valid(Model())
    {
      ghost var c := Model();
      for k := 0 to |es|
        invariant Model() == Run(c, es[..k])
      {
        assert es[..k + 1] == es[..k] + [es[k]];
        RunAppend(c, es[..k], es[k]);
        ProcessEvent(es[k]);
      }
      assert es[..|es|] == es;
      if Valid(c) {
        RunValid(c, es);
      }
    }
  }

  lemma PendingRecordsSnoc(p: Pending, k: int)
    requires 0 <= k < |p|
    ensures PendingRecords(p[..k + 1]) == PendingRecords(p[..k]) + [Raw(p[k].1)]
  {
  }

  /** The whole program over a list of events: a fresh compressor, one
      `process_event` per event, then `finalize`. The records are those of
      the state machine (`EveryEventAccounted` counts them against the
      input). */
  method CompressEvents(es: seq<Event>) returns (records: seq<Record>)
    ensures records == CompressorSpec.Finalize(Run(Init, es)).output
  {
    var compressor := new EventCompressor();
    compressor.ProcessEvents(es);
    compressor.Finalize();
    records := compressor.output;
  }
}
