/** Two small inputs worked through the state machine: quick character
    clicks becoming one `typed_string`, and a mouse release away from its
    press that does not pair with it. */
module CompressorScenarios {
  import opened CompressorTypes
  import opened PendingPresses
  import opened CompressorSpec

  const PressH := Event(0, Key(Press, "h"))
  const ReleaseH := Event(10_000, Key(Release, "h"))
  const PressI := Event(20_000, Key(Press, "i"))
  const ReleaseI := Event(30_000, Key(Release, "i"))

  lemma PressHStep()
    ensures Step(Init, PressH) == Init.(pending := [(KeyboardId("h"), PressH)])
  {
    assert PreFlush(Init, PressH) == Init;
  }

  lemma ReleaseHStep()
    ensures Step(Init.(pending := [(KeyboardId("h"), PressH)]), ReleaseH) == Init.(typed := [TypedChar("h", 0, 10_000)])
  {
    var c := Init.(pending := [(KeyboardId("h"), PressH)]);
    assert PreFlush(c, ReleaseH) == c;
    assert Find(c.pending, KeyboardId("h")) == 0;
  }

  lemma PressIStep()
    ensures Step(Init.(typed := [TypedChar("h", 0, 10_000)]), PressI)
         == Init.(typed := [TypedChar("h", 0, 10_000)], pending := [(KeyboardId("i"), PressI)])
  {
    var c := Init.(typed := [TypedChar("h", 0, 10_000)]);
    assert IsCharKeyEvent(PressI);
    assert PreFlush(c, PressI) == c;
  }

  lemma ReleaseIStep()
    ensures Step(Init.(typed := [TypedChar("h", 0, 10_000)], pending := [(KeyboardId("i"), PressI)]), ReleaseI)
         == Init.(typed := [TypedChar("h", 0, 10_000), TypedChar("i", 20_000, 10_000)], lastTypedTs := 20_000)
  {
    var c := Init.(typed := [TypedChar("h", 0, 10_000)], pending := [(KeyboardId("i"), PressI)]);
    assert IsCharKeyEvent(ReleaseI);
    assert PreFlush(c, ReleaseI) == c;
    assert Find(c.pending, KeyboardId("i")) == 0;
  }

  const TypedHi := Init.(typed := [TypedChar("h", 0, 10_000), TypedChar("i", 20_000, 10_000)], lastTypedTs := 20_000)

  const AfterH := Init.(typed := [TypedChar("h", 0, 10_000)])

  lemma RunHiFirst()
    ensures Run(Init, [PressH, ReleaseH, PressI, ReleaseI]) == Run(AfterH, [PressI, ReleaseI])
  {
    PressHStep();
    ReleaseHStep();
    var c1 := Init.(pending := [(KeyboardId("h"), PressH)]);
    var es := [PressH, ReleaseH, PressI, ReleaseI];
    assert es[1..] == [ReleaseH, PressI, ReleaseI];
    assert es[1..][1..] == [PressI, ReleaseI];
    assert Run(c1, [ReleaseH, PressI, ReleaseI]) == Run(AfterH, [PressI, ReleaseI]);
  }

  lemma RunHiSecond()
    ensures Run(AfterH, [PressI, ReleaseI]) == TypedHi
  {
    PressIStep();
    ReleaseIStep();
    var c3 := AfterH.(pending := [(KeyboardId("i"), PressI)]);
    assert [PressI, ReleaseI][1..] == [ReleaseI];
    assert [ReleaseI][1..] == [];
    assert Run(TypedHi, []) == TypedHi;
    assert Run(c3, [ReleaseI]) == TypedHi;
  }

  lemma FinalizeHi()
    ensures Finalize(TypedHi).output == [TypedString(0, "hi", 30_000, 2)]
  {
    var t := TypedHi.typed;
    assert JoinChars(t) == "hi" by {
      assert t[..1] == [TypedChar("h", 0, 10_000)];
      assert t[..1][..0] == [];
    }
    assert TypedStringRecord(t) == TypedString(0, "hi", 30_000, 2);
    assert FlushBuffers(TypedHi) == Init.(output := [TypedStringRecord(t)]);
    assert PendingRecords(FlushBuffers(TypedHi).pending) == [];
  }

  /** Two quick clicks of character keys, 0.2 s apart, are one
      `typed_string` once the compressor is finalized. */
  lemma TypingHi()
    ensures Finalize(Run(Init, [PressH, ReleaseH, PressI, ReleaseI])).output == [TypedString(0, "hi", 30_000, 2)]
  {
    RunHiFirst();
    RunHiSecond();
    FinalizeHi();
  }

  const PressAt := Event(0, Click(10, 20, "Button.left", true))
  const ReleaseElsewhere := Event(5_000, Click(11, 20, "Button.left", false))

  lemma ClickStep1()
    ensures Step(Init, PressAt) == Init.(pending := [(MouseId("Button.left", 10, 20), PressAt)])
  {
    assert PreFlush(Init, PressAt) == Init;
  }

  lemma ClickStep2()
    ensures var c := Init.(pending := [(MouseId("Button.left", 10, 20), PressAt)]);
      Step(c, ReleaseElsewhere) == c.(output := [Raw(ReleaseElsewhere)])
  {
    var c := Init.(pending := [(MouseId("Button.left", 10, 20), PressAt)]);
    assert PreFlush(c, ReleaseElsewhere) == c;
    if MouseId("Button.left", 10, 20) == MouseId("Button.left", 11, 20) {
      MouseIdInjective("Button.left", 10, 20, "Button.left", 11, 20);
    }
    assert Find(c.pending, MouseId("Button.left", 11, 20)) == -1;
  }

  /** A release one pixel away from its press does not pair with it: the
      release is written alone, and the press only at `finalize`. */
  lemma ClickMovedApart()
    ensures Finalize(Run(Init, [PressAt, ReleaseElsewhere])).output == [Raw(ReleaseElsewhere), Raw(PressAt)]
  {
    ClickStep1();
    ClickStep2();
    var c1 := Init.(pending := [(MouseId("Button.left", 10, 20), PressAt)]);
    var c2 := c1.(output := [Raw(ReleaseElsewhere)]);
    var es := [PressAt, ReleaseElsewhere];
    assert es[1..] == [ReleaseElsewhere];
    assert es[1..][1..] == [];
    assert Run(c2, []) == c2;
    assert Run(c1, [ReleaseElsewhere]) == c2;
    assert FlushBuffers(c2) == c2;
    assert PendingRecords(c2.pending) == [Raw(PressAt)];
  }
}
