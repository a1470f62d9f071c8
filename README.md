# Keyboard and mouse event compression, and the screen observer's path queue

This project models two parts of the `gum` observers in Dafny.

**The `EventCompressor`** (gum/observers/keyboard_compressor.py) reads raw
keyboard and mouse events one at a time and writes compressed records. It
writes:

- a `key_click` for a quick press and release of a key;
- a `mouse_click` for a quick press and release of a button at one position;
- a `typed_string` for a run of character-key clicks;
- a `condensed_move` or a `condensed_scroll` for a run of mouse moves or scrolls;
- the raw event for everything else.

Its state is:

- a dictionary of pending presses, keyed by an identity string and kept in
  insertion order;
- three run buffers, each with a "last timestamp" field;
- four time thresholds.

The model has two layers:

- A pure state machine, `CompressorSpec`. Its `Compressor` value holds every
  field, with the output file replaced by the sequence of records written so
  far. Each function there is one method of the source or one branch of
  `process_event`; `Run` is the loop of the `__main__` block.
- An imperative class, `KeyboardCompressor.EventCompressor`, with the same
  fields and one method per source method or branch. Each method is proved
  to move `Model()` exactly as its spec function moves the value.

Everything proved about the state machine therefore holds of the object.
The properties proved are:

- the invariant kept by every `process_event`;
- the exact cases of every press and release;
- that a move, scroll or character click continuing an open run within its
  threshold joins that run, and that a stream of close-together moves or
  scrolls, or of quick character clicks within the typing threshold, is
  written as one summary record;
- the flush record formulas;
- the output order of one call;
- what `finalize` writes;
- that every event read is accounted for, counted by the input events each
  record replaces.

Time is counted in integer ticks of 10 microseconds. The thresholds 0.7 s,
0.7 s, 1.0 s and 0.5 s are therefore 70 000, 70 000, 100 000 and 50 000 ticks.
The `round(..., 5)` applied to a difference of timestamps is then the
identity.

**The `VideoScreen` observer** (gum/observers/video_screen.py) is modelled
only where it handles lists:

- the monitor lookup `_mon_for`;
- the queue of screenshot paths and the bounded history;
- the cut of a full batch in `_maybe_flush_video`;
- the `{max_time}` label written into the captioning prompt.

Building the clip and captioning it are what happens to the batch the model
hands back.

Modules, one per file:

| file | module | contents |
|---|---|---|
| decimal.dfy | `Decimal` | `str(int)`, its parser and round trips, two-digit padding |
| compressor_types.dfy | `CompressorTypes` | thresholds, events, records, `is_char_key`, `to_char`, pending identities, summary records |
| pending.dfy | `PendingPresses` | the insertion-ordered dictionary of pending presses |
| compressor_spec.dfy | `CompressorSpec` | the state machine and its invariant |
| compressor_invariants.dfy | `CompressorInvariants` | what one call does: invariant, cases, output order, `finalize` |
| compressor_runs.dfy | `CompressorRuns` | whole input streams, time order, flush records |
| compressor_accounting.dfy | `CompressorAccounting` | no event lost or duplicated |
| event_compressor.dfy | `KeyboardCompressor` | the imperative `EventCompressor` class |
| compressor_scenarios.dfy | `CompressorScenarios` | two worked inputs |
| video_screen.dfy | `VideoScreenObserver` | the screen observer's helpers and its path queue |

Two facts about keyboard_compressor.py that shape the model:

- `num_chars` of a `typed_string` is `len(combined_string)` (line 60),
  the length of the joined text. It differs from the number of buffered
  elements when a key is written as several characters (such as
  `"<65>"`); `CompressorTypes.JoinCharsLength` states by how much.
- `TYPING_MAX_INTERKEY_DELTA` is 1.0 s (line 6).

## Model

| member | source | states |
|---|---|---|
| Decimal.IntToString | gum/observers/keyboard_compressor.py:201 | `str()` of an integer coordinate; `IntRoundTrip`, `IntToStringInjective` and `IntToStringHasNoUnderscore` state it |
| Decimal.NatRoundTrip | gum/observers/keyboard_compressor.py:201 | the decimal text of a non-negative coordinate is all digits and parses back to the number |
| Decimal.IntRoundTrip | gum/observers/keyboard_compressor.py:201 | `str(x)` of any integer, including negative ones, parses back to `x` |
| Decimal.IntToStringInjective | gum/observers/keyboard_compressor.py:201 | different coordinates have different decimal texts |
| Decimal.IntToStringHasNoUnderscore | gum/observers/keyboard_compressor.py:201 | the text of a coordinate is non-empty and holds no `_`, so the identity's separators are unambiguous |
| Decimal.NatToString | gum/observers/keyboard_compressor.py:201 | the decimal digits of a non-negative coordinate in the click identity; `NatRoundTrip` states it |
| Decimal.Pad2 | gum/observers/video_screen.py:169 | `{n:02d}` of a non-negative number; `Pad2RoundTrip` states it |
| Decimal.Pad2RoundTrip | gum/observers/video_screen.py:169 | `{n:02d}` is at least two digits, exactly two below 100, and reads back as `n` |
| CompressorTypes.ParseInput | gum/observers/keyboard_compressor.py:123-254 | the dispatch of `process_event` on `device` and `type`: keyboard events, and only they, become `Key` with the event's key and a press or release exactly when the type says so; mouse click, move and scroll exactly by type; any other device becomes `OtherDevice`; the result is well formed |
| CompressorTypes.ParseInputOnto | gum/observers/keyboard_compressor.py:123-254 | every well-formed input value is the dispatch of some raw event |
| CompressorTypes.IsCharKey | gum/observers/keyboard_compressor.py:10-16 | `is_char_key`; `IsCharKeyCases` states its cases |
| CompressorTypes.ToChar | gum/observers/keyboard_compressor.py:18-22 | `to_char`; `ToCharOfCharKey` states it |
| CompressorTypes.KeyboardId | gum/observers/keyboard_compressor.py:144 | the pending identity of a key; `KeyboardIdInjective` and `KeyboardMouseIdsDiffer` state it |
| CompressorTypes.MouseId | gum/observers/keyboard_compressor.py:201 | the pending identity of a button at a position; `MouseIdInjective` states it |
| CompressorTypes.TypedStringRecord | gum/observers/keyboard_compressor.py:42-63 | the `typed_string` record of a buffer; `FlushTypedSpec` and `JoinCharsLength` state it |
| CompressorTypes.CondensedMoveRecord | gum/observers/keyboard_compressor.py:65-84 | the `condensed_move` record of a buffer; `FlushMovesSpec` and `MoveRunCondensed` state it |
| CompressorTypes.CondensedScrollRecord | gum/observers/keyboard_compressor.py:86-112 | the `condensed_scroll` record of a buffer; `FlushScrollsSpec`, `ScrollTotalsSplit` and `ScrollRunCondensed` state it |
| CompressorTypes.IsCharKeyCases | gum/observers/keyboard_compressor.py:10-16 | `is_char_key` is false for "", true among `Key.` names only for `Key.space`, and true for every other non-empty string |
| CompressorTypes.ToCharOfCharKey | gum/observers/keyboard_compressor.py:18-22 | `to_char` of a character key is non-empty; it maps `Key.space` to " " and returns every other key unchanged |
| CompressorTypes.KeyboardIdInjective | gum/observers/keyboard_compressor.py:144 | two keys share a pending identity only if they are the same key |
| CompressorTypes.MouseIdInjective | gum/observers/keyboard_compressor.py:201 | two mouse identities are equal only for the same button and the same coordinates |
| CompressorTypes.KeyboardMouseIdsDiffer | gum/observers/keyboard_compressor.py:144 | a keyboard identity never equals a mouse identity |
| CompressorTypes.JoinChars | gum/observers/keyboard_compressor.py:49 | the buffered characters' texts joined in buffer order; `JoinCharsSnoc`, `JoinCharsAppend` and `JoinCharsLength` state it |
| CompressorTypes.IsCharKeyEvent | gum/observers/keyboard_compressor.py:130 | a keyboard event whose key is a character key, the test that keeps the typed run open; `PreFlushSpec` states how the flushes use it |
| CompressorTypes.SumDx | gum/observers/keyboard_compressor.py:93 | the sum of the buffered scrolls' `dx` steps; `SumAppend` and `ScrollSamplesTotals` state it |
| CompressorTypes.SumDy | gum/observers/keyboard_compressor.py:94 | the sum of the buffered scrolls' `dy` steps; `SumAppend` and `ScrollSamplesTotals` state it |
| CompressorTypes.JoinCharsLength | gum/observers/keyboard_compressor.py:49-60 | the joined text has at least one character per element, and strictly more once an element is longer than one character |
| PendingPresses.Find | gum/observers/keyboard_compressor.py:148 | `id in pending`: the position of the one entry with that identity, or -1 exactly when there is none |
| PendingPresses.Assign | gum/observers/keyboard_compressor.py:150 | `pending[id] = event` (also at line 207); `AssignSpec` states it |
| PendingPresses.RemoveAt | gum/observers/keyboard_compressor.py:149 | `pop` removes that entry and keeps the others in order |
| PendingPresses.RemoveAtKeepsDistinct | gum/observers/keyboard_compressor.py:149 | after the pop no identity is held twice and the popped identity is absent |
| PendingPresses.AssignSpec | gum/observers/keyboard_compressor.py:150 | `pending[id] = event` binds `id` once to the event; a new identity becomes the last entry and the others are untouched; an existing identity keeps its place and every other entry keeps its place and value |
| CompressorSpec.PendingRecords | gum/observers/keyboard_compressor.py:263-264 | one raw record per pending press, in insertion order |
| CompressorSpec.Init | gum/observers/keyboard_compressor.py:25-37 | the fresh state; `InitValid` states that it is valid and holds nothing |
| CompressorSpec.Write | gum/observers/keyboard_compressor.py:39-40 | appends one record to the output |
| CompressorSpec.FlushTyped | gum/observers/keyboard_compressor.py:42-63 | the typed flush; its record is stated by `FlushTypedSpec`, its invariant by `FlushTypedValid` |
| CompressorSpec.FlushMoves | gum/observers/keyboard_compressor.py:65-84 | the move flush; its record is stated by `FlushMovesSpec` |
| CompressorSpec.FlushScrolls | gum/observers/keyboard_compressor.py:86-112 | the scroll flush; its record is stated by `FlushScrollsSpec` |
| CompressorSpec.FlushAll | gum/observers/keyboard_compressor.py:114-121 | the timeout flush, covered by `PreFlushSpec` |
| CompressorSpec.TypeChangeFlush | gum/observers/keyboard_compressor.py:130-135 | flushes every buffer the event does not continue, covered by `PreFlushSpec` |
| CompressorSpec.PreFlush | gum/observers/keyboard_compressor.py:128-138 | both flushes before classification; `PreFlushSpec` states what they do and keep |
| CompressorSpec.HandlePress | gum/observers/keyboard_compressor.py:146-150 | a press; `PressCases` and `HandlePressSpec` state its cases |
| CompressorSpec.AppendTyped | gum/observers/keyboard_compressor.py:167-185 | a quick character click joins or starts the typed run; `AppendTypedValid` and `TypedReleaseAppends` state it |
| CompressorSpec.PairedKeyRelease | gum/observers/keyboard_compressor.py:155-191 | a matched key release; `PairedKeyReleaseSpec` states its cases |
| CompressorSpec.HandleKeyRelease | gum/observers/keyboard_compressor.py:152-193 | a key release; `KeyReleaseCases` states its cases |
| CompressorSpec.PairedMouseRelease | gum/observers/keyboard_compressor.py:211-223 | a matched button release; `PairedMouseReleaseSpec` states its cases |
| CompressorSpec.HandleMouseRelease | gum/observers/keyboard_compressor.py:208-225 | a button release; `MouseReleaseCases` states its cases |
| CompressorSpec.HandleMove | gum/observers/keyboard_compressor.py:227-234 | a move; `MoveJoinsRun` and `MoveStartsRun` state what it does to the run |
| CompressorSpec.HandleScroll | gum/observers/keyboard_compressor.py:236-248 | a scroll; `ScrollJoinsRun` and `ScrollStartsRun` state what it does to the run |
| CompressorSpec.Handle | gum/observers/keyboard_compressor.py:141-254 | classification after the flushes; `HandleValid` and `HandleOrder` state it |
| CompressorSpec.Step | gum/observers/keyboard_compressor.py:123-254 | `process_event`; `StepValid`, `StepOutputOrder`, `StepConserves` and the run lemmas state it |
| CompressorSpec.FlushBuffers | gum/observers/keyboard_compressor.py:258-260 | the three flushes of `finalize`; `FlushBuffersSpec` states them |
| CompressorSpec.Finalize | gum/observers/keyboard_compressor.py:256-264 | `finalize`; `FinalizeSpec` states what it writes |
| CompressorSpec.Run | gum/observers/keyboard_compressor.py:277-280 | the loop over the input, one `process_event` per event; `RunAppend`, `RunValid` and `RunConserves` state it |
| CompressorInvariants.FlushBuffersSpec | gum/observers/keyboard_compressor.py:258-260 | flushing typed, move and scroll buffers in turn writes the summary of the one open buffer, if any, and keeps the invariant |
| CompressorInvariants.PreFlushSpec | gum/observers/keyboard_compressor.py:128-138 | the type-change and timeout flushes either change nothing or flush the open buffer; afterwards only a buffer the event continues is open, and an open buffer has not timed out; conversely an open buffer that the event continues within its threshold is kept, and then nothing changes |
| CompressorInvariants.PreFlushKeepsPending | gum/observers/keyboard_compressor.py:128-138 | the flushes never touch the pending presses |
| CompressorInvariants.RemoveKeepsPendingOk | gum/observers/keyboard_compressor.py:149 | popping a pending press keeps the pending map well formed |
| CompressorInvariants.AssignKeepsPendingOk | gum/observers/keyboard_compressor.py:150 | storing a press under its own identity keeps the pending map well formed |
| CompressorInvariants.FlushTypedValid | gum/observers/keyboard_compressor.py:42-63 | the typed flush keeps the invariant, empties the typed buffer and leaves the other buffers and the pending presses alone |
| CompressorInvariants.HandlePressShape | gum/observers/keyboard_compressor.py:146-150 | a press changes only the pending map and the output; a stale press with the same identity is written first |
| CompressorInvariants.HandlePressSpec | gum/observers/keyboard_compressor.py:146-150 | after a press the invariant holds, the new press is the last pending entry, and a stale press was written and dropped |
| CompressorInvariants.TypedExtendValid | gum/observers/keyboard_compressor.py:172-177 | appending a close-enough character click keeps the invariant |
| CompressorInvariants.AppendTypedValid | gum/observers/keyboard_compressor.py:167-185 | a quick character click keeps the invariant in both the append and the new-run branch |
| CompressorInvariants.MoveExtendValid | gum/observers/keyboard_compressor.py:228-230 | appending a close-enough move keeps the invariant |
| CompressorInvariants.HandleMoveValid | gum/observers/keyboard_compressor.py:227-234 | a move keeps the invariant and the pending presses |
| CompressorInvariants.ScrollExtendValid | gum/observers/keyboard_compressor.py:242-244 | appending a close-enough scroll keeps the invariant |
| CompressorInvariants.HandleScrollValid | gum/observers/keyboard_compressor.py:236-248 | a scroll keeps the invariant and the pending presses |
| CompressorInvariants.KeyClickValid | gum/observers/keyboard_compressor.py:186-188 | a quick click of a non-character key empties the typed buffer and keeps the invariant |
| CompressorInvariants.SlowPairValid | gum/observers/keyboard_compressor.py:189-191 | a slow pair only writes the press and the release |
| CompressorInvariants.PairedKeyReleaseValid | gum/observers/keyboard_compressor.py:155-191 | a matched key release keeps the invariant; the typed buffer is open afterwards only for a character key or a run already open |
| CompressorInvariants.HandleKeyReleaseValid | gum/observers/keyboard_compressor.py:152-193 | every key release keeps the invariant and leaves the mouse buffers alone |
| CompressorInvariants.PairedMouseReleaseValid | gum/observers/keyboard_compressor.py:211-223 | a matched button release only writes records and keeps the invariant |
| CompressorInvariants.HandleMouseReleaseValid | gum/observers/keyboard_compressor.py:208-225 | every button release changes only the pending map and the output and keeps the invariant |
| CompressorInvariants.HandleValid | gum/observers/keyboard_compressor.py:141-254 | classifying the event after the flushes keeps the invariant; an open buffer afterwards is one the event continued |
| CompressorInvariants.StepValid | gum/observers/keyboard_compressor.py:123-254 | `process_event` keeps the invariant: distinct identities, at most one open buffer, clocks at 0 or at the newest element, consecutive elements within their threshold; a non-empty typed, move or scroll buffer means the event was a character key, a move or a scroll |
| CompressorInvariants.MoveJoinsRun | gum/observers/keyboard_compressor.py:227-230 | a move within `MOUSE_SEQUENCE_MAX_DELTA` of the open move run is appended to it with its time and position, the move clock becomes its time, and nothing else changes: nothing is written |
| CompressorInvariants.MoveStartsRun | gum/observers/keyboard_compressor.py:227-234 | a move with no open move run leaves a run holding just that move, its clock at the move's time, and the pending presses unchanged |
| CompressorInvariants.ScrollJoinsRun | gum/observers/keyboard_compressor.py:236-244 | a scroll within `MOUSE_SEQUENCE_MAX_DELTA` of the open scroll run is appended with its time, position and steps, and nothing else changes |
| CompressorInvariants.ScrollStartsRun | gum/observers/keyboard_compressor.py:236-248 | a scroll with no open scroll run leaves a run holding just that scroll and the pending presses unchanged |
| CompressorInvariants.CharPressKeepsRun | gum/observers/keyboard_compressor.py:128-150 | a character-key press within the typing threshold of the open typed run keeps the run and its clock: the call is just the press |
| CompressorInvariants.PreFlushKeepsTyped | gum/observers/keyboard_compressor.py:128-138 | a character-key event within the typing threshold of the open typed run leaves the flushes nothing to do |
| CompressorInvariants.TypedReleaseAppends | gum/observers/keyboard_compressor.py:152-177 | a quick release of a character key whose press is pending, within the typing threshold, pops the press and appends `to_char(key)` with the press time and duration to the typed run |
| CompressorInvariants.TypedJoinsRun | gum/observers/keyboard_compressor.py:152-177 | in `process_event`, such a release pops its press, appends the character to the open typed run, sets the typed clock to the press time and writes nothing |
| CompressorInvariants.KeyPressStored | gum/observers/keyboard_compressor.py:128-150 | a key press keeps the invariant, is stored under its identity, and leaves the typed run as the flushes left it |
| CompressorInvariants.PressStored | gum/observers/keyboard_compressor.py:146-150 | after `HandlePress` the press is the one stored under its identity and the typed run is untouched |
| CompressorInvariants.PreFlushKeepsNoTyped | gum/observers/keyboard_compressor.py:128-138 | with no typed run open, the flushes open none and keep the pending presses |
| CompressorInvariants.TypedReleaseOpens | gum/observers/keyboard_compressor.py:152-185 | a quick release of a character key whose press is pending, with no typed run open, starts a run holding just that character, its clock at the press time |
| CompressorInvariants.TypedOpensRun | gum/observers/keyboard_compressor.py:128-185 | in `process_event`, such a release with no typed run open leaves a run of that one character, its clock at the press time |
| CompressorInvariants.TooFarBranchesUnreachable | gum/observers/keyboard_compressor.py:178-185 | the "too far" branches at lines 178-185, 231-233 and 245-247 are never taken: for moves and scrolls on any input, for typed characters whenever the press is not after the release |
| CompressorInvariants.PreFlushNotAfter | gum/observers/keyboard_compressor.py:128-138 | the flushes store nothing new and keep the pending presses |
| CompressorInvariants.PairedKeyReleaseSpec | gum/observers/keyboard_compressor.py:155-191 | a matched key release, case by case: a quick character key appends `to_char(key)` and writes nothing; a quick other key writes one `key_click` with the press time, the key and the duration; a slow pair writes the press, then the release |
| CompressorInvariants.KeyPressFound | gum/observers/keyboard_compressor.py:153-154 | the press a key release finds is a press of that very key |
| CompressorInvariants.KeyReleaseCases | gum/observers/keyboard_compressor.py:152-193 | a release with no pending press is written alone; otherwise the press is removed and the duration and kind of key decide between typed buffer, `key_click`, or press then release (threshold inclusive) |
| CompressorInvariants.PairedMouseReleaseSpec | gum/observers/keyboard_compressor.py:211-223 | a quick matched pair writes one `mouse_click` with the press time, the release coordinates, the button and the duration; a slow one writes the press, then the release |
| CompressorInvariants.MousePressFound | gum/observers/keyboard_compressor.py:201-210 | the press a button release finds has the same button and coordinates; when none is found, no such press is pending |
| CompressorInvariants.MouseReleaseCases | gum/observers/keyboard_compressor.py:208-225 | a release with no matching press is written alone and every pending press stays; otherwise the press is removed and the duration decides between `mouse_click` and press then release |
| CompressorInvariants.ReleaseOtherIdKeepsEntry | gum/observers/keyboard_compressor.py:209-210 | a release pops only the entry stored under its own identity |
| CompressorInvariants.ReleaseElsewhereKeepsPress | gum/observers/keyboard_compressor.py:201-225 | a pending press of another button or at other coordinates is still pending after a release |
| CompressorInvariants.PressCases | gum/observers/keyboard_compressor.py:146-150 | a key or button press (also lines 203-207) writes a stale press with the same identity, drops it, and stores the new press last; no identity is pending twice |
| CompressorInvariants.OtherKeyActionOnlyFlushes | gum/observers/keyboard_compressor.py:142-152 | a keyboard event that is neither press nor release only runs the flushes |
| CompressorInvariants.HandleWritesNoSummary | gum/observers/keyboard_compressor.py:141-254 | on time-ordered input the event itself writes no buffer summary |
| CompressorInvariants.HandleOrder | gum/observers/keyboard_compressor.py:141-254 | the records after the flushes are plain, so a summary can only be the first record of the call |
| CompressorInvariants.StepOutputOrder | gum/observers/keyboard_compressor.py:128-138 | one call appends to the output; at most one summary is written, it is that of the buffer open before the call, and it precedes every record the event itself writes; a buffer the event does not continue is written first |
| CompressorInvariants.FinalizeSpec | gum/observers/keyboard_compressor.py:256-264 | `finalize` writes the summary of the open buffer, then every pending press in insertion order, and leaves everything empty |
| CompressorRuns.RunAppend | gum/observers/keyboard_compressor.py:277-280 | feeding one more event is one more `process_event` |
| CompressorRuns.RunValid | gum/observers/keyboard_compressor.py:277-280 | the invariant holds after any sequence of events |
| CompressorRuns.PressNotAfter | gum/observers/keyboard_compressor.py:150 | storing a press keeps every stored time at or before the event |
| CompressorRuns.PairedKeyReleaseNotAfter | gum/observers/keyboard_compressor.py:177 | a matched key release stores the press time as the typed clock, no later than the release |
| CompressorRuns.KeyReleaseNotAfter | gum/observers/keyboard_compressor.py:152-193 | a key release stores nothing later than itself |
| CompressorRuns.MouseReleaseNotAfter | gum/observers/keyboard_compressor.py:208-225 | a button release stores nothing later than itself |
| CompressorRuns.HandleNotAfter | gum/observers/keyboard_compressor.py:141-254 | classification stores nothing later than the event |
| CompressorRuns.StepNotAfter | gum/observers/keyboard_compressor.py:123-254 | after `process_event` no stored time lies after that event |
| CompressorRuns.StepInOrder | gum/observers/keyboard_compressor.py:123-254 | on time-ordered input one call keeps the invariant and stores nothing later than the next event |
| CompressorRuns.RunInOrder | gum/observers/keyboard_compressor.py:277-280 | before each event of a time-ordered stream the state is valid and holds nothing later than that event |
| CompressorRuns.InOrderStream | gum/observers/keyboard_compressor.py:178-185 | on a time-ordered stream from a fresh compressor, the "too far" branches for typed characters (and at lines 231-233, 245-247) are never taken |
| CompressorRuns.JoinCharsAppend | gum/observers/keyboard_compressor.py:49 | the joined text of two buffers is the join of each |
| CompressorRuns.JoinCharsSnoc | gum/observers/keyboard_compressor.py:49 | the text is the characters in the order their keys were released |
| CompressorRuns.SumAppend | gum/observers/keyboard_compressor.py:93-94 | the scroll totals of two buffers add up |
| CompressorRuns.FlushTypedSpec | gum/observers/keyboard_compressor.py:42-63 | an empty buffer writes nothing; otherwise one `typed_string` with the first press time, the joined text, duration `last.ts + last.duration - first.ts` and `num_chars` the text length, then an empty buffer with its clock at 0 |
| CompressorRuns.FlushMovesSpec | gum/observers/keyboard_compressor.py:65-84 | an empty buffer writes nothing; otherwise one `condensed_move` from the first to the last sample with their time difference and the buffer length, then an empty buffer with its clock at 0 |
| CompressorRuns.FlushScrollsSpec | gum/observers/keyboard_compressor.py:86-112 | an empty buffer writes nothing; otherwise one `condensed_scroll` with the summed `dx` and `dy`, the time difference and the buffer length, then an empty buffer with its clock at 0 |
| CompressorRuns.ScrollTotalsSplit | gum/observers/keyboard_compressor.py:93-109 | a scroll run written in two pieces has the same totals and count as one |
| CompressorRuns.MoveSamples | gum/observers/keyboard_compressor.py:228-230 | the samples a stream of moves is buffered as: one per move, the first and last holding the first and last move's time and position |
| CompressorRuns.MoveSamplesAt | gum/observers/keyboard_compressor.py:228-230 | sample `k` is the time and position of move `k` |
| CompressorRuns.ScrollSamples | gum/observers/keyboard_compressor.py:242-244 | the samples a stream of scrolls is buffered as: one per scroll, the first and last holding the first and last scroll's fields |
| CompressorRuns.ScrollSamplesAt | gum/observers/keyboard_compressor.py:242-244 | sample `k` is the time, position and steps of scroll `k` |
| CompressorRuns.ScrollSamplesTotals | gum/observers/keyboard_compressor.py:93-94 | the summed `dx` and `dy` of the buffered samples are the sums of the stream's steps |
| CompressorRuns.MoveHead | gum/observers/keyboard_compressor.py:227-230 | the first move of a close-together stream joins the open run, and the rest of the stream meets the same conditions |
| CompressorRuns.MovesExtendRun | gum/observers/keyboard_compressor.py:227-234 | a stream of close-together moves continuing an open move run appends one sample per move, sets the clock to the last move's time, writes nothing and changes nothing else |
| CompressorRuns.MoveStart | gum/observers/keyboard_compressor.py:227-234 | the first move of a stream with no open move run starts one and keeps the pending presses |
| CompressorRuns.MoveRunCondensed | gum/observers/keyboard_compressor.py:65-84 | a stream of close-together moves with no open run is buffered as one run, written as a single `condensed_move` from the first position to the last, over their time difference, counting every move |
| CompressorRuns.ScrollHead | gum/observers/keyboard_compressor.py:236-244 | the first scroll of a close-together stream joins the open run, and the rest of the stream meets the same conditions |
| CompressorRuns.ScrollsExtendRun | gum/observers/keyboard_compressor.py:236-248 | a stream of close-together scrolls continuing an open scroll run appends one sample per scroll, writes nothing and changes nothing else |
| CompressorRuns.ScrollStart | gum/observers/keyboard_compressor.py:236-248 | the first scroll of a stream with no open scroll run starts one and keeps the pending presses |
| CompressorRuns.ScrollRunCondensed | gum/observers/keyboard_compressor.py:86-112 | a stream of close-together scrolls with no open run is written as a single `condensed_scroll` whose totals are the sums of the stream's steps, over the time from first to last, counting every scroll |
| CompressorRuns.TapEvents | gum/observers/keyboard_compressor.py:123-126 | the input stream of a sequence of key clicks: a press then a release each, two events per click |
| CompressorRuns.TapChars | gum/observers/keyboard_compressor.py:172-176 | one buffered character per click, the first and last being those of the first and last clicks |
| CompressorRuns.JoinCharsCons | gum/observers/keyboard_compressor.py:49 | joining a buffer starting with one character is that character followed by the join of the rest |
| CompressorRuns.TapCharsText | gum/observers/keyboard_compressor.py:49 | the joined text of the clicks' buffered characters is their `to_char` texts in order |
| CompressorRuns.TapPress | gum/observers/keyboard_compressor.py:128-150 | the press of a quick character click keeps the invariant and the typed run and is stored under its identity |
| CompressorRuns.StepKeepsValid | gum/observers/keyboard_compressor.py:123-254 | one `process_event` keeps the invariant |
| CompressorRuns.TapReleaseJoins | gum/observers/keyboard_compressor.py:152-177 | the release of such a click within the typing threshold appends its character to the open typed run, the clock at its press |
| CompressorRuns.TapReleaseOpens | gum/observers/keyboard_compressor.py:152-185 | the release of such a click with no typed run open starts a run holding just its character |
| CompressorRuns.TapRelease | gum/observers/keyboard_compressor.py:152-185 | the release of a stored quick character click joins or opens the typed run |
| CompressorRuns.TapStep | gum/observers/keyboard_compressor.py:146-185 | a quick character click, released within the typing threshold of an open run, appends its character to the typed buffer; with no run open it starts one |
| CompressorRuns.TypingRunTail | gum/observers/keyboard_compressor.py:114-117 | the clicks after the first of a typing run still form one, and the second is released within `TYPING_MAX_INTERKEY_DELTA` of the first press, so the flush at its release keeps the run |
| CompressorRuns.TapHead | gum/observers/keyboard_compressor.py:146-185 | the first click of a typing run joins or opens the typed run, and the rest meets the same conditions |
| CompressorRuns.RunTwo | gum/observers/keyboard_compressor.py:277-280 | feeding two events then a stream is feeding the two one after the other, then the stream |
| CompressorRuns.RunTapsIsRun | gum/observers/keyboard_compressor.py:277-280 | feeding the press and release of each click in turn is feeding the whole event stream |
| CompressorRuns.TapsCombine | gum/observers/keyboard_compressor.py:172-177 | the first click's character followed by the rest's is the whole run's |
| CompressorRuns.TypedExtendRun | gum/observers/keyboard_compressor.py:146-185 | a typing run appends one buffered character per click, in order, to the typed buffer, with its clock at the last press |
| CompressorRuns.TapsRecord | gum/observers/keyboard_compressor.py:42-63 | the `typed_string` of a typing run's characters starts at the first press, holds the clicks' texts joined, lasts until the last release and counts that text's length |
| CompressorRuns.TypedRunFlush | gum/observers/keyboard_compressor.py:42-63 | a typed buffer holding a typing run's characters flushes to that one `typed_string` |
| CompressorRuns.TypedRunCondensed | gum/observers/keyboard_compressor.py:42-63 | a typing run fed with no typed run open is buffered as one run and written as a single `typed_string` of the joined characters, from the first press to the last release |
| CompressorAccounting.FlushTypedConserves | gum/observers/keyboard_compressor.py:42-63 | the typed flush writes exactly the events it held |
| CompressorAccounting.FlushMovesConserves | gum/observers/keyboard_compressor.py:65-84 | the move flush writes exactly the events it held |
| CompressorAccounting.FlushScrollsConserves | gum/observers/keyboard_compressor.py:86-112 | the scroll flush writes exactly the events it held |
| CompressorAccounting.DrainedConserves | gum/observers/keyboard_compressor.py:258-260 | flushing every buffer writes exactly the events held in them |
| CompressorAccounting.PreFlushConserves | gum/observers/keyboard_compressor.py:128-138 | the flushes before classification lose and invent no event |
| CompressorAccounting.PressConserves | gum/observers/keyboard_compressor.py:146-150 | a press is stored or written, with a replaced stale press written |
| CompressorAccounting.AppendTypedConserves | gum/observers/keyboard_compressor.py:167-185 | a typed click's two events go into the buffer |
| CompressorAccounting.PairedKeyReleaseConserves | gum/observers/keyboard_compressor.py:155-191 | a matched key release accounts for the press and the release |
| CompressorAccounting.KeyReleaseConserves | gum/observers/keyboard_compressor.py:152-193 | every key release accounts for itself and the press it consumes |
| CompressorAccounting.PairedMouseReleaseConserves | gum/observers/keyboard_compressor.py:211-223 | a matched button release accounts for the press and the release |
| CompressorAccounting.MouseReleaseConserves | gum/observers/keyboard_compressor.py:208-225 | every button release accounts for itself and the press it consumes |
| CompressorAccounting.MoveConserves | gum/observers/keyboard_compressor.py:227-234 | a move is buffered or written with its run |
| CompressorAccounting.ScrollConserves | gum/observers/keyboard_compressor.py:236-248 | a scroll is buffered or written with its run |
| CompressorAccounting.KeyConserves | gum/observers/keyboard_compressor.py:141-193 | a keyboard event moves its weight into the state or the output |
| CompressorAccounting.ClickConserves | gum/observers/keyboard_compressor.py:196-225 | a click event moves its weight into the state or the output |
| CompressorAccounting.HandleConserves | gum/observers/keyboard_compressor.py:141-254 | classification moves the event into the state or the output |
| CompressorAccounting.StepConserves | gum/observers/keyboard_compressor.py:123-254 | one `process_event`: held events plus written events grow by exactly the event's weight |
| CompressorAccounting.RunConserves | gum/observers/keyboard_compressor.py:277-280 | after a run, the events held plus those written equal those held before plus the input |
| CompressorAccounting.OpenSummariesWeight | gum/observers/keyboard_compressor.py:258-260 | the summary of an open buffer stands for the events it holds |
| CompressorAccounting.FinalizeConserves | gum/observers/keyboard_compressor.py:256-264 | `finalize` writes out every held event and leaves none |
| CompressorAccounting.PendingRecordsWeight | gum/observers/keyboard_compressor.py:263-264 | the pending presses are written one record each |
| CompressorAccounting.InitValid | gum/observers/keyboard_compressor.py:25-37 | a fresh compressor satisfies the invariant and holds nothing |
| CompressorAccounting.EveryEventAccounted | gum/observers/keyboard_compressor.py:123-264 | from a fresh compressor through `finalize`, the records written weigh, counted by the input events each record replaces, as much as the input: every press, release, click, move, scroll and other-device event is accounted for, and nothing stays held |
| CompressorAccounting.WeightZeroIff | gum/observers/keyboard_compressor.py:142-193 | the only events that produce no record are keyboard events that are neither press nor release |
| CompressorAccounting.TotalWeightCounts | gum/observers/keyboard_compressor.py:142-193 | the events accounted for are all inputs minus those keyboard events of another type |
| KeyboardCompressor.EventCompressor.constructor | gum/observers/keyboard_compressor.py:25-37 | no pending presses, empty buffers, clocks at 0, nothing written; the invariant holds |
| KeyboardCompressor.EventCompressor.WriteEvent | gum/observers/keyboard_compressor.py:39-40 | appends one record to the output |
| KeyboardCompressor.EventCompressor.FlushTypedCharBuffer | gum/observers/keyboard_compressor.py:42-63 | updates the fields as `FlushTyped` (specified by `FlushTypedSpec`) |
| KeyboardCompressor.EventCompressor.FlushMouseMoveBuffer | gum/observers/keyboard_compressor.py:65-84 | updates the fields as `FlushMoves` (specified by `FlushMovesSpec`) |
| KeyboardCompressor.EventCompressor.FlushMouseScrollBuffer | gum/observers/keyboard_compressor.py:86-112 | sums the buffer in a loop and updates the fields as `FlushScrolls` (specified by `FlushScrollsSpec`) |
| KeyboardCompressor.EventCompressor.FlushAllBuffers | gum/observers/keyboard_compressor.py:114-121 | flushes each buffer whose last time is more than its threshold before `current_ts` |
| KeyboardCompressor.EventCompressor.Press | gum/observers/keyboard_compressor.py:146-150 | updates the fields as `HandlePress` (cases in `PressCases`) |
| KeyboardCompressor.EventCompressor.AppendTypedChar | gum/observers/keyboard_compressor.py:167-185 | updates the fields as `AppendTyped` |
| KeyboardCompressor.EventCompressor.PairedKeyReleaseOf | gum/observers/keyboard_compressor.py:155-191 | updates the fields as `PairedKeyRelease` (cases in `PairedKeyReleaseSpec`) |
| KeyboardCompressor.EventCompressor.KeyRelease | gum/observers/keyboard_compressor.py:152-193 | updates the fields as `HandleKeyRelease` (cases in `KeyReleaseCases`) |
| KeyboardCompressor.EventCompressor.PairedMouseReleaseOf | gum/observers/keyboard_compressor.py:211-223 | updates the fields as `PairedMouseRelease` (cases in `PairedMouseReleaseSpec`) |
| KeyboardCompressor.EventCompressor.MouseRelease | gum/observers/keyboard_compressor.py:208-225 | updates the fields as `HandleMouseRelease` (cases in `MouseReleaseCases`) |
| KeyboardCompressor.EventCompressor.MouseMove | gum/observers/keyboard_compressor.py:227-234 | updates the fields as `HandleMove`; through `process_event`, a move within the threshold joins the open run (`MoveJoinsRun`, `MovesExtendRun`) |
| KeyboardCompressor.EventCompressor.MouseScroll | gum/observers/keyboard_compressor.py:236-248 | updates the fields as `HandleScroll`; through `process_event`, a scroll within the threshold joins the open run (`ScrollJoinsRun`, `ScrollsExtendRun`) |
| KeyboardCompressor.EventCompressor.Classify | gum/observers/keyboard_compressor.py:141-254 | updates the fields as `Handle` |
| KeyboardCompressor.EventCompressor.ProcessEvent | gum/observers/keyboard_compressor.py:123-254 | updates the fields exactly as `Step`, which `StepValid`, `StepOutputOrder` and `StepConserves` describe |
| KeyboardCompressor.EventCompressor.WritePendingEvents | gum/observers/keyboard_compressor.py:263-264 | pops every pending press in a loop, writing each in insertion order, and leaves the map empty |
| KeyboardCompressor.EventCompressor.Finalize | gum/observers/keyboard_compressor.py:256-264 | updates the fields as `CompressorSpec.Finalize` (see `FinalizeSpec`) and leaves nothing pending or buffered |
| KeyboardCompressor.EventCompressor.ProcessEvents | gum/observers/keyboard_compressor.py:277-280 | one `process_event` per event in order; a valid object stays valid |
| KeyboardCompressor.CompressEvents | gum/observers/keyboard_compressor.py:275-282 | a fresh compressor fed the events and finalized writes the records of the state machine |
| CompressorScenarios.TypingHi | gum/observers/keyboard_compressor.py:167-177 | quick clicks of `h` then `i` are written as one `typed_string` "hi" from the first press to the last release |
| CompressorScenarios.ClickMovedApart | gum/observers/keyboard_compressor.py:201-225 | a button released one pixel away from its press is written alone, and the press is written by `finalize` |
| VideoScreenObserver.MonFor | gum/observers/video_screen.py:92-97 | returns the 1-based index of the first monitor whose half-open rectangle holds the point, and `None` exactly when none does |
| VideoScreenObserver.Recent | gum/observers/video_screen.py:83 | the last `k` paths appended, oldest first |
| VideoScreenObserver.RecentAppend | gum/observers/video_screen.py:219 | appending to the bounded history keeps the last `k` of everything appended |
| VideoScreenObserver.MaxTimeLabel | gum/observers/video_screen.py:166-169 | the `{max_time}` label `MM:SS` of a total in seconds; `MaxTimeLabelRoundTrip` states it |
| VideoScreenObserver.MaxTimeLabelRoundTrip | gum/observers/video_screen.py:166-169 | the label is two digits, a colon and two digits, and reads back as minutes and seconds of the total |
| VideoScreenObserver.DefaultMaxTime | gum/observers/video_screen.py:166-169 | with 30 screenshots of 1 s each the label is "00:30" |
| VideoScreenObserver.OccursShift | gum/observers/video_screen.py:169 | an occurrence in the tail of a text is an occurrence one position on |
| VideoScreenObserver.ReplaceAbsent | gum/observers/video_screen.py:169 | `replace` leaves a prompt without the placeholder unchanged |
| VideoScreenObserver.ReplaceAfterPlain | gum/observers/video_screen.py:169 | `replace` keeps the text before the first placeholder and substitutes it |
| VideoScreenObserver.ReplaceAll | gum/observers/video_screen.py:169 | `str.replace` of every occurrence, left to right; `ReplaceAbsent` and `ReplaceAfterPlain` state it |
| VideoScreenObserver.CaptionPrompt | gum/observers/video_screen.py:169 | the prompt with `{max_time}` replaced by the label of the default batch; `CaptionPromptAt` states it |
| VideoScreenObserver.CaptionPromptAt | gum/observers/video_screen.py:169 | the first `{max_time}` in the prompt becomes "00:30", the text before it is kept, and the rest is treated the same way |
| VideoScreenObserver.VideoScreen.constructor | gum/observers/video_screen.py:82-83 | empty queue and history; the history bound is `max(0, history_k)` |
| VideoScreenObserver.VideoScreen.QueueScreenshots | gum/observers/video_screen.py:219-222 | the before-path is appended to the history and the queue, the after-path to the queue only when it is a non-empty string; the queue grows by 1 or 2 and keeps its earlier contents |
| VideoScreenObserver.VideoScreen.MaybeFlushVideo | gum/observers/video_screen.py:195-206 | below the threshold nothing changes; otherwise the first 30 paths are handed out and the rest stays queued |
| VideoScreenObserver.VideoScreen.ProcessEvent | gum/observers/video_screen.py:217-224 | queues the paths, then cuts a batch; the history stays the last `max(0, history_k)` before-paths and the queue stays shorter than a batch |
| VideoScreenObserver.Added | gum/observers/video_screen.py:221-222 | an after-path adds one queued path exactly when it is present and non-empty |
| VideoScreenObserver.Batch | gum/observers/video_screen.py:200-206 | no batch below 30 queued paths; otherwise 30 paths which, followed by the remainder, are the queue |
| VideoScreenObserver.Remainder | gum/observers/video_screen.py:203-206 | the queue is unchanged below the threshold, else it loses its first 30 paths |
| VideoScreenObserver.QueueStaysShort | gum/observers/video_screen.py:200-206 | a queue shorter than a batch, grown by one event and cut, is shorter than a batch again |

## Left out

- File output: `open`, `json.dumps`, `close` and `print` (keyboard_compressor.py lines 26, 40, 266-267). The output is the sequence of records written.
- The `__main__` JSONL reader (lines 271-282). The input is a sequence of event values; `CompressEvents` is the loop over it.
- Floating-point timestamps. Times are integer ticks of 10 microseconds, so `round(..., 5)` needs no model.
- Extra fields of raw events, other than those the compressor reads, are not kept. A raw record holds the parsed event. `ParseInput` maps the fields it reads (`RawFields`) to an `Input`; the state machine takes any `Input` and dispatches on its constructor, which agrees with the source on the well-formed values `ParseInput` produces.
- The `float('inf')` default of `_flush_all_buffers` is not modelled; the source calls it only with the event's timestamp.
- Event dictionaries missing a field the code reads (a `KeyError` in the source) are not modelled. Every event value has the fields of its kind.
- Mouse coordinates of compressor events are modelled as integers, although the screen observer's pynput callbacks declare them as floats (video_screen.py lines 251 and 291). The `str()` of a float coordinate in the identity (such as `"12.0"`) is not modelled.
- CompressorAccounting.EveryEventAccounted: states conservation as event counts (each record weighs the events it replaces), not as a bijection between input events and records.
- KeyboardCompressor.EventCompressor.ProcessEvent: its contract is the equality with `Step`. Preserving the invariant is stated about `Step` (`StepValid`) and about whole runs (`ProcessEvents`, `RunValid`), not repeated on each call.
- VideoScreen: the pynput listener threads, the asyncio debounce timer, `flush`, the `mss` screen grabs, JPEG saving, the moviepy clip build, the Gemini call, the event-log append, the visibility guard and the `print` calls (such as the queue-length `print` at video_screen.py line 198). These are concurrency, timers, I/O and foreign libraries. `MaybeFlushVideo` returns the batch that the clip build and captioning would consume.
- The captioning prompt is a parameter; loading it from a file (`_load_prompt`) is not modelled.
- Monitor rectangles are modelled as integers and the cursor position as reals, as `mss` and the float-typed pynput callbacks give them.
- gum/observers/frame_screen.py, gum/observers/window_geometry.py and the example scripts are not part of this model. They are timer-driven glue, foreign display queries with floating-point polygon geometry, and scripts without logic.
