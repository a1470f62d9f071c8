/** Values of the event compressor (gum/observers/keyboard_compressor.py):
    the thresholds, raw input events, the records it writes, the elements of
    its three run buffers, the key helpers and the pending-press identities.

    Time is measured in integer ticks of 10 microseconds, so the source's
    `round(..., 5)` on a difference of timestamps is the identity. */
module CompressorTypes {
  import opened Decimal

  /** 0.7 s: longest press-to-release gap of a `key_click`. */
  const KeyClickMaxDelta: int := 70_000
  /** 0.7 s: longest press-to-release gap of a `mouse_click`. */
  const MouseClickMaxDelta: int := 70_000
  /** 1.0 s: longest gap between character presses inside one `typed_string`. */
  const TypingMaxInterkeyDelta: int := 100_000
  /** 0.5 s: longest gap between samples inside one condensed move or scroll. */
  const MouseSequenceMaxDelta: int := 50_000

  /** The `type` of a keyboard event; `OtherAction` holds any other string
      (see `WellFormedInput`). */
  datatype KeyAction = Press | Release | OtherAction(name: string)

  /** The device-specific part of a raw event, as `process_event` tells the
      cases apart. `OtherAction`, `OtherMouse` and `OtherDevice` are the
      fall-through cases of its dispatch; `WellFormedInput` states which
      strings they may hold, and `ParseInput` builds exactly those values. */
  datatype Input =
    | Key(action: KeyAction, key: string)
    | Click(x: int, y: int, button: string, pressed: bool)
    | Move(x: int, y: int)
    | Scroll(x: int, y: int, dx: int, dy: int)
    | OtherMouse(x: int, y: int, kind: string)
    | OtherDevice(device: string, kind: string)

  /** The fields of a raw event dictionary that `process_event` reads besides
      `ts`; a field the event's branch does not read is ignored. */
  datatype RawFields = RawFields(device: string, kind: string, key: string, x: int, y: int,
                                 button: string, pressed: bool, dx: int, dy: int)

  /** The fall-through cases carry only strings their dispatch did not match. */
  predicate WellFormedInput(i: Input)
  {
    match i
    case Key(action, _) => action.OtherAction? ==> action.name != "press" && action.name != "release"
    case OtherMouse(_, _, kind) => kind != "click" && kind != "move" && kind != "scroll"
    case OtherDevice(device, _) => device != "keyboard" && device != "mouse"
    case _ => true
  }

  /** The dispatch of `process_event` on `device` and `type`: keyboard press,
      release or another type; mouse click, move, scroll or another type;
      another device. */
  function ParseInput(f: RawFields): (i: Input)
    ensures WellFormedInput(i)
    ensures i.Key? <==> f.device == "keyboard"
    ensures i.OtherDevice? <==> f.device != "keyboard" && f.device != "mouse"
    ensures i.Key? ==> i.key == f.key && (i.action == Press <==> f.kind == "press")
                       && (i.action == Release <==> f.kind == "release")
    ensures f.device == "mouse" ==> (i.Click? <==> f.kind == "click") && (i.Move? <==> f.kind == "move")
                                    && (i.Scroll? <==> f.kind == "scroll")
  {
    if f.device == "keyboard" then
      var action := if f.kind == "press" then Press else if f.kind == "release" then Release else OtherAction(f.kind);
      Key(action, f.key)
    else if f.device == "mouse" then
      if f.kind == "click" then Click(f.x, f.y, f.button, f.pressed)
      else if f.kind == "move" then Move(f.x, f.y)
      else if f.kind == "scroll" then Scroll(f.x, f.y, f.dx, f.dy)
      else OtherMouse(f.x, f.y, f.kind)
    else OtherDevice(f.device, f.kind)
  }

  /** Every well-formed input is the dispatch of some raw event. */
  lemma ParseInputOnto(i: Input)
    requires WellFormedInput(i)
    ensures exists f :: ParseInput(f) == i
  {
    match i
    case Key(action, key) =>
      var kind := match action case Press => "press" case Release => "release" case OtherAction(name) => name;
      assert ParseInput(RawFields("keyboard", kind, key, 0, 0, "", false, 0, 0)) == i;
    case Click(x, y, button, pressed) =>
      assert ParseInput(RawFields("mouse", "click", "", x, y, button, pressed, 0, 0)) == i;
    case Move(x, y) =>
      assert ParseInput(RawFields("mouse", "move", "", x, y, "", false, 0, 0)) == i;
    case Scroll(x, y, dx, dy) =>
      assert ParseInput(RawFields("mouse", "scroll", "", x, y, "", false, dx, dy)) == i;
    case OtherMouse(x, y, kind) =>
      assert ParseInput(RawFields("mouse", kind, "", x, y, "", false, 0, 0)) == i;
    case OtherDevice(device, kind) =>
      assert ParseInput(RawFields(device, kind, "", 0, 0, "", false, 0, 0)) == i;
  }

  datatype Event = Event(ts: int, input: Input)

  /** One written line of the output. `Raw` is an input event passed through
      unchanged. */
  datatype Record =
    | Raw(event: Event)
    | KeyClick(ts: int, key: string, duration: int)
    | TypedString(ts: int, text: string, duration: int, numChars: nat)
    | MouseClick(ts: int, x: int, y: int, button: string, duration: int)
    | CondensedMove(ts: int, startX: int, startY: int, endX: int, endY: int, duration: int, numMoves: nat)
    | CondensedScroll(ts: int, totalDx: int, totalDy: int, duration: int, numScrolls: nat)
  {
    /** The records that summarise a run buffer. */
    predicate IsSummary() { TypedString? || CondensedMove? || CondensedScroll? }
  }

  /** An element of the typed-character buffer: the character text, the
      press time of its key and the press-to-release duration. */
  datatype TypedChar = TypedChar(ch: string, ts: int, duration: int)

  /** The buffered move and scroll events keep all their fields. */
  datatype MoveSample = MoveSample(ts: int, x: int, y: int)
  datatype ScrollSample = ScrollSample(ts: int, x: int, y: int, dx: int, dy: int)

  // ---------------------------------------------------------------- keys

  /** `is_char_key`: printable characters and the space key. */
  predicate IsCharKey(key: string)
  {
    if key == "" then false
    else if "Key." <= key then key == "Key.space"
    else true
  }

  /** `to_char`: the space key becomes a literal space. */
  function ToChar(key: string): string
  {
    if key == "Key.space" then " " else key
  }

  lemma IsCharKeyCases(key: string)
    ensures key == "" ==> !IsCharKey(key)
    ensures "Key." <= key ==> (IsCharKey(key) <==> key == "Key.space")
    ensures key != "" && !("Key." <= key) ==> IsCharKey(key)
  {
  }

  /** A character key always contributes at least one character, and only the
      space key is translated. */
  lemma ToCharOfCharKey(key: string)
    requires IsCharKey(key)
    ensures ToChar(key) != ""
    ensures ToChar(key) == " " <==> key == "Key.space" || key == " "
    ensures key != "Key.space" ==> ToChar(key) == key
  {
  }

  /** Line 130: the event continues a typed-character run. */
  predicate IsCharKeyEvent(e: Event)
  {
    e.input.Key? && IsCharKey(e.input.key)
  }

  // ---------------------------------------------------------------- identities

  /** `f"keyboard_{key}"` */
  function KeyboardId(key: string): string { "keyboard_" + key }

  /** `f"mouse_{button}_{x}_{y}"` */
  function MouseId(button: string, x: int, y: int): string
  {
    "mouse_" + button + "_" + IntToString(x) + "_" + IntToString(y)
  }

  /** Index of the last underscore of `s`, or -1. */
  function LastUnderscore(s: string): int
  {
    if s == [] then -1 else if s[|s| - 1] == '_' then |s| - 1 else LastUnderscore(s[..|s| - 1])
  }

  lemma {:induction false} LastUnderscoreOf(a: string, y: string)
    requires forall k :: 0 <= k < |y| ==> y[k] != '_'
    ensures LastUnderscore(a + "_" + y) == |a|
    decreases |y|
  {
    if y != [] {
      var s := a + "_" + y;
      assert s[..|s| - 1] == a + "_" + y[..|y| - 1];
      LastUnderscoreOf(a, y[..|y| - 1]);
    }
  }

  /** Splitting at the last underscore recovers both parts. */
  lemma SplitLastUnderscore(a: string, y: string, b: string, z: string)
    requires a + "_" + y == b + "_" + z
    requires forall k :: 0 <= k < |y| ==> y[k] != '_'
    requires forall k :: 0 <= k < |z| ==> z[k] != '_'
    ensures a == b && y == z
  {
    var s := a + "_" + y;
    LastUnderscoreOf(a, y);
    LastUnderscoreOf(b, z);
    assert |a| == |b|;
    assert y == s[|a| + 1..];
    assert z == s[|b| + 1..];
    assert a == s[..|a|];
    assert b == s[..|b|];
  }

  /** Two mouse identities are equal only for the same button and the same
      coordinates: a release pairs with a press exactly when both agree. */
  lemma MouseIdInjective(b1: string, x1: int, y1: int, b2: string, x2: int, y2: int)
    requires MouseId(b1, x1, y1) == MouseId(b2, x2, y2)
    ensures b1 == b2 && x1 == x2 && y1 == y2
  {
    IntToStringHasNoUnderscore(x1);
    IntToStringHasNoUnderscore(y1);
    IntToStringHasNoUnderscore(x2);
    IntToStringHasNoUnderscore(y2);
    SplitLastUnderscore("mouse_" + b1 + "_" + IntToString(x1), IntToString(y1),
                        "mouse_" + b2 + "_" + IntToString(x2), IntToString(y2));
    SplitLastUnderscore("mouse_" + b1, IntToString(x1), "mouse_" + b2, IntToString(x2));
    assert b1 == ("mouse_" + b1)[6..];
    assert b2 == ("mouse_" + b2)[6..];
    IntToStringInjective(x1, x2);
    IntToStringInjective(y1, y2);
  }

  lemma KeyboardIdInjective(k1: string, k2: string)
    requires KeyboardId(k1) == KeyboardId(k2)
    ensures k1 == k2
  {
    assert k1 == KeyboardId(k1)[9..];
    assert k2 == KeyboardId(k2)[9..];
  }

  /** Keyboard and mouse identities never collide. */
  lemma KeyboardMouseIdsDiffer(k: string, b: string, x: int, y: int)
    ensures KeyboardId(k) != MouseId(b, x, y)
  {
    assert KeyboardId(k)[0] == 'k';
    assert MouseId(b, x, y)[0] == 'm';
  }

  // ---------------------------------------------------------------- summaries

  /** `"".join(item['char'] for item in buffer)` */
  function JoinChars(buf: seq<TypedChar>): string
  {
    if buf == [] then "" else JoinChars(buf[..|buf| - 1]) + buf[|buf| - 1].ch
  }

  /** The `typed_string` record of a non-empty buffer (lines 46-61). */
  function TypedStringRecord(buf: seq<TypedChar>): Record
    requires buf != []
  {
    var first, last := buf[0], buf[|buf| - 1];
    var text := JoinChars(buf);
    TypedString(first.ts, text, last.ts + last.duration - first.ts, |text|)
  }

  /** The `condensed_move` record of a non-empty buffer (lines 69-82). */
  function CondensedMoveRecord(buf: seq<MoveSample>): Record
    requires buf != []
  {
    var first, last := buf[0], buf[|buf| - 1];
    CondensedMove(first.ts, first.x, first.y, last.x, last.y, last.ts - first.ts, |buf|)
  }

  function SumDx(buf: seq<ScrollSample>): int
  {
    if buf == [] then 0 else SumDx(buf[..|buf| - 1]) + buf[|buf| - 1].dx
  }

  function SumDy(buf: seq<ScrollSample>): int
  {
    if buf == [] then 0 else SumDy(buf[..|buf| - 1]) + buf[|buf| - 1].dy
  }

  /** The `condensed_scroll` record of a non-empty buffer (lines 90-110). */
  function CondensedScrollRecord(buf: seq<ScrollSample>): Record
    requires buf != []
  {
    var first, last := buf[0], buf[|buf| - 1];
    CondensedScroll(first.ts, SumDx(buf), SumDy(buf), last.ts - first.ts, |buf|)
  }

  /** The joined text counts at least one character per element when every
      element is non-empty, and more than that as soon as one element is
      longer than one character (a key written as "<65>", say). */
  lemma {:induction false} JoinCharsLength(buf: seq<TypedChar>)
    requires forall i :: 0 <= i < |buf| ==> buf[i].ch != ""
    ensures |JoinChars(buf)| >= |buf|
    ensures (exists i :: 0 <= i < |buf| && |buf[i].ch| > 1) ==> |JoinChars(buf)| > |buf|
    decreases |buf|
  {
    if buf != [] {
      var init := buf[..|buf| - 1];
      JoinCharsLength(init);
      if exists i :: 0 <= i < |buf| && |buf[i].ch| > 1 {
        var i :| 0 <= i < |buf| && |buf[i].ch| > 1;
        if i < |buf| - 1 {
          assert init[i] == buf[i];
        }
      }
    }
  }
}
