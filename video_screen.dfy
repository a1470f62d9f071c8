/** The list-handling helpers of the `VideoScreen` observer
    (gum/observers/video_screen.py): the monitor lookup of a cursor
    position, the queue of screenshot paths and the bounded history they are
    added to, the cut of a full batch of paths for one clip, and the clip
    length written into the captioning prompt. Building the clip and the
    captioning call are the batch this model hands back. */
module VideoScreenObserver {
  import opened Decimal

  datatype Option<T> = None | Some(value: T)

  /** `_SCREENSHOTS_PER_VIDEO` (line 49): a clip is cut once this many paths
      are queued. */
  const ScreenshotsPerVideo: nat := 30
  /** `_SECONDS_PER_SCREENSHOT` (line 50). */
  const SecondsPerScreenshot: nat := 1

  // ------------------------------------------------------------ monitors

  /** One entry of the monitor list: `left`, `top`, `width`, `height`. */
  datatype Monitor = Monitor(left: int, top: int, width: int, height: int)

  /** The half-open rectangle of a monitor contains the point. */
  predicate Contains(m: Monitor, x: real, y: real)
  {
    m.left as real <= x < (m.left + m.width) as real && m.top as real <= y < (m.top + m.height) as real
  }

  /** `_mon_for` (lines 92-97): the 1-based number of the first monitor whose
      rectangle holds the point, or `None`. */
  method MonFor(x: real, y: real, mons: seq<Monitor>) returns (r: Option<nat>)
    ensures r.Some? ==> 1 <= r.value <= |mons| && Contains(mons[r.value - 1], x, y)
    ensures r.Some? ==> forall j :: 0 <= j < r.value - 1 ==> !Contains(mons[j], x, y)
    ensures r.None? <==> forall j :: 0 <= j < |mons| ==> !Contains(mons[j], x, y)
  {
    for idx := 1 to |mons| + 1
      invariant forall j :: 0 <= j < idx - 1 ==> !Contains(mons[j], x, y)
    {
      var m := mons[idx - 1];
      if m.left as real <= x < (m.left + m.width) as real && m.top as real <= y < (m.top + m.height) as real {
        return Some(idx);
      }
    }
    return None;
  }

  // ------------------------------------------------------------ history

  /** The last `k` elements of `h`, oldest first: what a
      `deque(maxlen=k)` holds after `h` was appended to it. */
  function Recent(h: seq<string>, k: nat): (r: seq<string>)
    ensures |r| <= k && |r| <= |h|
    ensures |r| == if |h| <= k then |h| else k
    ensures r == h[|h| - |r|..]
  {
    if |h| <= k then h else h[|h| - k..]
  }

  /** Appending to the bounded deque keeps the last `k` of everything
      appended so far, so the history never holds more than `k` paths. */
  lemma RecentAppend(h: seq<string>, p: string, k: nat)
    ensures Recent(Recent(h, k) + [p], k) == Recent(h + [p], k)
  {
    var r := Recent(h, k);
    var n := |h + [p]|;
    var m := |Recent(h + [p], k)|;
    if |h| > k && k > 0 {
      assert (r + [p])[|r + [p]| - k..] == (h + [p])[n - k..];
    } else if k == 0 {
      assert Recent(r + [p], k) == [];
    }
  }

  // ------------------------------------------------------------ the clip label

  /** The clip length in seconds (line 166). */
  const TotalSeconds: nat := ScreenshotsPerVideo * SecondsPerScreenshot

  /** `f"{minutes:02d}:{seconds:02d}"` with `minutes, seconds = total // 60,
      total % 60` (lines 166-169). */
  function MaxTimeLabel(total: nat): (s: string)
  {
    Pad2(total / 60) + ":" + Pad2(total % 60)
  }

  /** The label reads back as the minutes and seconds of `total`: five
      characters, a colon in the middle, for any clip under 100 minutes. */
  lemma MaxTimeLabelRoundTrip(total: nat)
    requires total < 6000
    ensures var s := MaxTimeLabel(total);
      && |s| == 5 && s[2] == ':' && AllDigits(s[..2]) && AllDigits(s[3..])
      && 60 * ParseNat(s[..2]) + ParseNat(s[3..]) == total
      && ParseNat(s[3..]) < 60
  {
    var s := MaxTimeLabel(total);
    Pad2RoundTrip(total / 60);
    Pad2RoundTrip(total % 60);
    assert s[..2] == Pad2(total / 60);
    assert s[3..] == Pad2(total % 60);
  }

  /** With the default knobs the prompt says "00:30". */
  lemma DefaultMaxTime()
    ensures MaxTimeLabel(TotalSeconds) == "00:30"
  {
    assert TotalSeconds / 60 == 0 && TotalSeconds % 60 == 30;
    assert NatToString(0) == "0";
    assert NatToString(3) == "3";
    assert NatToString(30) == NatToString(3) + [DigitChar(0)];
  }

  /** `s.replace(pat, rep)`: every occurrence of `pat`, scanning from the
      left and not overlapping, replaced by `rep`. */
  function ReplaceAll(s: string, pat: string, rep: string): string
    requires pat != ""
    decreases |s|
  {
    if |s| < |pat| then s
    else if s[..|pat|] == pat then rep + ReplaceAll(s[|pat|..], pat, rep)
    else [s[0]] + ReplaceAll(s[1..], pat, rep)
  }

  predicate OccursAt(s: string, pat: string, i: int)
  {
    0 <= i && i + |pat| <= |s| && s[i..i + |pat|] == pat
  }

  /** An occurrence in the tail of `s` is an occurrence in `s` one further
      on. */
  lemma OccursShift(s: string, pat: string, i: nat)
    requires 1 <= |s|
    ensures OccursAt(s[1..], pat, i) <==> OccursAt(s, pat, i + 1)
  {
    if i + 1 + |pat| <= |s| {
      assert s[1..][i..i + |pat|] == s[i + 1..i + 1 + |pat|];
    }
  }

  /** A prompt without the placeholder is sent unchanged. */
  lemma {:induction false} ReplaceAbsent(s: string, pat: string, rep: string)
    requires pat != ""
    requires forall i :: 0 <= i <= |s| - |pat| ==> !OccursAt(s, pat, i)
    ensures ReplaceAll(s, pat, rep) == s
    decreases |s|
  {
    if |s| >= |pat| {
      assert !OccursAt(s, pat, 0);
      assert s[..|pat|] == s[0..0 + |pat|];
      forall i | 0 <= i <= |s[1..]| - |pat| ensures !OccursAt(s[1..], pat, i) {
        OccursShift(s, pat, i);
      }
      ReplaceAbsent(s[1..], pat, rep);
    }
  }

  /** Replacement distributes over a prefix that holds no occurrence: the
      text before the placeholder is kept and the placeholder becomes the
      label. */
  lemma {:induction false} ReplaceAfterPlain(a: string, pat: string, rep: string, b: string)
    requires pat != ""
    requires forall i :: 0 <= i < |a| ==> !OccursAt(a + pat + b, pat, i)
    ensures ReplaceAll(a + pat + b, pat, rep) == a + rep + ReplaceAll(b, pat, rep)
    decreases |a|
  {
    var s := a + pat + b;
    if a == [] {
      assert s == pat + b;
      assert s[..|pat|] == pat;
      assert s[|pat|..] == b;
    } else {
      var t := a[1..] + pat + b;
      assert !OccursAt(s, pat, 0);
      assert s[..|pat|] == s[0..0 + |pat|];
      assert s[1..] == t;
      forall i | 0 <= i < |a[1..]| ensures !OccursAt(t, pat, i) {
        OccursShift(s, pat, i);
      }
      ReplaceAfterPlain(a[1..], pat, rep, b);
      assert ReplaceAll(s, pat, rep) == [s[0]] + ReplaceAll(t, pat, rep);
      assert [s[0]] + (a[1..] + rep + ReplaceAll(b, pat, rep)) == a + rep + ReplaceAll(b, pat, rep);
    }
  }

  /** Line 169: the prompt sent with a clip, its placeholder replaced by the
      clip length. */
  function CaptionPrompt(prompt: string): string
  {
    ReplaceAll(prompt, "{max_time}", MaxTimeLabel(TotalSeconds))
  }

  /** The first placeholder of the prompt becomes "00:30"; the text before it
      is kept, and the rest is treated the same way. */
  lemma CaptionPromptAt(a: string, b: string)
    requires forall i :: 0 <= i < |a| ==> !OccursAt(a + "{max_time}" + b, "{max_time}", i)
    ensures CaptionPrompt(a + "{max_time}" + b) == a + "00:30" + CaptionPrompt(b)
  {
    DefaultMaxTime();
    ReplaceAfterPlain(a, "{max_time}", MaxTimeLabel(TotalSeconds), b);
  }

  // ------------------------------------------------------------ the observer

  /** The part of `VideoScreen` that the screenshot paths go through
      (lines 82-83, 195-224). */
  class VideoScreen {
    /** `_queued_paths` */
    var queuedPaths: seq<string>
    /** `_history`, a `deque` of at most `historyMax` paths */
    var history: seq<string>
    const historyMax: nat
    /** every before-path ever added, oldest first */
    ghost var beforePaths: seq<string>

    /** The history is the last `historyMax` before-paths, and the queue is
        always shorter than a batch between events. */
    ghost predicate Valid()
      reads this
    {
      history == Recent(beforePaths, historyMax) && |queuedPaths| < ScreenshotsPerVideo
    }

    /** Lines 82-83: an empty queue and an empty history of length at most
        `max(0, history_k)`. */
    constructor (historyK: int)
      ensures historyMax == if historyK < 0 then 0 else historyK
      ensures queuedPaths == [] && history == [] && beforePaths == []
      ensures Valid()
    {
      historyMax := if historyK < 0 then 0 else historyK;
      queuedPaths := [];
      history := [];
      beforePaths := [];
    }

    /** Lines 219-222: the before-path goes into the history and the queue,
        the after-path into the queue only when it is a non-empty string. */
    method QueueScreenshots(beforePath: string, afterPath: Option<string>)
      modifies this
      ensures beforePaths == old(beforePaths) + [beforePath]
      ensures history == Recent(old(history) + [beforePath], historyMax)
      ensures queuedPaths == old(queuedPaths) + [beforePath] + Added(afterPath)
      ensures |queuedPaths| == |old(queuedPaths)| + 1 + |Added(afterPath)|
      ensures old(Valid()) ==> history == Recent(beforePaths, historyMax)
    {
      history := Recent(history + [beforePath], historyMax);
      beforePaths := beforePaths + [beforePath];
      queuedPaths := queuedPaths + [beforePath];
      if afterPath.Some? && afterPath.value != "" {
        queuedPaths := queuedPaths + [afterPath.value];
      }
      RecentAppend(old(beforePaths), beforePath, historyMax);
    }

    /** The queue and threshold of `_maybe_flush_video` (lines 195-206): with
        fewer than a batch queued nothing happens; otherwise the first batch
        is taken out (to be built into a clip and captioned) and the rest
        stays queued. */
    method MaybeFlushVideo() returns (batch: Option<seq<string>>)
      modifies this
      ensures history == old(history) && beforePaths == old(beforePaths)
      ensures batch == Batch(old(queuedPaths))
      ensures queuedPaths == Remainder(old(queuedPaths))
    {
      if |queuedPaths| < ScreenshotsPerVideo {
        return None;
      }
      var paths := queuedPaths[..ScreenshotsPerVideo];
      queuedPaths := queuedPaths[ScreenshotsPerVideo..];
      return Some(paths);
    }

    /** `_process_event` (lines 217-224): queue the paths, then cut a clip if
        a batch is full. The queue stays shorter than a batch. */
    method ProcessEvent(beforePath: string, afterPath: Option<string>) returns (batch: Option<seq<string>>)
      requires Valid()
      modifies this
      ensures Valid()
      ensures beforePaths == old(beforePaths) + [beforePath]
      ensures var grown := old(queuedPaths) + [beforePath] + Added(afterPath);
        batch == Batch(grown) && queuedPaths == Remainder(grown)
    {
      QueueScreenshots(beforePath, afterPath);
      batch := MaybeFlushVideo();
      QueueStaysShort(old(queuedPaths), beforePath, afterPath);
    }
  }

  /** The paths an after-screenshot adds: none for `None` or "". */
  function Added(afterPath: Option<string>): (r: seq<string>)
    ensures |r| <= 1
    ensures |r| == 1 <==> afterPath.Some? && afterPath.value != ""
    ensures r != [] ==> r[0] == afterPath.value
  {
    if afterPath.Some? && afterPath.value != "" then [afterPath.value] else []
  }

  /** The batch cut from a queue. */
  function Batch(q: seq<string>): (b: Option<seq<string>>)
    ensures b.None? <==> |q| < ScreenshotsPerVideo
    ensures b.Some? ==> |b.value| == ScreenshotsPerVideo && b.value + Remainder(q) == q
  {
    if |q| < ScreenshotsPerVideo then None else Some(q[..ScreenshotsPerVideo])
  }

  /** The queue left behind; unchanged when no batch is cut. */
  function Remainder(q: seq<string>): (r: seq<string>)
    ensures |q| < ScreenshotsPerVideo ==> r == q
    ensures |q| >= ScreenshotsPerVideo ==> |r| == |q| - ScreenshotsPerVideo && r == q[ScreenshotsPerVideo..]
  {
    if |q| < ScreenshotsPerVideo then q else q[ScreenshotsPerVideo..]
  }

  /** A short queue grown by one event is at most one batch plus one, so
      after the cut it is short again. */
  lemma QueueStaysShort(q: seq<string>, beforePath: string, afterPath: Option<string>)
    requires |q| < ScreenshotsPerVideo
    ensures |Remainder(q + [beforePath] + Added(afterPath))| < ScreenshotsPerVideo
    ensures |Remainder(q + [beforePath] + Added(afterPath))| <= 1 || Batch(q + [beforePath] + Added(afterPath)).None?
  {
  }
}
