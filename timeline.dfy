/** The frame timeline of `createRetroGif` (index.js:246-268): which
    (visible text, cursor shown, delay) triples are drawn and handed to the GIF
    encoder, in order. Drawing a frame and adding it to the encoder is "append
    the triple"; `[...text]` is the text itself, a string being a sequence of
    code points here. */
module FrameTimeline {

  const IdleFrames: nat := 3
  const TrailingFrames: nat := 6
  const TypeFrameDelayMs: nat := 60
  const CursorBlinkDelayMs: nat := 380

  /** One call `drawFrame(ctx, visibleText, showCursor, theme)` preceded by
      `encoder.setDelay(delayMs)`. */
  datatype Frame = Frame(visibleText: string, showCursor: bool, delayMs: nat)

  /** The first `count` blink frames over a fixed text: the cursor shows on even
      steps. */
  function Blink(visibleText: string, count: nat): seq<Frame> {
    if count == 0 then []
    else Blink(visibleText, count - 1) + [Frame(visibleText, (count - 1) % 2 == 0, CursorBlinkDelayMs)]
  }

  /** The first `count` typing frames: the `i`-th shows the first `i + 1` code points. */
  function Typing(text: string, count: nat): seq<Frame>
    requires count <= |text|
  {
    if count == 0 then []
    else Typing(text, count - 1) + [Frame(text[..count], true, TypeFrameDelayMs)]
  }

  /** Idle blinking over an empty screen, one typing frame per code point, then
      blinking over the whole text. */
  function Timeline(text: string): seq<Frame> {
    Blink("", IdleFrames) + Typing(text, |text|) + Blink(text, TrailingFrames)
  }

  /** The three loops of `createRetroGif`, collecting the frames they draw. */
  method BuildTimeline(text: string) returns (frames: seq<Frame>)
    ensures frames == Timeline(text)
  {
    frames := [];
    for i := 0 to 3
      invariant frames == Blink("", i)
    {
      frames := frames + [Frame("", i % 2 == 0, CursorBlinkDelayMs)];
    }
    var chars := text;
    var current := "";
    for i := 0 to |chars|
      invariant current == chars[..i]
      invariant frames == Blink("", IdleFrames) + Typing(text, i)
    {
      current := current + [chars[i]];
      assert current == chars[..i + 1];
      frames := frames + [Frame(current, true, TypeFrameDelayMs)];
    }
    assert current == text;
    for i := 0 to 6
      invariant frames == Blink("", IdleFrames) + Typing(text, |text|) + Blink(current, i)
    {
      frames := frames + [Frame(current, i % 2 == 0, CursorBlinkDelayMs)];
    }
  }

  // ---------------------------------------------------------------------------
  // Properties

  lemma {:induction false} BlinkAt(visibleText: string, count: nat, i: nat)
    requires i < count
    ensures |Blink(visibleText, count)| == count
    ensures Blink(visibleText, count)[i] == Frame(visibleText, i % 2 == 0, CursorBlinkDelayMs)
  {
    if i < count - 1 {
      BlinkAt(visibleText, count - 1, i);
    } else if count > 1 {
      BlinkAt(visibleText, count - 1, 0);
    }
  }

  lemma {:induction false} TypingAt(text: string, count: nat, i: nat)
    requires i < count <= |text|
    ensures |Typing(text, count)| == count
    ensures Typing(text, count)[i] == Frame(text[..i + 1], true, TypeFrameDelayMs)
  {
    if i < count - 1 {
      TypingAt(text, count - 1, i);
    } else if count > 1 {
      TypingAt(text, count - 1, 0);
    }
  }

  lemma {:induction false} TypingLength(text: string, count: nat)
    requires count <= |text|
    ensures |Typing(text, count)| == count
  {
    if count > 0 {
      TypingLength(text, count - 1);
    }
  }

  /** The timeline has `3 + N + 6` frames for a text of `N` code points: three idle
      frames over an empty screen with the cursor on, off, on, every 380 ms; then
      one 60 ms frame per code point showing one more code point, cursor on; then
      six frames over the whole text with the cursor on, off, ..., every 380 ms. */
  lemma TimelineShape(text: string)
    ensures |Timeline(text)| == IdleFrames + |text| + TrailingFrames
    ensures forall i :: 0 <= i < IdleFrames ==>
      Timeline(text)[i] == Frame("", i % 2 == 0, CursorBlinkDelayMs)
    ensures forall i :: IdleFrames <= i < IdleFrames + |text| ==>
      Timeline(text)[i] == Frame(text[..i - IdleFrames + 1], true, TypeFrameDelayMs)
    ensures forall i :: IdleFrames + |text| <= i < |Timeline(text)| ==>
      Timeline(text)[i] == Frame(text, (i - IdleFrames - |text|) % 2 == 0, CursorBlinkDelayMs)
  {
    var idle := Blink("", IdleFrames);
    var typing := Typing(text, |text|);
    var trailing := Blink(text, TrailingFrames);
    BlinkAt("", IdleFrames, 0);
    BlinkAt(text, TrailingFrames, 0);
    TypingLength(text, |text|);
    forall i | 0 <= i < IdleFrames
      ensures Timeline(text)[i] == Frame("", i % 2 == 0, CursorBlinkDelayMs)
    {
      BlinkAt("", IdleFrames, i);
    }
    forall i | IdleFrames <= i < IdleFrames + |text|
      ensures Timeline(text)[i] == Frame(text[..i - IdleFrames + 1], true, TypeFrameDelayMs)
    {
      TypingAt(text, |text|, i - IdleFrames);
    }
    forall i | IdleFrames + |text| <= i < |Timeline(text)|
      ensures Timeline(text)[i] == Frame(text, (i - IdleFrames - |text|) % 2 == 0, CursorBlinkDelayMs)
    {
      BlinkAt(text, TrailingFrames, i - IdleFrames - |text|);
    }
  }

  /** Each typing frame shows exactly one code point more than the frame before it. */
  lemma TypingRevealsOneCodePoint(text: string, i: nat)
    requires 0 < i < |text|
    ensures |Timeline(text)| == IdleFrames + |text| + TrailingFrames
    ensures var t := Timeline(text);
      t[IdleFrames + i].visibleText == t[IdleFrames + i - 1].visibleText + [text[i]]
  {
    TimelineShape(text);
    assert text[..i + 1] == text[..i] + [text[i]];
  }

  /** The first typing frame shows the first code point, and the last one, like every
      trailing frame, shows the whole text. */
  lemma TypingEndsWithWholeText(text: string)
    requires |text| > 0
    ensures |Timeline(text)| == IdleFrames + |text| + TrailingFrames
    ensures Timeline(text)[IdleFrames].visibleText == [text[0]]
    ensures Timeline(text)[IdleFrames + |text| - 1].visibleText == text
  {
    TimelineShape(text);
    assert text[..1] == [text[0]];
    assert text[..|text|] == text;
  }

  /** The summed display time of a list of frames. */
  function TotalDelayMs(frames: seq<Frame>): nat {
    if frames == [] then 0 else TotalDelayMs(frames[..|frames| - 1]) + frames[|frames| - 1].delayMs
  }

  lemma {:induction false} TotalDelayAppend(a: seq<Frame>, b: seq<Frame>)
    ensures TotalDelayMs(a + b) == TotalDelayMs(a) + TotalDelayMs(b)
    decreases |b|
  {
    if b != [] {
      var last := |b| - 1;
      assert (a + b)[..|a + b| - 1] == a + b[..last];
      TotalDelayAppend(a, b[..last]);
    } else {
      assert a + b == a;
    }
  }

  lemma {:induction false} BlinkDelay(visibleText: string, count: nat)
    ensures TotalDelayMs(Blink(visibleText, count)) == count * CursorBlinkDelayMs
  {
    if count > 0 {
      BlinkDelay(visibleText, count - 1);
      TotalDelayAppend(Blink(visibleText, count - 1), [Frame(visibleText, (count - 1) % 2 == 0, CursorBlinkDelayMs)]);
    }
  }

  lemma {:induction false} TypingDelay(text: string, count: nat)
    requires count <= |text|
    ensures TotalDelayMs(Typing(text, count)) == count * TypeFrameDelayMs
  {
    if count > 0 {
      TypingDelay(text, count - 1);
      TotalDelayAppend(Typing(text, count - 1), [Frame(text[..count], true, TypeFrameDelayMs)]);
    }
  }

  /** One loop of the animation lasts `9 * 380 + 60 * N` milliseconds (before the
      encoder rounds each delay to its own time unit). */
  lemma TimelineDuration(text: string)
    ensures TotalDelayMs(Timeline(text)) == 9 * CursorBlinkDelayMs + |text| * TypeFrameDelayMs
  {
    var idle := Blink("", IdleFrames);
    var typing := Typing(text, |text|);
    var trailing := Blink(text, TrailingFrames);
    TotalDelayAppend(idle + typing, trailing);
    TotalDelayAppend(idle, typing);
    BlinkDelay("", IdleFrames);
    BlinkDelay(text, TrailingFrames);
    TypingDelay(text, |text|);
  }

  /** The worked example: "Hi" gives 3 idle + 2 typing + 6 trailing = 11 frames; the
      fourth shows "H" and the fifth "Hi", both with the cursor. */
  lemma TimelineOfHi()
    ensures |Timeline("Hi")| == 11
    ensures Timeline("Hi")[3] == Frame("H", true, TypeFrameDelayMs)
    ensures Timeline("Hi")[4] == Frame("Hi", true, TypeFrameDelayMs)
  {
    TimelineShape("Hi");
    assert "Hi"[..1] == "H" && "Hi"[..2] == "Hi";
  }

  /** An empty text gives the nine blink frames only, all over an empty screen. */
  lemma TimelineOfEmptyText()
    ensures |Timeline("")| == IdleFrames + TrailingFrames
    ensures forall f :: f in Timeline("") ==> f.visibleText == "" && f.delayMs == CursorBlinkDelayMs
  {
    TimelineShape("");
    forall f | f in Timeline("") ensures f.visibleText == "" && f.delayMs == CursorBlinkDelayMs {
      var i :| 0 <= i < |Timeline("")| && Timeline("")[i] == f;
    }
  }
}
