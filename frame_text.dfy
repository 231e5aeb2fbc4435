/** What text each frame lays out: `drawFrame` wraps
    `visibleText + (showCursor ? CURSOR_CHAR : '')` at the phosphor wrap width
    (index.js:160-162). */
module FrameText {
  import opened Strings
  import opened TextLayout
  import opened FrameTimeline
  import opened Screen

  const CursorChar: char := '_'

  /** The string handed to `wrapText` for a frame. */
  function ScreenText(f: Frame): string {
    f.visibleText + (if f.showCursor then [CursorChar] else [])
  }

  /** The lines drawn on the phosphor canvas for a frame. */
  function ScreenLines(measure: string -> real, f: Frame): seq<string> {
    Wrap(measure, ScreenText(f), MaxTextWidth as real)
  }

  /** For an empty text every frame draws either nothing or the cursor alone. */
  lemma EmptyTextScreens(measure: string -> real)
    ensures forall f :: f in Timeline("") ==>
      ScreenLines(measure, f) == if f.showCursor then [[CursorChar]] else []
  {
    TimelineOfEmptyText();
    WrapNoEmptyLine(measure, "", MaxTextWidth as real);
    var cursor := [CursorChar];
    assert Split(cursor, ' ') == [cursor] by {
      SplitNoSep(cursor, ' ');
    }
    assert [cursor][1..] == [];
    assert WrapFrom(measure, MaxTextWidth as real, [cursor], [], "")
        == WrapFrom(measure, MaxTextWidth as real, [], [], cursor);
    assert Wrap(measure, cursor, MaxTextWidth as real) == [cursor];
    forall f | f in Timeline("")
      ensures ScreenLines(measure, f) == if f.showCursor then [cursor] else []
    {
      assert ScreenText(f) == if f.showCursor then cursor else "";
    }
  }

  /** Every typing frame lays out the typed prefix followed by the cursor, and when that
      string has no leading, trailing or doubled space its drawn lines rejoin to it. */
  lemma TypingFrameScreen(measure: string -> real, text: string, i: nat)
    requires i < |text|
    ensures |Timeline(text)| == IdleFrames + |text| + TrailingFrames
    ensures ScreenText(Timeline(text)[IdleFrames + i]) == text[..i + 1] + [CursorChar]
    ensures SingleSpaced(text[..i + 1] + [CursorChar]) ==>
      Join(ScreenLines(measure, Timeline(text)[IdleFrames + i]), ' ') == text[..i + 1] + [CursorChar]
  {
    TimelineShape(text);
    var f := Timeline(text)[IdleFrames + i];
    if SingleSpaced(ScreenText(f)) {
      WrapJoin(measure, ScreenText(f), MaxTextWidth as real);
    }
  }
}
