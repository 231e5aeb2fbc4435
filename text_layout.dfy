/** The greedy word-wrapper `wrapText` that lays out the phosphor text
    (index.js:207-224).

    The text is cut at every single space character (`text.split(' ')`), so
    doubled, leading or trailing spaces give empty words and a newline stays
    inside its word. Words are added to the current line while the joined line
    measures at most `maxWidth`; a word that does not fit closes the current line
    (when there is one) and starts the next. A word too wide on its own is kept
    whole on a line of its own. The canvas's `measureText(..).width` is the
    parameter `measure`.
*/
module TextLayout {
  import opened Strings

  /** The template `${currentLine} ${word}`. */
  function Spaced(line: string, word: string): string {
    line + " " + word
  }

  /** The specification of the loop: the words still to place, the lines already
      pushed and the line being built give the final list of lines. */
  function WrapFrom(measure: string -> real, maxWidth: real,
                    words: seq<string>, lines: seq<string>, current: string): seq<string>
    decreases |words|
  {
    if |words| == 0 then
      if current != "" then lines + [current] else lines
    else
      var testLine := if current != "" then Spaced(current, words[0]) else words[0];
      if measure(testLine) > maxWidth && current != "" then
        WrapFrom(measure, maxWidth, words[1..], lines + [current], words[0])
      else
        WrapFrom(measure, maxWidth, words[1..], lines, testLine)
  }

  /** The lines `wrapText(context, text, maxWidth)` returns. */
  function Wrap(measure: string -> real, text: string, maxWidth: real): seq<string> {
    WrapFrom(measure, maxWidth, Split(text, ' '), [], "")
  }

  /** `wrapText`: one pass over the words, pushing finished lines. */
  method WrapText(measure: string -> real, text: string, maxWidth: real)
    returns (lines: seq<string>)
    ensures lines == Wrap(measure, text, maxWidth)
  {
    var words := Split(text, ' ');
    lines := [];
    var currentLine := "";
    for i := 0 to |words|
      invariant WrapFrom(measure, maxWidth, words[i..], lines, currentLine)
             == Wrap(measure, text, maxWidth)
    {
      assert words[i..][0] == words[i] && words[i..][1..] == words[i + 1..];
      var word := words[i];
      var testLine := if currentLine != "" then Spaced(currentLine, word) else word;
      if measure(testLine) > maxWidth && currentLine != "" {
        lines := lines + [currentLine];
        currentLine := word;
      } else {
        currentLine := testLine;
      }
    }
    assert words[|words|..] == [];
    if currentLine != "" {
      lines := lines + [currentLine];
    }
  }

  // ---------------------------------------------------------------------------
  // No line is empty

  lemma {:induction false} WrapFromNoEmptyLine(measure: string -> real, maxWidth: real,
                                               words: seq<string>, lines: seq<string>, current: string)
    requires forall l :: l in lines ==> l != ""
    ensures forall l :: l in WrapFrom(measure, maxWidth, words, lines, current) ==> l != ""
    decreases |words|
  {
    if |words| > 0 {
      var testLine := if current != "" then Spaced(current, words[0]) else words[0];
      if measure(testLine) > maxWidth && current != "" {
        WrapFromNoEmptyLine(measure, maxWidth, words[1..], lines + [current], words[0]);
      } else {
        WrapFromNoEmptyLine(measure, maxWidth, words[1..], lines, testLine);
      }
    }
  }

  /** A line is pushed only when it is non-empty, so no returned line is empty and
      the empty text gives no lines at all. */
  lemma WrapNoEmptyLine(measure: string -> real, text: string, maxWidth: real)
    ensures forall l :: l in Wrap(measure, text, maxWidth) ==> l != ""
    ensures text == "" ==> Wrap(measure, text, maxWidth) == []
  {
    var r := Wrap(measure, text, maxWidth);
    WrapFromNoEmptyLine(measure, maxWidth, Split(text, ' '), [], "");
    if text == "" {
      assert Split(text, ' ') == [""];
      assert [""][1..] == [];
      assert r == WrapFrom(measure, maxWidth, [""][1..], [], "");
    }
  }

  // ---------------------------------------------------------------------------
  // Every line fits, or is a single word

  /** A line that measures at most `maxWidth`, or that is a single word. */
  predicate FitsOrSingleWord(measure: string -> real, maxWidth: real, line: string) {
    measure(line) <= maxWidth || ' ' !in line
  }

  lemma {:induction false} WrapFromLinesFit(measure: string -> real, maxWidth: real,
                                            words: seq<string>, lines: seq<string>, current: string)
    requires forall w :: w in words ==> ' ' !in w
    requires forall l :: l in lines ==> FitsOrSingleWord(measure, maxWidth, l)
    requires current == "" || FitsOrSingleWord(measure, maxWidth, current)
    ensures forall l :: l in WrapFrom(measure, maxWidth, words, lines, current) ==>
      FitsOrSingleWord(measure, maxWidth, l)
    decreases |words|
  {
    if |words| > 0 {
      var testLine := if current != "" then Spaced(current, words[0]) else words[0];
      assert words[0] in words;
      assert forall w :: w in words[1..] ==> w in words;
      if measure(testLine) > maxWidth && current != "" {
        WrapFromLinesFit(measure, maxWidth, words[1..], lines + [current], words[0]);
      } else {
        WrapFromLinesFit(measure, maxWidth, words[1..], lines, testLine);
      }
    }
  }

  /** Every returned line either measures at most `maxWidth` or is one word
      (holds no space): lines only overflow when a single word does. */
  lemma WrapLinesFit(measure: string -> real, text: string, maxWidth: real)
    ensures forall l :: l in Wrap(measure, text, maxWidth) ==> FitsOrSingleWord(measure, maxWidth, l)
  {
    var words := Split(text, ' ');
    forall w | w in words ensures ' ' !in w {
      var i :| 0 <= i < |words| && words[i] == w;
    }
    WrapFromLinesFit(measure, maxWidth, words, [], "");
  }

  // ---------------------------------------------------------------------------
  // Rejoining the lines gives the text back

  /** Text with no leading, trailing or doubled space. */
  predicate SingleSpaced(text: string) {
    |text| > 0 && text[0] != ' ' && text[|text| - 1] != ' ' &&
    forall i :: 0 <= i < |text| - 1 ==> !(text[i] == ' ' && text[i + 1] == ' ')
  }

  /** Single-spaced text splits into non-empty words. */
  lemma {:induction false} SingleSpacedWords(text: string)
    requires SingleSpaced(text)
    ensures forall w :: w in Split(text, ' ') ==> w != ""
    decreases |text|
  {
    var words := Split(text, ' ');
    var rest := Split(text[1..], ' ');
    assert words == [[text[0]] + rest[0]] + rest[1..];
    if |text| == 1 {
      assert rest == [""];
    } else if text[1] == ' ' {
      var tail := text[2..];
      assert |text| >= 3 && text[2] != ' ';
      assert SingleSpaced(tail) by {
        forall i | 0 <= i < |tail| - 1 ensures !(tail[i] == ' ' && tail[i + 1] == ' ') {
          assert tail[i] == text[i + 2] && tail[i + 1] == text[i + 3];
        }
      }
      SingleSpacedWords(tail);
      assert text[1..][1..] == tail;
      assert rest == [""] + Split(tail, ' ');
      assert rest[1..] == Split(tail, ' ');
    } else {
      var tail := text[1..];
      assert SingleSpaced(tail) by {
        forall i | 0 <= i < |tail| - 1 ensures !(tail[i] == ' ' && tail[i + 1] == ' ') {
          assert tail[i] == text[i + 1] && tail[i + 1] == text[i + 2];
        }
      }
      SingleSpacedWords(tail);
      forall w | w in rest[1..] ensures w != "" {
        assert w in rest;
      }
    }
  }

  /** Replacing a run of pieces by their join does not change the overall join. */
  /** Joining a group first and then the group's result with what follows is joining
      everything at once. */
  lemma JoinFlattenFront(m: seq<string>, b: seq<string>)
    requires |m| >= 1
    ensures Join([Join(m, ' ')] + b, ' ') == Join(m + b, ' ')
  {
    var jm := Join(m, ' ');
    if |b| > 0 {
      JoinAppend([jm], b, ' ');
      JoinAppend(m, b, ' ');
      assert Join([jm], ' ') == jm;
    } else {
      assert [jm] + b == [jm] && m + b == m;
    }
  }

  lemma JoinFlatten(a: seq<string>, m: seq<string>, b: seq<string>)
    requires |m| >= 1
    ensures Join(a + [Join(m, ' ')] + b, ' ') == Join(a + m + b, ' ')
  {
    var jm := Join(m, ' ');
    JoinFlattenFront(m, b);
    if |a| > 0 {
      JoinAppend(a, [jm] + b, ' ');
      JoinAppend(a, m + b, ' ');
      assert a + [jm] + b == a + ([jm] + b);
      assert a + m + b == a + (m + b);
    } else {
      assert a + [jm] + b == [jm] + b && a + m + b == m + b;
    }
  }

  /** Appending a word to the current line with a space is invisible once the lines
      are joined with spaces. */
  lemma JoinSpacedStep(lines: seq<string>, current: string, words: seq<string>)
    requires |words| > 0
    ensures Join(lines + [Spaced(current, words[0])] + words[1..], ' ') == Join(lines + [current] + words, ' ')
  {
    var w := words[0];
    assert Join([current, w], ' ') == Spaced(current, w);
    JoinFlatten(lines, [current, w], words[1..]);
    assert lines + [current, w] + words[1..] == lines + [current] + words;
  }

  lemma {:induction false} WrapFromJoin(measure: string -> real, maxWidth: real,
                                        words: seq<string>, lines: seq<string>, current: string)
    requires forall i :: 0 <= i < |words| ==> words[i] != ""
    requires current != ""
    ensures Join(WrapFrom(measure, maxWidth, words, lines, current), ' ')
         == Join(lines + [current] + words, ' ')
    decreases |words|
  {
    if |words| == 0 {
      assert lines + [current] + words == lines + [current];
    } else {
      var w := words[0];
      var testLine := Spaced(current, w);
      if measure(testLine) > maxWidth {
        WrapFromJoin(measure, maxWidth, words[1..], lines + [current], w);
        assert lines + [current] + [w] + words[1..] == lines + [current] + words;
      } else {
        WrapFromJoin(measure, maxWidth, words[1..], lines, testLine);
        JoinSpacedStep(lines, current, words);
      }
    }
  }

  /** For text without leading, trailing or doubled spaces, joining the lines with
      single spaces gives the text back: no word is dropped, reordered or duplicated. */
  lemma WrapJoin(measure: string -> real, text: string, maxWidth: real)
    requires text == "" || SingleSpaced(text)
    ensures Join(Wrap(measure, text, maxWidth), ' ') == text
  {
    var words := Split(text, ' ');
    if text == "" {
      assert words == [""];
    } else {
      SingleSpacedWords(text);
      assert forall i :: 0 <= i < |words| ==> words[i] in words;
      assert WrapFrom(measure, maxWidth, words, [], "")
          == WrapFrom(measure, maxWidth, words[1..], [], words[0]);
      WrapFromJoin(measure, maxWidth, words[1..], [], words[0]);
      assert [] + [words[0]] + words[1..] == words;
      JoinSplit(text, ' ');
    }
  }

  // ---------------------------------------------------------------------------
  // An over-wide word stands alone

  /** Adding a word to a line never makes it measure less than the line or the word. */
  ghost predicate GrowsWhenJoined(measure: string -> real) {
    forall line, word ::
      measure(line) <= measure(Spaced(line, word)) && measure(word) <= measure(Spaced(line, word))
  }

  /** The lines already pushed stay at the front of the result. */
  lemma {:induction false} WrapFromKeepsLines(measure: string -> real, maxWidth: real,
                                              words: seq<string>, lines: seq<string>, current: string)
    ensures var r := WrapFrom(measure, maxWidth, words, lines, current);
      |lines| <= |r| && r[..|lines|] == lines
    decreases |words|
  {
    if |words| > 0 {
      var testLine := if current != "" then Spaced(current, words[0]) else words[0];
      if measure(testLine) > maxWidth && current != "" {
        WrapFromKeepsLines(measure, maxWidth, words[1..], lines + [current], words[0]);
        var r := WrapFrom(measure, maxWidth, words, lines, current);
        assert r[..|lines|] == r[..|lines| + 1][..|lines|];
      } else {
        WrapFromKeepsLines(measure, maxWidth, words[1..], lines, testLine);
      }
    }
  }

  /** A current line that is already too wide is pushed on its own. */
  lemma WrapFromWideCurrent(measure: string -> real, maxWidth: real,
                            words: seq<string>, lines: seq<string>, current: string)
    requires GrowsWhenJoined(measure)
    requires current != "" && measure(current) > maxWidth
    ensures current in WrapFrom(measure, maxWidth, words, lines, current)
  {
    var r := WrapFrom(measure, maxWidth, words, lines, current);
    if |words| == 0 {
      assert r[|lines|] == current;
    } else {
      assert measure(current) <= measure(Spaced(current, words[0]));
      WrapFromKeepsLines(measure, maxWidth, words[1..], lines + [current], words[0]);
      assert r[|lines|] == (lines + [current])[|lines|];
    }
  }

  lemma {:induction false} WrapFromWideWord(measure: string -> real, maxWidth: real,
                                            words: seq<string>, lines: seq<string>, current: string, j: nat)
    requires GrowsWhenJoined(measure)
    requires j < |words| && words[j] != "" && measure(words[j]) > maxWidth
    ensures words[j] in WrapFrom(measure, maxWidth, words, lines, current)
    decreases |words|
  {
    var w := words[0];
    var testLine := if current != "" then Spaced(current, w) else w;
    if j == 0 {
      if current != "" {
        assert measure(w) <= measure(Spaced(current, w));
      }
      WrapFromWideCurrent(measure, maxWidth, words[1..], if current != "" then lines + [current] else lines, w);
    } else if measure(testLine) > maxWidth && current != "" {
      WrapFromWideWord(measure, maxWidth, words[1..], lines + [current], w, j - 1);
    } else {
      WrapFromWideWord(measure, maxWidth, words[1..], lines, testLine, j - 1);
    }
  }

  /** When joining never shrinks a measurement, a word wider than `maxWidth` is a line
      of its own, unsplit. */
  lemma WrapWideWordAlone(measure: string -> real, text: string, maxWidth: real, word: string)
    requires GrowsWhenJoined(measure)
    requires word in Split(text, ' ') && word != "" && measure(word) > maxWidth
    ensures word in Wrap(measure, text, maxWidth)
  {
    var words := Split(text, ' ');
    var j :| 0 <= j < |words| && words[j] == word;
    WrapFromWideWord(measure, maxWidth, words, [], "", j);
  }
}
