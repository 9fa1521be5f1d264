/** wrap_text: the greedy word-wrapper of the output panel. The width a
    line measures when rendered in the output font is left abstract: every
    member takes it as a function `measure` from strings to pixels. */
module WordWrap {
  import opened Text

  /** The candidate line: the current line extended by a space and the word,
      or the word alone while the current line is empty. */
  function TestLine(current: string, word: string): string
  {
    if current != "" then current + " " + word else word
  }

  /** The lines wrap_text still emits when `words` remain to be placed and the
      line being built is `current`. */
  function WrapFrom(words: seq<string>, current: string, measure: string -> int, maxWidth: int): seq<string>
    decreases |words|
  {
    if words == [] then
      (if current != "" then [current] else [])
    else
      var test := TestLine(current, words[0]);
      if measure(test) <= maxWidth then WrapFrom(words[1..], test, measure, maxWidth)
      else [current] + WrapFrom(words[1..], words[0], measure, maxWidth)
  }

  /** The lines wrap_text(text, font, maxWidth) returns. */
  function Wrap(text: string, measure: string -> int, maxWidth: int): seq<string>
  {
    WrapFrom(Split(text), "", measure, maxWidth)
  }

  /** One step of WrapFrom: the first remaining word either extends the
      current line or starts a new one after the current line is emitted. */
  lemma WrapFromStep(words: seq<string>, current: string, measure: string -> int, maxWidth: int)
    requires words != []
    ensures WrapFrom(words, current, measure, maxWidth) ==
      var test := TestLine(current, words[0]);
      if measure(test) <= maxWidth then WrapFrom(words[1..], test, measure, maxWidth)
      else [current] + WrapFrom(words[1..], words[0], measure, maxWidth)
  {
  }

  /** wrap_text as the source runs it: one pass over the words, extending the
      current line while it fits and starting a new one with the word when not. */
  method WrapText(text: string, measure: string -> int, maxWidth: int) returns (lines: seq<string>)
    ensures lines == Wrap(text, measure, maxWidth)
  {
    var words := Split(text);
    lines := [];
    var current := "";
    for i := 0 to |words|
      invariant lines + WrapFrom(words[i..], current, measure, maxWidth) == WrapFrom(words, "", measure, maxWidth)
    {
      var word := words[i];
      WrapFromStep(words[i..], current, measure, maxWidth);
      assert words[i..][0] == word && words[i..][1..] == words[i + 1..];
      var testLine := TestLine(current, word);
      if measure(testLine) <= maxWidth {
        current := testLine;
      } else {
        lines := lines + [current];
        current := word;
      }
    }
    if current != "" {
      lines := lines + [current];
    }
  }

  /** A line wrap_text may emit: one that measured within the width when it was
      last accepted, a word placed alone after an overflow, or the empty line. */
  predicate Admissible(line: string, words: seq<string>, measure: string -> int, maxWidth: int)
  {
    measure(line) <= maxWidth || line in words || line == ""
  }

  lemma {:induction false} WrapFromShape(words: seq<string>, current: string, all: seq<string>, measure: string -> int, maxWidth: int)
    requires forall w :: w in words ==> w in all
    requires Admissible(current, all, measure, maxWidth)
    ensures forall line :: line in WrapFrom(words, current, measure, maxWidth) ==> Admissible(line, all, measure, maxWidth)
  {
    if words != [] {
      assert words[0] in all;
      var test := TestLine(current, words[0]);
      if measure(test) <= maxWidth {
        WrapFromShape(words[1..], test, all, measure, maxWidth);
      } else {
        WrapFromShape(words[1..], words[0], all, measure, maxWidth);
      }
    }
  }

  /** Every output line is an accepted test line (within the width), a single
      word of the input, or the empty line. */
  lemma LineShape(text: string, measure: string -> int, maxWidth: int)
    ensures forall line :: line in Wrap(text, measure, maxWidth) ==> Admissible(line, Split(text), measure, maxWidth)
  {
    WrapFromShape(Split(text), "", Split(text), measure, maxWidth);
  }

  lemma {:induction false} WrapFromCount(words: seq<string>, current: string, measure: string -> int, maxWidth: int)
    ensures |WrapFrom(words, current, measure, maxWidth)| <= |words| + 1
  {
    if words != [] {
      var test := TestLine(current, words[0]);
      if measure(test) <= maxWidth {
        WrapFromCount(words[1..], test, measure, maxWidth);
      } else {
        WrapFromCount(words[1..], words[0], measure, maxWidth);
      }
    }
  }

  /** There are never more output lines than words plus one. */
  lemma LineCount(text: string, measure: string -> int, maxWidth: int)
    ensures |Wrap(text, measure, maxWidth)| <= |Split(text)| + 1
  {
    WrapFromCount(Split(text), "", measure, maxWidth);
  }

  /** The empty text gives no line when the empty string fits, and one empty
      line when it does not. */
  lemma EmptyText(measure: string -> int, maxWidth: int)
    ensures Wrap("", measure, maxWidth) == if measure("") <= maxWidth then [] else [""]
  {
    assert Split("") == [""];
    assert TestLine("", "") == "";
    assert [""][1..] == [];
  }

  /** Once the current line is non-empty, the next emitted line begins with
      the current line's first word. */
  lemma {:induction false} WrapFromStart(words: seq<string>, current: string, measure: string -> int, maxWidth: int)
    requires current != ""
    ensures |WrapFrom(words, current, measure, maxWidth)| >= 1
    ensures Split(WrapFrom(words, current, measure, maxWidth)[0])[0] == Split(current)[0]
  {
    if words != [] {
      var test := TestLine(current, words[0]);
      if measure(test) <= maxWidth {
        SplitAppend(current, words[0]);
        WrapFromStart(words[1..], test, measure, maxWidth);
      }
    }
  }

  /** The first output line is empty exactly when the first word alone is too
      wide (for well-spaced text; the "if" direction holds for every text). */
  lemma FirstLineEmpty(text: string, measure: string -> int, maxWidth: int)
    ensures measure(Split(text)[0]) > maxWidth ==>
      |Wrap(text, measure, maxWidth)| >= 1 && Wrap(text, measure, maxWidth)[0] == ""
    ensures WellSpaced(text) && measure(Split(text)[0]) <= maxWidth ==>
      |Wrap(text, measure, maxWidth)| >= 1 && Wrap(text, measure, maxWidth)[0] != ""
  {
    var words := Split(text);
    if WellSpaced(text) && measure(words[0]) <= maxWidth {
      assert words[0] != "";
      WrapFromStart(words[1..], words[0], measure, maxWidth);
      SplitWord(words[0]);
      var first := Wrap(text, measure, maxWidth)[0];
      assert Split(first)[0] == words[0];
      assert first != "";
    }
  }

  /** The non-empty lines of a list. */
  function NonBlank(lines: seq<string>): (r: seq<string>)
    ensures forall k :: 0 <= k < |r| ==> r[k] != ""
  {
    if lines == [] then []
    else (if lines[0] == "" then [] else [lines[0]]) + NonBlank(lines[1..])
  }

  lemma {:induction false} NonBlankOfWords(words: seq<string>)
    requires forall k :: 0 <= k < |words| ==> words[k] != ""
    ensures NonBlank(words) == words
  {
    if words != [] {
      NonBlankOfWords(words[1..]);
    }
  }

  lemma NonBlankCons(line: string, rest: seq<string>)
    ensures NonBlank([line] + rest) == (if line == "" then [] else [line]) + NonBlank(rest)
  {
    assert ([line] + rest)[1..] == rest;
  }

  /** Joining lines that begin with a non-empty line gives a non-empty string. */
  lemma JoinNonEmpty(lines: seq<string>)
    requires lines != [] && lines[0] != ""
    ensures Join(lines) != ""
  {
  }

  /** Extending the first of several lines by a word joins to the same text
      as keeping the word as a line of its own. */
  lemma JoinExtend(current: string, w: string, more: seq<string>)
    ensures Join([current + " " + w] + more) == Join([current, w] + more)
  {
    assert ([current, w] + more)[1..] == [w] + more;
    if more != [] {
      JoinAppend([current + " " + w], more);
      assert ([w] + more)[1..] == more;
    }
  }

  /** Putting a line in front of lines that join to a non-empty text adds the
      line and one space. */
  lemma JoinBehind(current: string, tail: seq<string>, w: string, more: seq<string>)
    requires w != "" && Join(tail) == Join([w] + more)
    ensures Join([current] + tail) == Join([current, w] + more)
  {
    JoinNonEmpty([w] + more);
    assert tail != [];
    JoinAppend([current], tail);
    JoinAppend([current], [w] + more);
    assert [current] + ([w] + more) == [current, w] + more;
  }

  /** Coverage is kept when the first word extends the current line. */
  lemma CoversExtend(out: seq<string>, current: string, w: string, rest: seq<string>)
    requires w != ""
    requires Join(NonBlank(out)) == Join(NonBlank([TestLine(current, w)] + rest))
    ensures Join(NonBlank(out)) == Join(NonBlank([current] + ([w] + rest)))
  {
    var test := TestLine(current, w);
    NonBlankCons(current, [w] + rest);
    NonBlankCons(w, rest);
    NonBlankCons(test, rest);
    if current != "" {
      assert NonBlank([test] + rest) == [test] + NonBlank(rest);
      assert NonBlank([current] + ([w] + rest)) == [current] + ([w] + NonBlank(rest));
      JoinExtend(current, w, NonBlank(rest));
      assert [current] + ([w] + NonBlank(rest)) == [current, w] + NonBlank(rest);
    } else {
      assert test == w;
      assert NonBlank([current] + ([w] + rest)) == NonBlank([w] + rest);
    }
  }

  /** Coverage is kept when the current line is emitted and the first word
      starts the next one. */
  lemma CoversBreak(tail: seq<string>, current: string, w: string, rest: seq<string>)
    requires w != ""
    requires Join(NonBlank(tail)) == Join(NonBlank([w] + rest))
    ensures Join(NonBlank([current] + tail)) == Join(NonBlank([current] + ([w] + rest)))
  {
    NonBlankCons(current, [w] + rest);
    NonBlankCons(w, rest);
    NonBlankCons(current, tail);
    if current != "" {
      JoinBehind(current, NonBlank(tail), w, NonBlank(rest));
      assert [current] + ([w] + NonBlank(rest)) == [current, w] + NonBlank(rest);
    } else {
      assert NonBlank([current] + tail) == NonBlank(tail);
      assert NonBlank([current] + ([w] + rest)) == NonBlank([w] + rest);
    }
  }

  lemma {:induction false} WrapFromCovers(words: seq<string>, current: string, measure: string -> int, maxWidth: int)
    requires forall k :: 0 <= k < |words| ==> words[k] != ""
    ensures Join(NonBlank(WrapFrom(words, current, measure, maxWidth))) == Join(NonBlank([current] + words))
  {
    if words == [] {
      NonBlankCons(current, []);
    } else {
      var w, rest := words[0], words[1..];
      assert words == [w] + rest;
      WrapFromStep(words, current, measure, maxWidth);
      var test := TestLine(current, w);
      if measure(test) <= maxWidth {
        WrapFromCovers(rest, test, measure, maxWidth);
        CoversExtend(WrapFrom(rest, test, measure, maxWidth), current, w, rest);
      } else {
        WrapFromCovers(rest, w, measure, maxWidth);
        CoversBreak(WrapFrom(rest, w, measure, maxWidth), current, w, rest);
      }
    }
  }

  /** On well-spaced text (the words separated by single spaces), joining the
      non-empty output lines with single spaces gives back the text: every
      word appears once, in its original order. */
  lemma Coverage(text: string, measure: string -> int, maxWidth: int)
    requires WellSpaced(text)
    ensures Join(NonBlank(Wrap(text, measure, maxWidth))) == text
  {
    var words := Split(text);
    WrapFromCovers(words, "", measure, maxWidth);
    NonBlankCons("", words);
    NonBlankOfWords(words);
    assert Wrap(text, measure, maxWidth) == WrapFrom(words, "", measure, maxWidth);
    assert NonBlank([""] + words) == words;
  }

  /** Each line after the first was started because the line before it,
      extended by the new line's first word, measured wider than the limit. */
  predicate GreedyBreaks(lines: seq<string>, measure: string -> int, maxWidth: int)
  {
    forall k :: 0 <= k < |lines| - 1 ==> measure(TestLine(lines[k], Split(lines[k + 1])[0])) > maxWidth
  }

  lemma {:induction false} WrapFromGreedy(words: seq<string>, current: string, measure: string -> int, maxWidth: int)
    requires forall k :: 0 <= k < |words| ==> words[k] != "" && ' ' !in words[k]
    ensures GreedyBreaks(WrapFrom(words, current, measure, maxWidth), measure, maxWidth)
  {
    if words != [] {
      var w, rest := words[0], words[1..];
      var test := TestLine(current, w);
      if measure(test) <= maxWidth {
        assert WrapFrom(words, current, measure, maxWidth) == WrapFrom(rest, test, measure, maxWidth);
        WrapFromGreedy(rest, test, measure, maxWidth);
      } else {
        var tail := WrapFrom(rest, w, measure, maxWidth);
        var out := [current] + tail;
        WrapFromGreedy(rest, w, measure, maxWidth);
        WrapFromStart(rest, w, measure, maxWidth);
        SplitWord(w);
        forall k | 0 <= k < |out| - 1
          ensures measure(TestLine(out[k], Split(out[k + 1])[0])) > maxWidth
        {
          if k > 0 {
            assert out[k] == tail[k - 1] && out[k + 1] == tail[k];
          }
        }
        assert GreedyBreaks(out, measure, maxWidth);
      }
    }
  }

  /** wrap_text is greedy: whenever it starts a new line, the previous line
      extended by the new line's first word measured wider than the limit. */
  lemma Greedy(text: string, measure: string -> int, maxWidth: int)
    requires WellSpaced(text)
    ensures GreedyBreaks(Wrap(text, measure, maxWidth), measure, maxWidth)
  {
    WrapFromGreedy(Split(text), "", measure, maxWidth);
    assert Wrap(text, measure, maxWidth) == WrapFrom(Split(text), "", measure, maxWidth);
  }

  /** Something is emitted once the current line is non-empty or the last
      word still to be placed is. */
  lemma {:induction false} WrapFromNonEmpty(words: seq<string>, current: string, measure: string -> int, maxWidth: int)
    requires current != "" || (words != [] && words[|words| - 1] != "")
    ensures |WrapFrom(words, current, measure, maxWidth)| >= 1
  {
    if words != [] {
      var w, rest := words[0], words[1..];
      var test := TestLine(current, w);
      if measure(test) <= maxWidth {
        if rest == [] {
          assert w == words[|words| - 1];
        } else {
          assert rest[|rest| - 1] == words[|words| - 1];
        }
        WrapFromNonEmpty(rest, test, measure, maxWidth);
      }
    }
  }

  lemma {:induction false} WrapFromSingle(words: seq<string>, current: string, measure: string -> int, maxWidth: int)
    requires words == [] || words[|words| - 1] != ""
    requires current != "" && measure(current) <= maxWidth
    ensures var out := WrapFrom(words, current, measure, maxWidth);
      |out| >= 1 && (|out| == 1 ==> out[0] == Join([current] + words) && measure(out[0]) <= maxWidth)
  {
    if words == [] {
      assert [current] + words == [current];
    } else {
      var w, rest := words[0], words[1..];
      var test := TestLine(current, w);
      if rest == [] {
        assert w == words[|words| - 1];
      } else {
        assert rest[|rest| - 1] == words[|words| - 1];
      }
      if measure(test) <= maxWidth {
        WrapFromSingle(rest, test, measure, maxWidth);
        assert [current] + words == [current, w] + rest;
        if rest != [] {
          JoinAppend([test], rest);
          JoinAppend([current, w], rest);
        }
      } else {
        WrapFromNonEmpty(rest, w, measure, maxWidth);
      }
    }
  }

  /** Text that neither starts nor ends with a space (every non-empty stripped
      line) yields at least one line; a single line is the whole text and
      fits, so text that measures wider than the limit is broken into at
      least two lines. Spaces inside the text may be repeated. */
  lemma Overlong(text: string, measure: string -> int, maxWidth: int)
    requires text != "" && text[0] != ' ' && text[|text| - 1] != ' '
    ensures |Wrap(text, measure, maxWidth)| >= 1
    ensures |Wrap(text, measure, maxWidth)| == 1 ==> Wrap(text, measure, maxWidth) == [text] && measure(text) <= maxWidth
    ensures measure(text) > maxWidth ==> |Wrap(text, measure, maxWidth)| >= 2
  {
    var words := Split(text);
    SplitFirstWord(text);
    SplitLastWord(text);
    var w, rest := words[0], words[1..];
    assert words == [w] + rest;
    if rest != [] {
      assert rest[|rest| - 1] == words[|words| - 1];
    }
    if measure(w) <= maxWidth {
      WrapFromSingle(rest, w, measure, maxWidth);
    } else {
      WrapFromStart(rest, w, measure, maxWidth);
    }
  }
}
