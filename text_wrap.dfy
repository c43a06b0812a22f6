/** Greedy word wrapping (`wrap` in src/lib/reports/pdf.ts): the words of a
    text are packed into lines, a word joining the current line whenever the
    widened line still fits the width. */
module TextWrap {
  import opened JsValues

  /** `font.widthOfTextAtSize(text, size)`: the width of a text set in one
      font at one size, in whole points rounded up.  Every width the text is
      compared against is a whole number of points, so rounding up decides
      each comparison exactly as the unrounded width would. */
  type Measure = (string, int) -> int

  /** The pending line with one more word: `line ? line + " " + w : w`. */
  function Widened(line: string, w: string): (r: string)
    ensures line == [] ==> r == w
    ensures line != [] ==> r == line + " " + w
  {
    if line != [] then line + " " + w else w
  }

  /** `[line]` when `line` is not empty, else nothing: the guarded push. */
  function Flush(line: string): (r: seq<string>)
    ensures |r| <= 1
    ensures r == [] <==> line == []
  {
    if line != [] then [line] else []
  }

  /** The lines the loop still emits when `line` is pending and `words` are
      left to place. */
  function WrapFrom(words: seq<string>, line: string, maxWidth: int, font: Measure, size: int): seq<string>
    decreases |words|
  {
    if words == [] then Flush(line)
    else
      var test := Widened(line, words[0]);
      if font(test, size) <= maxWidth then WrapFrom(words[1..], test, maxWidth, font, size)
      else Flush(line) + WrapFrom(words[1..], words[0], maxWidth, font, size)
  }

  /** What `wrap(text, maxWidth, font, size)` returns. */
  function WrapLines(text: string, maxWidth: int, font: Measure, size: int): seq<string> {
    WrapFrom(SplitWs(text), "", maxWidth, font, size)
  }

  /** `wrap`: split on whitespace runs, then place the words one by one. */
  method Wrap(text: string, maxWidth: int, font: Measure, size: int) returns (lines: seq<string>)
    ensures lines == WrapLines(text, maxWidth, font, size)
  {
    var words := SplitWs(text);
    lines := [];
    var line := "";
    var i := 0;
    while i < |words|
      invariant 0 <= i <= |words|
      invariant lines + WrapFrom(words[i..], line, maxWidth, font, size)
             == WrapFrom(words, "", maxWidth, font, size)
    {
      var w := words[i];
      assert words[i..][1..] == words[i + 1..];
      var test := if line != [] then line + " " + w else w;
      if font(test, size) <= maxWidth {
        line := test;
      } else {
        if line != [] {
          lines := lines + [line];
        }
        line := w;
      }
      i := i + 1;
    }
    if line != [] {
      lines := lines + [line];
    }
  }

  /** No emitted line is empty. */
  lemma {:induction false} WrapFromNonEmpty(words: seq<string>, line: string, maxWidth: int, font: Measure, size: int)
    ensures forall k :: 0 <= k < |WrapFrom(words, line, maxWidth, font, size)| ==>
              WrapFrom(words, line, maxWidth, font, size)[k] != []
    decreases |words|
  {
    if words != [] {
      WrapFromNonEmpty(words[1..], Widened(line, words[0]), maxWidth, font, size);
      WrapFromNonEmpty(words[1..], words[0], maxWidth, font, size);
    }
  }

  /** Every emitted line fits the width, or is a single word of the input
      (one too wide to fit even alone), provided the pending line is. */
  lemma {:induction false} WrapFromFits(words: seq<string>, line: string, all: seq<string>,
                                        maxWidth: int, font: Measure, size: int)
    requires forall k :: 0 <= k < |words| ==> words[k] in all
    requires line == [] || font(line, size) <= maxWidth || line in all
    ensures forall k :: 0 <= k < |WrapFrom(words, line, maxWidth, font, size)| ==>
              var ln := WrapFrom(words, line, maxWidth, font, size)[k];
              font(ln, size) <= maxWidth || ln in all
    decreases |words|
  {
    if words != [] {
      assert words[0] in all;
      assert forall k :: 0 <= k < |words[1..]| ==> words[1..][k] == words[k + 1];
      var test := Widened(line, words[0]);
      if font(test, size) <= maxWidth {
        WrapFromFits(words[1..], test, all, maxWidth, font, size);
      } else {
        WrapFromFits(words[1..], words[0], all, maxWidth, font, size);
      }
    }
  }

  /** A pending non-empty line, or a non-empty word still to place, makes
      the output non-empty. */
  lemma {:induction false} WrapFromSomething(words: seq<string>, line: string, maxWidth: int, font: Measure, size: int)
    requires line != [] || exists k :: 0 <= k < |words| && words[k] != []
    ensures WrapFrom(words, line, maxWidth, font, size) != []
    decreases |words|
  {
    if words != [] {
      var test := Widened(line, words[0]);
      if font(test, size) <= maxWidth {
        if test == [] {
          var k :| 0 <= k < |words| && words[k] != [];
          assert k != 0;
          assert words[1..][k - 1] == words[k];
        }
        WrapFromSomething(words[1..], test, maxWidth, font, size);
      } else if line == [] {
        if words[0] == [] {
          var k :| 0 <= k < |words| && words[k] != [];
          assert k != 0;
          assert words[1..][k - 1] == words[k];
        }
        WrapFromSomething(words[1..], words[0], maxWidth, font, size);
      }
    }
  }

  /** Only empty words leave nothing behind. */
  lemma {:induction false} WrapFromNothing(words: seq<string>, maxWidth: int, font: Measure, size: int)
    requires forall k :: 0 <= k < |words| ==> words[k] == []
    ensures WrapFrom(words, "", maxWidth, font, size) == []
    decreases |words|
  {
    if words != [] {
      assert forall k :: 0 <= k < |words[1..]| ==> words[1..][k] == words[k + 1];
      WrapFromNothing(words[1..], maxWidth, font, size);
    }
  }

  /** `xs.join(sep)` over a concatenation of two non-empty lists. */
  lemma {:induction false} JoinConcat(xs: seq<string>, ys: seq<string>, sep: string)
    requires xs != [] && ys != []
    ensures Join(xs + ys, sep) == Join(xs, sep) + sep + Join(ys, sep)
    decreases |xs|
  {
    if |xs| == 1 {
      assert (xs + ys)[1..] == ys;
    } else {
      assert (xs + ys)[1..] == xs[1..] + ys;
      JoinConcat(xs[1..], ys, sep);
    }
  }

  /** Wrapping only moves line breaks: the lines joined with single spaces
      give the pending line and the words joined with single spaces, when no
      word is empty. */
  lemma {:induction false} WrapFromKeepsWords(words: seq<string>, line: string, maxWidth: int, font: Measure, size: int)
    requires forall k :: 0 <= k < |words| ==> words[k] != []
    requires line != [] || words != []
    ensures Join(WrapFrom(words, line, maxWidth, font, size), " ") == Join(Flush(line) + words, " ")
    decreases |words|
  {
    if words != [] {
      var w := words[0];
      var rest := words[1..];
      assert forall k :: 0 <= k < |rest| ==> rest[k] == words[k + 1];
      assert words == [w] + rest;
      var test := Widened(line, w);
      if font(test, size) <= maxWidth {
        if rest != [] {
          WrapFromKeepsWords(rest, test, maxWidth, font, size);
          JoinConcat([test], rest, " ");
          if line != [] {
            JoinConcat([line, w], rest, " ");
            assert Flush(line) + words == [line, w] + rest;
          } else {
            assert Flush(line) + words == [test] + rest;
          }
        } else {
          if line != [] {
            assert Flush(line) + words == [line, w];
          }
        }
      } else {
        WrapFromKeepsWords(rest, w, maxWidth, font, size);
        assert Flush(w) + rest == words;
        if line != [] {
          WrapFromSomething(rest, w, maxWidth, font, size);
          JoinConcat([line], WrapFrom(rest, w, maxWidth, font, size), " ");
          JoinConcat([line], words, " ");
          assert WrapFrom(words, line, maxWidth, font, size)
              == [line] + WrapFrom(rest, w, maxWidth, font, size);
          assert Flush(line) + words == [line] + words;
        } else {
          assert WrapFrom(words, line, maxWidth, font, size) == WrapFrom(rest, w, maxWidth, font, size);
          assert Flush(line) + words == words;
        }
      }
    }
  }

  /** A blank text splits into empty words only. */
  lemma {:induction false} SplitWsOfBlank(s: string)
    requires AllWs(s)
    ensures forall k :: 0 <= k < |SplitWs(s)| ==> SplitWs(s)[k] == []
    decreases |s|
  {
    var i := FirstWs(s);
    if s != [] {
      assert IsWs(s[0]);
      assert i == 0;
      var rest := s[SkipWs(s, 1)..];
      assert AllWs(rest);
      SplitWsOfBlank(rest);
      assert SplitWs(s) == [[]] + SplitWs(rest);
    }
  }

  /** A text that splits into empty words only is blank: its first word is
      empty, so it starts with whitespace, and the run of whitespace from
      there must reach the end, or the next word would not be empty. */
  lemma BlankOfSplitWs(s: string)
    requires forall k :: 0 <= k < |SplitWs(s)| ==> SplitWs(s)[k] == []
    ensures AllWs(s)
  {
    var i := FirstWs(s);
    assert SplitWs(s)[0] == s[..i];
    if i < |s| {
      var j := SkipWs(s, i + 1);
      var rest := s[j..];
      assert SplitWs(s) == [s[..i]] + SplitWs(rest);
      assert SplitWs(s)[1] == SplitWs(rest)[0];
      var i2 := FirstWs(rest);
      assert SplitWs(rest)[0] == rest[..i2];
      assert i2 == 0;
      assert j == |s|;
    }
  }

  /** Corollaries for one text. */

  lemma WrapNoEmptyLines(text: string, maxWidth: int, font: Measure, size: int)
    ensures forall k :: 0 <= k < |WrapLines(text, maxWidth, font, size)| ==>
              WrapLines(text, maxWidth, font, size)[k] != []
  {
    WrapFromNonEmpty(SplitWs(text), "", maxWidth, font, size);
  }

  lemma WrapFits(text: string, maxWidth: int, font: Measure, size: int)
    ensures forall k :: 0 <= k < |WrapLines(text, maxWidth, font, size)| ==>
              var ln := WrapLines(text, maxWidth, font, size)[k];
              font(ln, size) <= maxWidth || ln in SplitWs(text)
  {
    WrapFromFits(SplitWs(text), "", SplitWs(text), maxWidth, font, size);
  }

  /** A blank text gives no lines; any other text gives at least one. */
  lemma WrapBlank(text: string, maxWidth: int, font: Measure, size: int)
    ensures WrapLines(text, maxWidth, font, size) == [] <==> AllWs(text)
  {
    var words := SplitWs(text);
    if AllWs(text) {
      SplitWsOfBlank(text);
      WrapFromNothing(words, maxWidth, font, size);
    } else {
      if forall k :: 0 <= k < |words| ==> words[k] == [] {
        BlankOfSplitWs(text);
      }
      WrapFromSomething(words, "", maxWidth, font, size);
    }
  }

  /** A trimmed, non-empty text comes back word for word. */
  lemma WrapKeepsWords(text: string, maxWidth: int, font: Measure, size: int)
    requires text != [] && IsTrimmed(text)
    ensures Join(WrapLines(text, maxWidth, font, size), " ") == Join(SplitWs(text), " ")
  {
    SplitWsOfTrimmed(text);
    WrapFromKeepsWords(SplitWs(text), "", maxWidth, font, size);
    assert Flush("") + SplitWs(text) == SplitWs(text);
  }
}
