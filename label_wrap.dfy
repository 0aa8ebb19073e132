/**
 * The axis-label wrapping of the product charts
 * (src/pages/ProductInsights.jsx:37-84): `wrapLabelIntoLines` cuts a label
 * into lines of at most `maxCharsPerLine` characters, greedily, word by word,
 * hard-chunking words that are too long on their own; the tick renderer then
 * keeps the first `maxLines` lines and marks a cut with "...".
 */
module LabelWrap {
  import opened Wrappers
  import opened JsValues

  // ---------------------------------------------------------------------------
  // Words and chunks

  /** `parts.join("")` */
  function Concat(parts: seq<string>): string
    decreases |parts|
  {
    if parts == [] then "" else parts[0] + Concat(parts[1..])
  }

  lemma {:induction false} ConcatAppend(xs: seq<string>, ys: seq<string>)
    ensures Concat(xs + ys) == Concat(xs) + Concat(ys)
    decreases |xs|
  {
    if xs == [] {
      assert xs + ys == ys;
    } else {
      assert (xs + ys)[1..] == xs[1..] + ys;
      ConcatAppend(xs[1..], ys);
    }
  }

  lemma ConcatSnoc(xs: seq<string>, x: string)
    ensures Concat(xs + [x]) == Concat(xs) + x
  {
    ConcatAppend(xs, [x]);
    assert [x][1..] == [];
  }

  /** `s.split(/\s+/)`: the pieces between maximal runs of whitespace. */
  function SplitWords(s: string): (r: seq<string>)
    ensures |r| >= 1
    decreases |s|
  {
    if s == [] then [""]
    else if IsSpace(s[0]) then [""] + SplitWords(TrimStart(s[1..]))
    else
      var rest := SplitWords(s[1..]);
      [[s[0]] + rest[0]] + rest[1..]
  }

  /** Removing the leading whitespace removes nothing that `Squash` keeps. */
  lemma SquashTrimStart(s: string)
    ensures Squash(TrimStart(s)) == Squash(s)
  {
    TrimStartFacts(s);
    var k := |s| - |TrimStart(s)|;
    assert s == s[..k] + TrimStart(s);
    SquashAppend(s[..k], TrimStart(s));
    SquashOfSpaces(s[..k]);
  }

  /** No word holds whitespace, and the words put together are the text without its whitespace. */
  lemma {:induction false} SplitContent(s: string)
    ensures forall i :: 0 <= i < |SplitWords(s)| ==> NoSpace(SplitWords(s)[i])
    ensures Concat(SplitWords(s)) == Squash(s)
    decreases |s|
  {
    if s != [] {
      if IsSpace(s[0]) {
        var t := TrimStart(s[1..]);
        SplitContent(t);
        SquashTrimStart(s[1..]);
        assert ([""] + SplitWords(t))[1..] == SplitWords(t);
      } else {
        var rest := SplitWords(s[1..]);
        SplitContent(s[1..]);
        var r := [[s[0]] + rest[0]] + rest[1..];
        assert r[1..] == rest[1..];
        assert rest == [rest[0]] + rest[1..];
        assert Concat(rest) == rest[0] + Concat(rest[1..]);
        forall i | 0 <= i < |r| ensures NoSpace(r[i]) {
          if i > 0 {
            assert r[i] == rest[i];
          }
        }
      }
    }
  }

  /** A non-empty text with no whitespace at either end splits into non-empty words. */
  lemma {:induction false} SplitTrimmedWords(s: string)
    requires s != [] && IsTrimmed(s)
    ensures forall i :: 0 <= i < |SplitWords(s)| ==> SplitWords(s)[i] != ""
    decreases |s|
  {
    var t := s[1..];
    if t != [] {
      assert t[|t| - 1] == s[|s| - 1];
      if IsSpace(t[0]) {
        var u := TrimStart(t[1..]);
        TrimStartFacts(t[1..]);
        TrimStartKeepsLast(t[1..]);
        SplitTrimmedWords(u);
        assert SplitWords(t) == [""] + SplitWords(u);
      } else {
        SplitTrimmedWords(t);
      }
      var rest := SplitWords(t);
      var r := [[s[0]] + rest[0]] + rest[1..];
      forall i | 0 <= i < |r| ensures r[i] != "" {
        if i > 0 {
          assert r[i] == rest[i];
        }
      }
    }
  }

  /**
   * `word.match(new RegExp(`.{1,${n}}`, "g"))`: successive pieces of `n`
   * characters, the last one shorter. A word never holds a line terminator,
   * so `.` matches each of its characters. No match is the empty list.
   */
  function Chunks(w: string, n: int): seq<string>
    requires n >= 1
    decreases |w|
  {
    if |w| <= n then (if w == "" then [] else [w])
    else [w[..n]] + Chunks(w[n..], n)
  }

  /** The chunks make up the word, every chunk but the last has exactly `n` characters, and the last has 1 to `n`. */
  lemma {:induction false} ChunksShape(w: string, n: int)
    requires n >= 1
    ensures var c := Chunks(w, n);
      && Concat(c) == w
      && (w != "" ==> |c| >= 1 && 1 <= |c[|c| - 1]| <= n)
      && (|w| > n ==> |c| >= 2)
      && forall i :: 0 <= i < |c| - 1 ==> |c[i]| == n
    decreases |w|
  {
    if |w| > n {
      var rest := Chunks(w[n..], n);
      ChunksShape(w[n..], n);
      var c := [w[..n]] + rest;
      assert c[1..] == rest;
      assert w == w[..n] + w[n..];
      forall i | 0 <= i < |c| - 1 ensures |c[i]| == n {
        if i > 0 {
          assert c[i] == rest[i - 1];
        }
      }
    }
  }

  // ---------------------------------------------------------------------------
  // The greedy wrap as a fold

  /** The loop's state: the lines pushed so far and `currentLine`. */
  datatype WrapState = WrapState(lines: seq<string>, current: string)

  /** `currentLine ? `${currentLine} ${word}` : word` */
  function Tentative(current: string, word: string): string {
    if current != "" then current + " " + word else word
  }

  /** The lines once a non-empty `currentLine` has been pushed (lines 54-56). */
  function Pushed(st: WrapState): seq<string> {
    if st.current != "" then st.lines + [st.current] else st.lines
  }

  /** One `forEach` iteration (lines 48-67). */
  function Step(st: WrapState, word: string, n: int): WrapState
    requires n >= 1
  {
    var tentative := Tentative(st.current, word);
    if |tentative| <= n then WrapState(st.lines, tentative)
    else if |word| <= n then WrapState(Pushed(st), word)
    else
      var matched := Chunks(word, n);
      var chunks := if matched == [] then [word] else matched;
      WrapState(Pushed(st) + (if |chunks| > 1 then chunks[..|chunks| - 1] else []), chunks[|chunks| - 1])
  }

  /** The state after the loop has seen `words`. */
  function Run(words: seq<string>, n: int): WrapState
    requires n >= 1
    decreases |words|
  {
    if words == [] then WrapState([], "")
    else Step(Run(words[..|words| - 1], n), words[|words| - 1], n)
  }

  /** Lines 70-72: push a non-empty `currentLine`. */
  function Finish(st: WrapState): seq<string> {
    Pushed(st)
  }

  /** The lines `wrapLabelIntoLines` returns for an already trimmed `text`. */
  function WrappedLines(text: string, n: int): seq<string>
    requires n >= 1
  {
    if text == "" then [""]
    else
      var lines := Finish(Run(SplitWords(text), n));
      if |lines| > 0 then lines else [text]
  }

  /** `String(value ?? "").trim()`; None stands for the TypeError `String` throws. */
  function LabelText(value: Value, h: Host): (r: Option<string>)
    ensures r.None? <==> ConversionThrows(value)
  {
    var s := ToStr(Coalesce(value, Str("")), h);
    if s.None? then None else Some(Trim(s.value))
  }

  /** `wrapLabelIntoLines(value, maxCharsPerLine)`; None stands for the TypeError it throws. */
  function WrapLabel(value: Value, h: Host, n: int): (r: Option<seq<string>>)
    requires n >= 1
    ensures r.None? <==> ConversionThrows(value)
  {
    var text := LabelText(value, h);
    if text.None? then None else Some(WrappedLines(text.value, n))
  }

  // ---------------------------------------------------------------------------
  // Properties of one step

  /**
   * Greedy filling: the current line is extended by the word exactly when the
   * extended line fits, and a line is emitted exactly when it does not.
   */
  lemma GreedyStep(st: WrapState, word: string, n: int)
    requires n >= 1
    ensures |Tentative(st.current, word)| <= n ==> Step(st, word, n) == WrapState(st.lines, Tentative(st.current, word))
    ensures |Step(st, word, n).lines| == |st.lines| <==> |Tentative(st.current, word)| <= n
    ensures |Step(st, word, n).lines| >= |st.lines|
  {
    if |Tentative(st.current, word)| > n && |word| > n {
      ChunksShape(word, n);
    }
  }

  /** A word that fits on a line is never split: it ends up whole in the current line. */
  lemma FittingWordIsWhole(st: WrapState, word: string, n: int)
    requires n >= 1 && |word| <= n
    ensures var s := Step(st, word, n);
      || (s.lines == st.lines && s.current == Tentative(st.current, word))
      || (s.lines == Pushed(st) && s.current == word)
  {
  }

  /**
   * A word longer than a line is cut: after the current line, pieces of
   * exactly `n` characters are emitted and the rest, 1 to `n` characters,
   * becomes the current line; together they are the word.
   */
  lemma OverlongWordIsChunked(st: WrapState, word: string, n: int)
    requires n >= 1 && |word| > n
    ensures var s := Step(st, word, n);
      var p := Pushed(st);
      && |s.lines| > |p|
      && s.lines[..|p|] == p
      && (forall i :: |p| <= i < |s.lines| ==> |s.lines[i]| == n)
      && Concat(s.lines[|p|..]) + s.current == word
      && 1 <= |s.current| <= n
  {
    var c := Chunks(word, n);
    ChunksShape(word, n);
    var s := Step(st, word, n);
    var p := Pushed(st);
    var init := c[..|c| - 1];
    assert s.lines == p + init;
    assert s.lines[|p|..] == init;
    assert s.lines[..|p|] == p;
    assert c == init + [c[|c| - 1]];
    ConcatSnoc(init, c[|c| - 1]);
  }

  /** Every emitted line has 1 to `n` characters, and so has a non-empty current line. */
  ghost predicate WellFormed(st: WrapState, n: int) {
    && (forall i :: 0 <= i < |st.lines| ==> 1 <= |st.lines[i]| <= n)
    && |st.current| <= n
  }

  /** The text a state holds once its whitespace is removed. */
  function Content(st: WrapState): string {
    Squash(Concat(st.lines)) + Squash(st.current)
  }

  lemma PushedContent(st: WrapState)
    ensures Content(WrapState(Pushed(st), "")) == Content(st)
  {
    assert Squash("") == "";
    if st.current != "" {
      ConcatSnoc(st.lines, st.current);
      SquashAppend(Concat(st.lines), st.current);
    }
  }

  lemma StepWellFormed(st: WrapState, word: string, n: int)
    requires n >= 1 && WellFormed(st, n)
    ensures WellFormed(Step(st, word, n), n)
    ensures word != "" ==> Step(st, word, n).current != ""
  {
    var s := Step(st, word, n);
    if |Tentative(st.current, word)| > n {
      var p := Pushed(st);
      assert forall i :: 0 <= i < |p| ==> 1 <= |p[i]| <= n;
      if |word| > n {
        OverlongWordIsChunked(st, word, n);
        assert forall i :: 0 <= i < |s.lines| ==> 1 <= |s.lines[i]| <= n by {
          forall i | 0 <= i < |s.lines| ensures 1 <= |s.lines[i]| <= n {
            if i < |p| {
              assert s.lines[i] == s.lines[..|p|][i];
            }
          }
        }
      }
    }
  }

  /** Extending the current line by a word adds exactly the word to the content. */
  lemma TentativeContent(current: string, word: string)
    requires NoSpace(word)
    ensures Squash(Tentative(current, word)) == Squash(current) + word
  {
    SquashOfNoSpace(word);
    if current != "" {
      assert Squash(" ") == "" + Squash(" "[1..]);
      calc {
        Squash(current + " " + word);
        { SquashAppend(current + " ", word); }
        Squash(current + " ") + word;
        { SquashAppend(current, " "); }
        (Squash(current) + "") + word;
        { assert Squash(current) + "" == Squash(current); }
        Squash(current) + word;
      }
    } else {
      assert Squash(current) == "";
    }
  }

  /** Emitting all pieces of a word but the last, and keeping the last as the current line, adds exactly the word. */
  lemma PiecesContent(p: seq<string>, c: seq<string>, word: string)
    requires c != [] && Concat(c) == word && NoSpace(word)
    ensures Squash(Concat(p + c[..|c| - 1])) + Squash(c[|c| - 1]) == Squash(Concat(p)) + word
  {
    var init, last := c[..|c| - 1], c[|c| - 1];
    assert c == init + [last];
    ConcatAppend(p, init);
    ConcatSnoc(init, last);
    SquashOfNoSpace(word);
    calc {
      Squash(Concat(p + init)) + Squash(last);
      { SquashAppend(Concat(p), Concat(init)); }
      (Squash(Concat(p)) + Squash(Concat(init))) + Squash(last);
      Squash(Concat(p)) + (Squash(Concat(init)) + Squash(last));
      { SquashAppend(Concat(init), last); }
      Squash(Concat(p)) + Squash(word);
    }
  }

  /** The step for a word longer than a line, with its chunks as pieces. */
  lemma OverlongStep(st: WrapState, word: string, n: int)
    requires n >= 1 && |word| > n
    ensures var c := Chunks(word, n);
      && |c| >= 2
      && Step(st, word, n) == WrapState(Pushed(st) + c[..|c| - 1], c[|c| - 1])
  {
    ChunksShape(word, n);
  }

  /** A step adds exactly the word to the content. */
  lemma StepContent(st: WrapState, word: string, n: int)
    requires n >= 1 && NoSpace(word)
    ensures Content(Step(st, word, n)) == Content(st) + word
  {
    var a, b := Squash(Concat(st.lines)), Squash(st.current);
    var tentative := Tentative(st.current, word);
    if |tentative| <= n {
      calc {
        Content(Step(st, word, n));
        a + Squash(tentative);
        { TentativeContent(st.current, word); }
        a + (b + word);
        (a + b) + word;
      }
    } else {
      var p := Pushed(st);
      PushedContent(st);
      assert Squash(Concat(p)) == Content(st) by {
        assert Content(WrapState(p, "")) == Squash(Concat(p)) + "";
      }
      if |word| > n {
        OverlongStep(st, word, n);
        ChunksShape(word, n);
        PiecesContent(p, Chunks(word, n), word);
      } else {
        SquashOfNoSpace(word);
      }
    }
  }

  /** Over words without whitespace, the fold keeps the state well formed and its content is the words put together. */
  lemma {:induction false} RunFacts(words: seq<string>, n: int)
    requires n >= 1
    requires forall i :: 0 <= i < |words| ==> NoSpace(words[i])
    ensures WellFormed(Run(words, n), n)
    ensures Content(Run(words, n)) == Concat(words)
    ensures words != [] && words[|words| - 1] != "" ==> Run(words, n).current != ""
    decreases |words|
  {
    if words != [] {
      var init := words[..|words| - 1];
      var w := words[|words| - 1];
      RunFacts(init, n);
      StepWellFormed(Run(init, n), w, n);
      StepContent(Run(init, n), w, n);
      assert words == init + [w];
      ConcatSnoc(init, w);
    }
  }

  // ---------------------------------------------------------------------------
  // Properties of the whole wrap

  /** Text that is empty or all whitespace gives exactly one empty line. */
  lemma WrapOfBlank(value: Value, h: Host, n: int)
    requires n >= 1
    requires ToStr(Coalesce(value, Str("")), h).Some? && AllSpace(ToStr(Coalesce(value, Str("")), h).value)
    ensures WrapLabel(value, h, n) == Some([""])
  {
    TrimEmptyIffBlank(ToStr(Coalesce(value, Str("")), h).value);
  }

  /**
   * For any other text the lines are non-empty, at most `n` characters long,
   * and put together they are the text without its whitespace.
   */
  lemma WrappedLinesFacts(text: string, n: int)
    requires n >= 1 && text != "" && IsTrimmed(text)
    ensures var r := WrappedLines(text, n);
      && |r| >= 1
      && (forall i :: 0 <= i < |r| ==> 1 <= |r[i]| <= n)
      && Squash(Concat(r)) == Squash(text)
  {
    var words := SplitWords(text);
    SplitContent(text);
    SplitTrimmedWords(text);
    RunFacts(words, n);
    var st := Run(words, n);
    assert st.current != "";
    var r := Pushed(st);
    assert WrappedLines(text, n) == r;
    assert forall i :: 0 <= i < |r| ==> 1 <= |r[i]| <= n;
    PushedContent(st);
    calc {
      Squash(Concat(r));
      Squash(Concat(r)) + Squash("");
      Content(WrapState(r, ""));
      Content(st);
    }
  }

  /**
   * The wrap of a string: `[""]` exactly when it is empty or all whitespace, and
   * otherwise lines at most `n` long holding the text without its whitespace.
   */
  lemma WrapTextFacts(s: string, n: int)
    requires n >= 1
    ensures var r := WrappedLines(Trim(s), n);
      && (r == [""] <==> AllSpace(s))
      && |r| >= 1
      && (forall i :: 0 <= i < |r| ==> |r[i]| <= n)
      && Squash(Concat(r)) == Squash(s)
  {
    var text := Trim(s);
    TrimSquash(s);
    TrimEmptyIffBlank(s);
    if text == "" {
      SquashOfSpaces(s);
      assert Concat([""]) == "" + Concat([]);
    } else {
      var _, _ := TrimSlice(s);
      WrappedLinesFacts(text, n);
    }
  }

  /**
   * The wrap throws exactly when `String(value ?? "")` does. Otherwise the label
   * wraps into `[""]` exactly when its text is empty or all whitespace, and the
   * lines are at most `n` long and hold the text without its whitespace.
   */
  lemma WrapLabelFacts(value: Value, h: Host, n: int)
    requires n >= 1
    ensures WrapLabel(value, h, n).None? <==> ToStr(Coalesce(value, Str("")), h).None?
    ensures WrapLabel(value, h, n).Some? ==>
      var r := WrapLabel(value, h, n).value;
      var s := ToStr(Coalesce(value, Str("")), h).value;
      && (r == [""] <==> AllSpace(s))
      && |r| >= 1
      && (forall i :: 0 <= i < |r| ==> |r[i]| <= n)
      && Squash(Concat(r)) == Squash(s)
  {
    var str := ToStr(Coalesce(value, Str("")), h);
    if str.Some? {
      assert WrapLabel(value, h, n).value == WrappedLines(Trim(str.value), n);
      WrapTextFacts(str.value, n);
    }
  }

  /** The fold over one more word is one more step. */
  lemma RunSnoc(words: seq<string>, i: nat, n: int)
    requires n >= 1 && i < |words|
    ensures Run(words[..i + 1], n) == Step(Run(words[..i], n), words[i], n)
  {
    assert words[..i + 1][..i] == words[..i];
  }

  /** The `forEach` over the words (lines 48-67). */
  method WrapWords(words: seq<string>, maxCharsPerLine: int) returns (lines: seq<string>, currentLine: string)
    requires maxCharsPerLine >= 1
    ensures WrapState(lines, currentLine) == Run(words, maxCharsPerLine)
  {
    lines, currentLine := [], "";
    var i := 0;
    while i < |words|
      invariant 0 <= i <= |words|
      invariant WrapState(lines, currentLine) == Run(words[..i], maxCharsPerLine)
    {
      var word := words[i];
      ghost var before := WrapState(lines, currentLine);
      var tentative := if currentLine != "" then currentLine + " " + word else word;
      assert tentative == Tentative(before.current, word);
      if |tentative| <= maxCharsPerLine {
        currentLine := tentative;
      } else {
        if currentLine != "" {
          lines := lines + [currentLine];
        }
        assert lines == Pushed(before);
        if |word| <= maxCharsPerLine {
          currentLine := word;
        } else {
          var matched := Chunks(word, maxCharsPerLine);
          var chunks := if matched == [] then [word] else matched;
          if |chunks| > 1 {
            lines := lines + chunks[..|chunks| - 1];
          } else {
            assert lines == lines + [];
          }
          currentLine := chunks[|chunks| - 1];
        }
      }
      assert WrapState(lines, currentLine) == Step(before, word, maxCharsPerLine);
      RunSnoc(words, i, maxCharsPerLine);
      assert WrapState(lines, currentLine) == Run(words[..i + 1], maxCharsPerLine);
      i := i + 1;
    }
    assert words[..|words|] == words;
  }

  /** The wrap as the loop computes it; None stands for the TypeError `String` throws. */
  method WrapLabelIntoLines(value: Value, h: Host, maxCharsPerLine: int) returns (result: Option<seq<string>>)
    requires maxCharsPerLine >= 1
    ensures result == WrapLabel(value, h, maxCharsPerLine)
  {
    var labelText := LabelText(value, h);
    if labelText.None? {
      return None;
    }
    var text := labelText.value;
    if text == "" {
      return Some([""]);
    }
    var lines, currentLine := WrapWords(SplitWords(text), maxCharsPerLine);
    if currentLine != "" {
      lines := lines + [currentLine];
    }
    result := Some(if |lines| > 0 then lines else [text]);
  }

  // ---------------------------------------------------------------------------
  // Truncation in the tick renderer

  /** The end index `Array.prototype.slice(0, end)` stops at; a negative end counts from the back. */
  function SliceEnd(len: nat, end: int): (k: nat)
    ensures k <= len
  {
    if end < 0 then (if len + end > 0 then len + end else 0)
    else if end < len then end else len
  }

  /** `lines.slice(0, maxLines)`, with "..." appended to the last kept line when lines were dropped (lines 80-84). */
  function Truncated(lines: seq<string>, maxLines: int): seq<string> {
    var limited := lines[..SliceEnd(|lines|, maxLines)];
    if |lines| > maxLines >= 1 then limited[maxLines - 1 := limited[maxLines - 1] + "..."] else limited
  }

  /**
   * With `maxLines >= 1`, at most `maxLines` lines are kept, all of them
   * unchanged except that the last kept one gains "..." exactly when lines
   * were dropped.
   */
  lemma TruncatedShape(lines: seq<string>, maxLines: int)
    requires maxLines >= 1
    ensures var r := Truncated(lines, maxLines);
      && |r| == (if |lines| < maxLines then |lines| else maxLines)
      && (forall i :: 0 <= i < |r| - 1 ==> r[i] == lines[i])
      && (|r| > 0 ==> (r[|r| - 1] == lines[|r| - 1] + "..." <==> |lines| > maxLines))
      && (|r| > 0 && |lines| <= maxLines ==> r[|r| - 1] == lines[|r| - 1])
  {
    var r := Truncated(lines, maxLines);
    if |r| > 0 && |lines| <= maxLines {
      assert |r[|r| - 1]| != |lines[|r| - 1] + "..."|;
    }
  }

  /** The renderer's truncation, overwriting the last kept line in place. */
  method TruncateLines(lines: seq<string>, maxLines: int) returns (limited: seq<string>)
    ensures limited == Truncated(lines, maxLines)
  {
    var end := SliceEnd(|lines|, maxLines);
    var a := new string[end](i requires 0 <= i < |lines| => lines[i]);
    if |lines| > maxLines >= 1 {
      a[maxLines - 1] := a[maxLines - 1] + "...";
    }
    limited := a[..];
  }

  /** The lines one chart tick shows for `payload?.value` (lines 77-84); None stands for the TypeError the wrap throws. */
  method TickLines(value: Value, h: Host, maxCharsPerLine: int, maxLines: int) returns (shown: Option<seq<string>>)
    requires maxCharsPerLine >= 1
    ensures shown.None? <==> ConversionThrows(value)
    ensures var wrapped := WrapLabel(Coalesce(value, Str("")), h, maxCharsPerLine);
      shown.Some? ==> wrapped.Some? && shown.value == Truncated(wrapped.value, maxLines)
  {
    var lines := WrapLabelIntoLines(Coalesce(value, Str("")), h, maxCharsPerLine);
    if lines.None? {
      return None;
    }
    var limited := TruncateLines(lines.value, maxLines);
    shown := Some(limited);
  }
}
