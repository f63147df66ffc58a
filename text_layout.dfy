/**
 * The measuring passes of the text cursor engine, as functions of the text and the glyph metrics:
 * the width of a run of glyphs, how many leading glyphs fit in a budget (the walk shared by
 * fillStringAtWidthCursor and MoveToX) and the greedy line segmentation of GenLines.
 * Text is a sequence of single-unit characters.
 */
module TextLayout {

  /**
   * The font's metrics, in the same integer unit as every width budget: the advance width of a
   * glyph, and the kerning adjustment between a glyph and the one laid out just before it.
   */
  datatype Metrics = Metrics(width: char -> int, kern: (char, char) -> int)

  /** GenLines starts every line at x = 3. */
  const LeftMargin: int := 3

  /** The width of s laid out left to right with kerning between neighbours. */
  function Span(m: Metrics, s: string): int
    decreases |s|
  {
    if s == [] then 0
    else if |s| == 1 then m.width(s[0])
    else Span(m, s[..|s| - 1]) + m.kern(s[|s| - 2], s[|s| - 1]) + m.width(s[|s| - 1])
  }

  /** Laying out one more glyph adds its kerning against the previous glyph (if any) and its width. */
  lemma SpanAppend(m: Metrics, s: string, c: char)
    ensures Span(m, s + [c]) == Span(m, s) + (if s == [] then 0 else m.kern(s[|s| - 1], c)) + m.width(c)
  {
    assert (s + [c])[..|s|] == s;
  }

  lemma SpanPrefix(m: Metrics, s: string, k: nat)
    requires k < |s|
    ensures Span(m, s[..k + 1]) == Span(m, s[..k]) + (if k == 0 then 0 else m.kern(s[k - 1], s[k])) + m.width(s[k])
  {
    assert s[..k + 1] == s[..k] + [s[k]];
    SpanAppend(m, s[..k], s[k]);
  }

  /** The walk's invariant, one glyph further: every prefix up to k + 1 fits. */
  lemma FitsExtend(m: Metrics, s: string, bound: int, k: nat)
    requires k < |s|
    requires forall j :: 0 < j <= k ==> Span(m, s[..j]) <= bound
    requires Span(m, s[..k + 1]) <= bound
    ensures forall j :: 0 < j <= k + 1 ==> Span(m, s[..j]) <= bound
  {
  }

  // ---------------------------------------------------------------------------------------------
  // Width-limited walk: the loop of fillStringAtWidthCursor and of MoveToX.

  /**
   * The number of leading glyphs of s the walk lays out before the next glyph would end past
   * bound: every shorter prefix fits, and the next prefix (if there is one) does not.
   */
  function FitCount(m: Metrics, s: string, bound: int): (k: nat)
    ensures k <= |s|
    ensures forall j :: 0 < j <= k ==> Span(m, s[..j]) <= bound
    ensures k < |s| ==> Span(m, s[..k + 1]) > bound
  {
    FitFrom(m, s, bound, 0)
  }

  function FitFrom(m: Metrics, s: string, bound: int, k: nat): (r: nat)
    requires k <= |s|
    requires forall j :: 0 < j <= k ==> Span(m, s[..j]) <= bound
    ensures k <= r <= |s|
    ensures forall j :: 0 < j <= r ==> Span(m, s[..j]) <= bound
    ensures r < |s| ==> Span(m, s[..r + 1]) > bound
    decreases |s| - k
  {
    if k == |s| || Span(m, s[..k + 1]) > bound then k else FitFrom(m, s, bound, k + 1)
  }

  /** The count is determined by the two conditions of FitCount's contract. */
  lemma FitCountUnique(m: Metrics, s: string, bound: int, k: nat)
    requires k <= |s|
    requires forall j :: 0 < j <= k ==> Span(m, s[..j]) <= bound
    requires k < |s| ==> Span(m, s[..k + 1]) > bound
    ensures FitCount(m, s, bound) == k
  {
    FitFromReaches(m, s, bound, k, 0);
  }

  lemma {:induction false} FitFromReaches(m: Metrics, s: string, bound: int, k: nat, j: nat)
    requires j <= k <= |s|
    requires forall i :: 0 < i <= k ==> Span(m, s[..i]) <= bound
    requires k < |s| ==> Span(m, s[..k + 1]) > bound
    ensures FitFrom(m, s, bound, j) == k
    decreases k - j
  {
    if j < k {
      FitFromReaches(m, s, bound, k, j + 1);
    }
  }

  /** A larger budget never fits fewer glyphs. */
  lemma FitCountMonotonic(m: Metrics, s: string, b1: int, b2: int)
    requires b1 <= b2
    ensures FitCount(m, s, b1) <= FitCount(m, s, b2)
  {
    FitFromPasses(m, s, b1, b2, 0);
  }

  lemma {:induction false} FitFromPasses(m: Metrics, s: string, b1: int, b2: int, j: nat)
    requires b1 <= b2 && j <= FitCount(m, s, b1)
    ensures FitFrom(m, s, b2, j) >= FitCount(m, s, b1)
    decreases FitCount(m, s, b1) - j
  {
    if j < FitCount(m, s, b1) {
      assert Span(m, s[..j + 1]) <= b1;
      FitFromPasses(m, s, b1, b2, j + 1);
    }
  }

  /** When every glyph has positive width, a budget of zero or less fits nothing. */
  lemma FitCountAtStart(m: Metrics, s: string, bound: int)
    requires forall c :: m.width(c) > 0
    requires bound <= 0
    ensures FitCount(m, s, bound) == 0
  {
    if s != [] {
      assert Span(m, s[..1]) == m.width(s[0]);
    }
  }

  // ---------------------------------------------------------------------------------------------
  // Sequences of lines.

  /** The lines glued together with nothing between them. */
  function Concat(lines: seq<string>): string {
    if lines == [] then [] else Concat(lines[..|lines| - 1]) + lines[|lines| - 1]
  }

  /** strings.Join(lines, sep). */
  function JoinLines(lines: seq<string>, sep: string): string {
    if lines == [] then []
    else if |lines| == 1 then lines[0]
    else JoinLines(lines[..|lines| - 1], sep) + sep + lines[|lines| - 1]
  }

  /** s with every newline character deleted. */
  function StripNewlines(s: string): string {
    if s == [] then [] else StripNewlines(s[..|s| - 1]) + (if s[|s| - 1] == '\n' then [] else [s[|s| - 1]])
  }

  lemma {:induction false} StripNewlinesAppend(a: string, b: string)
    ensures StripNewlines(a + b) == StripNewlines(a) + StripNewlines(b)
    decreases |b|
  {
    if b != [] {
      var b', c := b[..|b| - 1], b[|b| - 1];
      var tail := if c == '\n' then [] else [c];
      assert (a + b)[..|a + b| - 1] == a + b';
      assert (a + b)[|a + b| - 1] == c;
      StripNewlinesAppend(a, b');
      calc {
        StripNewlines(a + b);
        StripNewlines(a + b') + tail;
        StripNewlines(a) + StripNewlines(b') + tail;
        StripNewlines(a) + StripNewlines(b);
      }
    } else {
      assert a + b == a;
    }
  }

  lemma {:induction false} StripNewlinesOfLine(s: string)
    requires '\n' !in s
    ensures StripNewlines(s) == s
  {
    if s != [] {
      StripNewlinesOfLine(s[..|s| - 1]);
    }
  }

  /** Joining newline-free lines with "\n" and deleting the newlines gives the lines glued together. */
  lemma {:induction false} StripJoinedLines(lines: seq<string>)
    requires forall k :: 0 <= k < |lines| ==> '\n' !in lines[k]
    ensures StripNewlines(JoinLines(lines, "\n")) == Concat(lines)
  {
    if |lines| == 1 {
      StripNewlinesOfLine(lines[0]);
      assert Concat(lines) == Concat([]) + lines[0];
    } else if |lines| > 1 {
      var init, last := lines[..|lines| - 1], lines[|lines| - 1];
      StripJoinedLines(init);
      StripNewlinesOfLine(last);
      StripNewlinesAppend(JoinLines(init, "\n") + "\n", last);
      StripNewlinesAppend(JoinLines(init, "\n"), "\n");
      assert StripNewlines("\n") == [] by {
        assert "\n"[..0] == [];
      }
    }
  }

  /** The segments of s between newline characters, as strings.Split(s, "\n") gives them. */
  function Split(s: string): (parts: seq<string>)
    ensures |parts| >= 1
  {
    if s == [] then [[]]
    else
      var p := Split(s[..|s| - 1]);
      if s[|s| - 1] == '\n' then p + [[]] else p[..|p| - 1] + [p[|p| - 1] + [s[|s| - 1]]]
  }

  /** No segment holds a newline. */
  lemma {:induction false} SplitHasNoNewlines(s: string)
    ensures forall k :: 0 <= k < |Split(s)| ==> '\n' !in Split(s)[k]
  {
    if s != [] {
      var p := Split(s[..|s| - 1]);
      var c := s[|s| - 1];
      SplitHasNoNewlines(s[..|s| - 1]);
      if c != '\n' {
        NoNewlineSnoc(p[|p| - 1], c);
      }
    }
  }

  /** Joining the segments with "\n" gives the text back. */
  lemma {:induction false} JoinSplit(s: string)
    ensures JoinLines(Split(s), "\n") == s
  {
    if s != [] {
      var s', c := s[..|s| - 1], s[|s| - 1];
      var p := Split(s');
      JoinSplit(s');
      if c == '\n' {
        assert (p + [[]])[..|p|] == p;
      } else {
        var q := p[..|p| - 1] + [p[|p| - 1] + [c]];
        assert q[..|q| - 1] == p[..|p| - 1];
        if |p| > 1 {
          assert JoinLines(p, "\n") == JoinLines(p[..|p| - 1], "\n") + "\n" + p[|p| - 1];
        }
      }
      assert s == s' + [c];
    }
  }

  lemma SplitSnoc(s: string, c: char)
    ensures var p := Split(s);
      Split(s + [c]) == if c == '\n' then p + [[]] else p[..|p| - 1] + [p[|p| - 1] + [c]]
  {
    assert (s + [c])[..|s|] == s;
  }

  /** The last segment is empty exactly when the text is empty or ends with a newline. */
  lemma SplitLastEmpty(s: string)
    ensures Split(s)[|Split(s)| - 1] == [] <==> s == [] || s[|s| - 1] == '\n'
  {
  }

  /** A sequence of lines without its last element when that element is empty. */
  function DropTrailingEmpty(parts: seq<string>): seq<string>
    requires |parts| >= 1
  {
    if parts[|parts| - 1] == [] then parts[..|parts| - 1] else parts
  }

  // ---------------------------------------------------------------------------------------------
  // GenLines: greedy segmentation into lines.

  /** The scan's state: the lines emitted so far and where the pending line starts. */
  datatype Wrap = Wrap(lines: seq<string>, lastLine: nat)

  /** Glyph c, laid out after the pending line seg, would end past the limit. */
  predicate Overflows(m: Metrics, limit: int, seg: string, c: char) {
    LeftMargin + Span(m, seg + [c]) > limit
  }

  /**
   * The state after the first n characters: a newline ends the pending line and is dropped; a
   * glyph that would overflow ends the pending line and starts the next one.
   */
  function Scan(m: Metrics, limit: int, text: string, n: nat): (w: Wrap)
    requires n <= |text|
    ensures w.lastLine <= n
  {
    if n == 0 then Wrap([], 0)
    else
      var prior := Scan(m, limit, text, n - 1);
      var seg := text[prior.lastLine..n - 1];
      var c := text[n - 1];
      if c == '\n' then Wrap(prior.lines + [seg], n)
      else if Overflows(m, limit, seg, c) then Wrap(prior.lines + [seg], n - 1)
      else prior
  }

  /** The lines GenLines produces: the scanned lines, then the pending line if it is not empty. */
  function Wrapped(m: Metrics, limit: int, text: string): seq<string> {
    var w := Scan(m, limit, text, |text|);
    if w.lastLine < |text| then w.lines + [text[w.lastLine..]] else w.lines
  }

  /** A line fits when it is at most a single glyph or its width from the margin is within the limit. */
  predicate Fits(m: Metrics, limit: int, line: string) {
    |line| <= 1 || LeftMargin + Span(m, line) <= limit
  }

  /** The pending line never holds a newline and always fits. */
  lemma {:induction false} ScanPending(m: Metrics, limit: int, text: string, n: nat)
    requires n <= |text|
    ensures var w := Scan(m, limit, text, n);
      '\n' !in text[w.lastLine..n] && Fits(m, limit, text[w.lastLine..n])
  {
    if n > 0 {
      var prior := Scan(m, limit, text, n - 1);
      var seg := text[prior.lastLine..n - 1];
      var c := text[n - 1];
      ScanStep(m, limit, text, n);
      if c == '\n' {
        assert text[n..n] == [];
      } else if Overflows(m, limit, seg, c) {
        assert text[n - 1..n] == [c];
      } else {
        ScanPending(m, limit, text, n - 1);
        assert text[prior.lastLine..n] == seg + [c];
      }
    }
  }

  /** Every emitted line is free of newlines and fits. */
  lemma {:induction false} ScanLines(m: Metrics, limit: int, text: string, n: nat)
    requires n <= |text|
    ensures var w := Scan(m, limit, text, n);
      forall k :: 0 <= k < |w.lines| ==> '\n' !in w.lines[k] && Fits(m, limit, w.lines[k])
  {
    if n > 0 {
      var prior := Scan(m, limit, text, n - 1);
      ScanLines(m, limit, text, n - 1);
      ScanPending(m, limit, text, n - 1);
      ScanStep(m, limit, text, n);
      LinesSnoc(m, limit, prior.lines, text[prior.lastLine..n - 1]);
    }
  }

  lemma LinesSnoc(m: Metrics, limit: int, lines: seq<string>, line: string)
    requires forall k :: 0 <= k < |lines| ==> '\n' !in lines[k] && Fits(m, limit, lines[k])
    requires '\n' !in line && Fits(m, limit, line)
    ensures forall k :: 0 <= k < |lines + [line]| ==> '\n' !in (lines + [line])[k] && Fits(m, limit, (lines + [line])[k])
  {
  }

  lemma StripNewlinesStep(text: string, n: nat)
    requires 0 < n <= |text|
    ensures StripNewlines(text[..n]) == StripNewlines(text[..n - 1]) + (if text[n - 1] == '\n' then [] else [text[n - 1]])
  {
    assert text[..n][..n - 1] == text[..n - 1];
    assert text[..n][n - 1] == text[n - 1];
  }

  lemma ConcatSnoc(lines: seq<string>, line: string)
    ensures Concat(lines + [line]) == Concat(lines) + line
  {
    assert (lines + [line])[..|lines|] == lines;
  }

  /** One step of the scan, written out. */
  lemma ScanStep(m: Metrics, limit: int, text: string, n: nat)
    requires 0 < n <= |text|
    ensures var prior := Scan(m, limit, text, n - 1);
      var seg := text[prior.lastLine..n - 1];
      Scan(m, limit, text, n) ==
        if text[n - 1] == '\n' then Wrap(prior.lines + [seg], n)
        else if Overflows(m, limit, seg, text[n - 1]) then Wrap(prior.lines + [seg], n - 1)
        else prior
  {
  }

  /** One scan step moves the scanned character, unless it is a newline, onto the pending line. */
  lemma ScanConcatStep(m: Metrics, limit: int, text: string, n: nat)
    requires 0 < n <= |text|
    ensures var prior := Scan(m, limit, text, n - 1);
      var w := Scan(m, limit, text, n);
      var c := text[n - 1];
      Concat(w.lines) + text[w.lastLine..n] ==
        Concat(prior.lines) + (text[prior.lastLine..n - 1] + (if c == '\n' then [] else [c]))
  {
    if text[n - 1] == '\n' {
      ScanConcatNewline(m, limit, text, n);
    } else {
      ScanConcatGlyph(m, limit, text, n);
    }
  }

  lemma ScanConcatNewline(m: Metrics, limit: int, text: string, n: nat)
    requires 0 < n <= |text| && text[n - 1] == '\n'
    ensures var prior := Scan(m, limit, text, n - 1);
      var w := Scan(m, limit, text, n);
      Concat(w.lines) + text[w.lastLine..n] == Concat(prior.lines) + (text[prior.lastLine..n - 1] + [])
  {
    var prior := Scan(m, limit, text, n - 1);
    var seg := text[prior.lastLine..n - 1];
    ScanStep(m, limit, text, n);
    ConcatSnoc(prior.lines, seg);
    assert text[n..n] == [];
    assert seg + [] == seg;
  }

  lemma ScanConcatGlyph(m: Metrics, limit: int, text: string, n: nat)
    requires 0 < n <= |text| && text[n - 1] != '\n'
    ensures var prior := Scan(m, limit, text, n - 1);
      var w := Scan(m, limit, text, n);
      Concat(w.lines) + text[w.lastLine..n] == Concat(prior.lines) + (text[prior.lastLine..n - 1] + [text[n - 1]])
  {
    var prior := Scan(m, limit, text, n - 1);
    var seg := text[prior.lastLine..n - 1];
    var c := text[n - 1];
    var w := Scan(m, limit, text, n);
    if Overflows(m, limit, seg, c) {
      assert w == Wrap(prior.lines + [seg], n - 1) by {
        ScanStep(m, limit, text, n);
      }
      ConcatGlyphBreak(prior.lines, seg, text[n - 1..n], c);
    } else {
      assert w == prior by {
        ScanStep(m, limit, text, n);
      }
      assert text[prior.lastLine..n] == seg + [c];
    }
  }

  lemma ConcatGlyphBreak(lines: seq<string>, seg: string, rest: string, c: char)
    requires rest == [c]
    ensures Concat(lines + [seg]) + rest == Concat(lines) + (seg + [c])
  {
    ConcatSnoc(lines, seg);
  }

  /** The emitted lines followed by the pending line are the scanned text without its newlines. */
  lemma {:induction false} ScanConcat(m: Metrics, limit: int, text: string, n: nat)
    requires n <= |text|
    ensures var w := Scan(m, limit, text, n);
      Concat(w.lines) + text[w.lastLine..n] == StripNewlines(text[..n])
  {
    if n > 0 {
      var prior := Scan(m, limit, text, n - 1);
      var done := Concat(prior.lines);
      var seg := text[prior.lastLine..n - 1];
      var tail := if text[n - 1] == '\n' then [] else [text[n - 1]];
      var w := Scan(m, limit, text, n);
      calc {
        Concat(w.lines) + text[w.lastLine..n];
        { ScanConcatStep(m, limit, text, n); }
        done + (seg + tail);
        (done + seg) + tail;
        { ScanConcat(m, limit, text, n - 1); }
        StripNewlines(text[..n - 1]) + tail;
        { StripNewlinesStep(text, n); }
        StripNewlines(text[..n]);
      }
    }
  }

  /** No line GenLines emits contains a newline. */
  lemma WrappedHasNoNewlines(m: Metrics, limit: int, text: string)
    ensures forall k :: 0 <= k < |Wrapped(m, limit, text)| ==> '\n' !in Wrapped(m, limit, text)[k]
  {
    ScanLines(m, limit, text, |text|);
    ScanPending(m, limit, text, |text|);
  }

  /** The lines glued together are the text with its newlines deleted: no character is lost or moved. */
  lemma WrappedConcat(m: Metrics, limit: int, text: string)
    ensures Concat(Wrapped(m, limit, text)) == StripNewlines(text)
  {
    ScanConcat(m, limit, text, |text|);
    var w := Scan(m, limit, text, |text|);
    assert text[..|text|] == text;
    if w.lastLine < |text| {
      var lines := w.lines + [text[w.lastLine..]];
      assert lines[..|lines| - 1] == w.lines;
    }
  }

  /** Every line fits within the limit, unless it is a single glyph too wide to fit on any line. */
  lemma WrappedLinesFit(m: Metrics, limit: int, text: string)
    ensures forall k :: 0 <= k < |Wrapped(m, limit, text)| ==> Fits(m, limit, Wrapped(m, limit, text)[k])
  {
    ScanLines(m, limit, text, |text|);
    ScanPending(m, limit, text, |text|);
    var w := Scan(m, limit, text, |text|);
    if w.lastLine < |text| {
      var lines := w.lines + [text[w.lastLine..]];
      assert text[w.lastLine..] == text[w.lastLine..|text|];
      assert forall k :: 0 <= k < |lines| ==> lines[k] == if k < |w.lines| then w.lines[k] else text[w.lastLine..|text|];
    }
  }

  lemma {:induction false} ScanPrefix(m: Metrics, limit: int, a: string, b: string, n: nat)
    requires n <= |a| && n <= |b| && a[..n] == b[..n]
    ensures Scan(m, limit, a, n) == Scan(m, limit, b, n)
  {
    if n > 0 {
      assert a[..n - 1] == b[..n - 1] by {
        assert a[..n][..n - 1] == a[..n - 1];
        assert b[..n][..n - 1] == b[..n - 1];
      }
      ScanPrefix(m, limit, a, b, n - 1);
      var lastLine := Scan(m, limit, a, n - 1).lastLine;
      assert a[lastLine..n - 1] == a[..n][lastLine..n - 1];
      assert b[lastLine..n - 1] == b[..n][lastLine..n - 1];
      assert a[n - 1] == a[..n][n - 1];
      assert b[n - 1] == b[..n][n - 1];
    }
  }

  /**
   * No empty final line is emitted: the empty text has no lines, and a newline after a line that
   * does not itself end in a newline adds no line.
   */
  lemma WrappedFinalNewline(m: Metrics, limit: int, text: string)
    requires |text| > 0 && text[|text| - 1] != '\n'
    ensures Wrapped(m, limit, []) == []
    ensures Wrapped(m, limit, text + "\n") == Wrapped(m, limit, text)
  {
    var n := |text|;
    var t := text + "\n";
    assert t[..n] == text[..n];
    ScanPrefix(m, limit, t, text, n);
    var w := Scan(m, limit, text, n);
    assert w.lastLine < n;
    assert t[w.lastLine..n] == text[w.lastLine..];
  }

  /** No run of the text without a newline is wider than the limit: wrapping never splits a line. */
  ghost predicate NeverOverflows(m: Metrics, limit: int, text: string) {
    forall i, j :: RunFits(m, limit, text, i, j)
  }

  /** The run text[i..j], if it holds no newline, fits on one line. */
  predicate RunFits(m: Metrics, limit: int, text: string, i: int, j: int) {
    0 <= i < j <= |text| && '\n' !in text[i..j] ==> LeftMargin + Span(m, text[i..j]) <= limit
  }

  /** The scan's state agrees with the newline-separated segments of the scanned text. */
  predicate ScanMatchesSplit(m: Metrics, limit: int, text: string, n: nat)
    requires n <= |text|
  {
    var w := Scan(m, limit, text, n);
    var p := Split(text[..n]);
    w.lines == p[..|p| - 1] && text[w.lastLine..n] == p[|p| - 1]
  }

  lemma {:induction false} ScanSplits(m: Metrics, limit: int, text: string, n: nat)
    requires n <= |text|
    requires NeverOverflows(m, limit, text)
    ensures ScanMatchesSplit(m, limit, text, n)
  {
    if n > 0 {
      ScanSplits(m, limit, text, n - 1);
      ScanSplitsStep(m, limit, text, n);
    }
  }

  lemma ScanSplitsStep(m: Metrics, limit: int, text: string, n: nat)
    requires 0 < n <= |text|
    requires NeverOverflows(m, limit, text)
    requires ScanMatchesSplit(m, limit, text, n - 1)
    ensures ScanMatchesSplit(m, limit, text, n)
  {
    if text[n - 1] == '\n' {
      ScanSplitsNewline(m, limit, text, n);
    } else {
      ScanStaysOnLine(m, limit, text, n);
      ScanSplitsSameLine(m, limit, text, n);
    }
  }

  /** The segments of a prefix one character longer. */
  lemma SplitPrefixSnoc(text: string, n: nat)
    requires 0 < n <= |text|
    ensures var p := Split(text[..n - 1]);
      Split(text[..n]) == if text[n - 1] == '\n' then p + [[]] else p[..|p| - 1] + [p[|p| - 1] + [text[n - 1]]]
  {
    SplitSnoc(text[..n - 1], text[n - 1]);
    assert text[..n] == text[..n - 1] + [text[n - 1]];
  }

  /** A newline ends the pending line in the scan and a segment in the split alike. */
  lemma ScanSplitsNewline(m: Metrics, limit: int, text: string, n: nat)
    requires 0 < n <= |text| && text[n - 1] == '\n'
    requires ScanMatchesSplit(m, limit, text, n - 1)
    ensures ScanMatchesSplit(m, limit, text, n)
  {
    var prior := Scan(m, limit, text, n - 1);
    var p := Split(text[..n - 1]);
    var seg := text[prior.lastLine..n - 1];
    SplitPrefixSnoc(text, n);
    ScanStep(m, limit, text, n);
    assert p == p[..|p| - 1] + [seg];
    assert text[n..n] == [];
  }

  /** A character that joins the pending line also extends the last segment. */
  lemma ScanSplitsSameLine(m: Metrics, limit: int, text: string, n: nat)
    requires 0 < n <= |text| && text[n - 1] != '\n'
    requires Scan(m, limit, text, n) == Scan(m, limit, text, n - 1)
    requires ScanMatchesSplit(m, limit, text, n - 1)
    ensures ScanMatchesSplit(m, limit, text, n)
  {
    var w := Scan(m, limit, text, n - 1);
    var p := Split(text[..n - 1]);
    assert w.lines == p[..|p| - 1] && text[w.lastLine..n - 1] == p[|p| - 1];
    SplitPrefixSnoc(text, n);
    SameLineExtends(text, n, w, p, Split(text[..n]));
  }

  lemma SameLineExtends(text: string, n: nat, w: Wrap, p: seq<string>, q: seq<string>)
    requires 0 < n <= |text| && w.lastLine <= n - 1 && |p| >= 1
    requires w.lines == p[..|p| - 1] && text[w.lastLine..n - 1] == p[|p| - 1]
    requires q == p[..|p| - 1] + [p[|p| - 1] + [text[n - 1]]]
    ensures w.lines == q[..|q| - 1] && text[w.lastLine..n] == q[|q| - 1]
  {
    assert text[w.lastLine..n] == text[w.lastLine..n - 1] + [text[n - 1]];
  }

  /** Without overflow, a glyph other than a newline always joins the pending line. */
  lemma ScanStaysOnLine(m: Metrics, limit: int, text: string, n: nat)
    requires 0 < n <= |text| && text[n - 1] != '\n'
    requires NeverOverflows(m, limit, text)
    ensures Scan(m, limit, text, n) == Scan(m, limit, text, n - 1)
  {
    var prior := Scan(m, limit, text, n - 1);
    var seg, c := text[prior.lastLine..n - 1], text[n - 1];
    assert !Overflows(m, limit, seg, c) by {
      ScanPending(m, limit, text, n - 1);
      assert text[prior.lastLine..n] == seg + [c];
      NoNewlineSnoc(seg, c);
      assert RunFits(m, limit, text, prior.lastLine, n);
    }
    ScanStep(m, limit, text, n);
  }

  lemma NoNewlineSnoc(s: string, c: char)
    requires '\n' !in s && c != '\n'
    ensures '\n' !in s + [c]
  {
  }

  /** When nothing overflows, the lines are the newline-separated segments, without an empty last one. */
  lemma WrappedWithoutOverflow(m: Metrics, limit: int, text: string)
    requires NeverOverflows(m, limit, text)
    ensures Wrapped(m, limit, text) == DropTrailingEmpty(Split(text))
  {
    ScanSplits(m, limit, text, |text|);
    assert text[..|text|] == text;
    var p := Split(text);
    if p[|p| - 1] != [] {
      assert p == p[..|p| - 1] + [p[|p| - 1]];
    }
  }

  /** Two newline-free runs separated by one newline, each fitting on a line, give exactly those two lines. */
  lemma WrappedTwoLines(m: Metrics, limit: int, a: string, b: string)
    requires '\n' !in a && '\n' !in b && b != []
    requires NeverOverflows(m, limit, a + "\n" + b)
    ensures Wrapped(m, limit, a + "\n" + b) == [a, b]
  {
    SplitTwoRuns(a, b);
    WrappedWithoutOverflow(m, limit, a + "\n" + b);
  }

  lemma SplitTwoRuns(a: string, b: string)
    requires '\n' !in a && '\n' !in b
    ensures Split(a + "\n" + b) == [a, b]
  {
    assert Split(a) == [a] by {
      SplitExtend([], a);
      assert [] + a == a;
    }
    assert Split(a + "\n") == [a, []] by {
      SplitSnoc(a, '\n');
      assert a + ['\n'] == a + "\n";
    }
    assert Split(a + "\n" + b) == [a, b] by {
      SplitExtend(a + "\n", b);
      assert [a, []][..1] == [a];
      assert [] + b == b;
    }
  }

  /** Characters other than newlines extend the last segment. */
  lemma {:induction false} SplitExtend(s: string, y: string)
    requires '\n' !in y
    ensures var p := Split(s);
      Split(s + y) == p[..|p| - 1] + [p[|p| - 1] + y]
    decreases |y|
  {
    var p := Split(s);
    if y == [] {
      assert s + y == s;
      assert p[|p| - 1] + y == p[|p| - 1];
      assert p == p[..|p| - 1] + [p[|p| - 1]];
    } else {
      var y', c := y[..|y| - 1], y[|y| - 1];
      assert c != '\n' by {
        assert c in y;
      }
      assert '\n' !in y' by {
        assert y' <= y;
      }
      SplitExtend(s, y');
      assert y == y' + [c];
      SplitExtendStep(s, y', c);
    }
  }

  /** One more character other than a newline lengthens the last segment. */
  lemma SplitExtendStep(s: string, y: string, c: char)
    requires c != '\n'
    requires var p := Split(s); Split(s + y) == p[..|p| - 1] + [p[|p| - 1] + y]
    ensures var p := Split(s); Split(s + (y + [c])) == p[..|p| - 1] + [p[|p| - 1] + (y + [c])]
  {
    var p := Split(s);
    var front, last := p[..|p| - 1], p[|p| - 1];
    var q := Split(s + y);
    calc {
      Split(s + (y + [c]));
      { assert s + (y + [c]) == (s + y) + [c]; }
      Split((s + y) + [c]);
      { SplitSnoc(s + y, c); }
      q[..|q| - 1] + [q[|q| - 1] + [c]];
      { ExtendLast(front, last, y, c); }
      front + [last + (y + [c])];
    }
  }

  /** Appending to the last element of a sequence of lines, one piece at a time. */
  lemma ExtendLast(front: seq<string>, last: string, y: string, c: char)
    ensures var q := front + [last + y];
      q[..|q| - 1] + [q[|q| - 1] + [c]] == front + [last + (y + [c])]
  {
    var q := front + [last + y];
    assert q[..|q| - 1] == front;
    assert last + y + [c] == last + (y + [c]);
  }

  /**
   * When nothing overflows, joining the lines with "\n" gives the text back, less a final newline:
   * the text a multi-line box reads back from its lines.
   */
  lemma JoinWrappedWithoutOverflow(m: Metrics, limit: int, text: string)
    requires NeverOverflows(m, limit, text)
    ensures JoinLines(Wrapped(m, limit, text), "\n") ==
            if text != [] && text[|text| - 1] == '\n' then text[..|text| - 1] else text
  {
    WrappedWithoutOverflow(m, limit, text);
    JoinSplit(text);
    SplitLastEmpty(text);
    var p := Split(text);
    if text != [] && text[|text| - 1] == '\n' {
      assert p == Split(text[..|text| - 1]) + [[]];
      var q := p[..|p| - 1];
      assert q == Split(text[..|text| - 1]);
      JoinSplit(text[..|text| - 1]);
    }
  }

  /** Joining the lines with "\n" keeps every character of the text other than newlines, in order. */
  lemma JoinWrappedKeepsCharacters(m: Metrics, limit: int, text: string)
    ensures StripNewlines(JoinLines(Wrapped(m, limit, text), "\n")) == StripNewlines(text)
  {
    WrappedHasNoNewlines(m, limit, text);
    StripJoinedLines(Wrapped(m, limit, text));
    WrappedConcat(m, limit, text);
  }

  // Fixed-pitch glyphs: width 1 and no kerning.

  const FixedPitch: Metrics := Metrics((c: char) => 1, (p: char, c: char) => 0)

  lemma {:induction false} SpanFixedPitch(s: string)
    ensures Span(FixedPitch, s) == |s|
  {
    if |s| > 1 {
      SpanFixedPitch(s[..|s| - 1]);
    }
  }

  /** s cut into consecutive pieces of n characters, the last one possibly shorter. */
  function Chunks(s: string, n: nat): seq<string>
    requires n > 0
    decreases |s|
  {
    if s == [] then [] else if |s| <= n then [s] else [s[..n]] + Chunks(s[n..], n)
  }

  lemma {:induction false} ChunksCount(s: string, n: nat)
    requires n > 0
    ensures |Chunks(s, n)| == (|s| + n - 1) / n
    decreases |s|
  {
    if s == [] {
      assert (n - 1) / n == 0;
    } else if |s| <= n {
      assert n <= |s| + n - 1 < 2 * n;
      DivBetween(|s| + n - 1, n, 1);
    } else {
      ChunksCount(s[n..], n);
      var c := |Chunks(s[n..], n)|;
      DivShift(|s| - 1, n);
    }
  }

  lemma DivBetween(x: int, n: int, q: int)
    requires n > 0 && q * n <= x < q * n + n
    ensures x / n == q
  {
    var r := x / n;
    assert r * n <= x < r * n + n;
    assert r < q ==> (r + 1) * n <= q * n;
    assert r > q ==> (q + 1) * n <= r * n;
  }

  lemma DivShift(x: int, n: int)
    requires n > 0 && x >= n
    ensures (x + n) / n == (x - n + n) / n + 1
  {
    var q := (x - n + n) / n;
    assert q * n <= x < q * n + n;
    DivBetween(x + n, n, q + 1);
  }

  lemma {:induction false} ChunksAppend(a: string, b: string, n: nat, q: nat)
    requires n > 0 && |a| == q * n
    ensures Chunks(a + b, n) == Chunks(a, n) + Chunks(b, n)
    decreases q
  {
    if q > 0 {
      assert |a| >= n;
      assert (a + b)[..n] == a[..n];
      assert (a + b)[n..] == a[n..] + b;
      ChunksAppend(a[n..], b, n, q - 1);
      if |a| == n {
        assert a[n..] == [];
        assert a[n..] + b == b;
        if b == [] {
          assert a + b == a;
        }
      }
    } else {
      assert a == [];
      assert a + b == b;
    }
  }

  lemma {:induction false} ScanFixedPitch(text: string, n: nat, k: nat) returns (q: nat)
    requires n > 0 && '\n' !in text && k <= |text|
    ensures var w := Scan(FixedPitch, n + LeftMargin, text, k);
      && w.lastLine == q * n
      && w.lines == Chunks(text[..w.lastLine], n)
      && k - w.lastLine <= n
      && (k > 0 ==> w.lastLine < k)
  {
    if k == 0 {
      q := 0;
    } else {
      q := ScanFixedPitch(text, n, k - 1);
      var prior := Scan(FixedPitch, n + LeftMargin, text, k - 1);
      var seg := text[prior.lastLine..k - 1];
      var c := text[k - 1];
      assert c != '\n' by {
        assert c in text;
      }
      SpanFixedPitch(seg + [c]);
      if |seg| == n {
        FixedPitchFullLine(text, n, k, prior, q);
        q := q + 1;
      }
    }
  }

  lemma FixedPitchFullLine(text: string, n: nat, k: nat, prior: Wrap, q: nat)
    requires n > 0 && 0 < k <= |text| && prior.lastLine == q * n && k - 1 - prior.lastLine == n
    requires prior.lines == Chunks(text[..prior.lastLine], n)
    ensures prior.lines + [text[prior.lastLine..k - 1]] == Chunks(text[..k - 1], n)
    ensures k - 1 == (q + 1) * n
  {
    var seg := text[prior.lastLine..k - 1];
    assert text[..k - 1] == text[..prior.lastLine] + seg;
    ChunksAppend(text[..prior.lastLine], seg, n, q);
    assert Chunks(seg, n) == [seg];
  }

  /**
   * With fixed-pitch glyphs and room for exactly n of them on a line, a text without newlines is
   * cut into pieces of n characters, so it takes ceil(|text| / n) lines.
   */
  lemma WrappedFixedPitch(text: string, n: nat)
    requires n > 0 && '\n' !in text
    ensures Wrapped(FixedPitch, n + LeftMargin, text) == Chunks(text, n)
    ensures |Wrapped(FixedPitch, n + LeftMargin, text)| == (|text| + n - 1) / n
  {
    WrappedIsChunks(text, n);
    ChunksCount(text, n);
  }

  lemma WrappedIsChunks(text: string, n: nat)
    requires n > 0 && '\n' !in text
    ensures Wrapped(FixedPitch, n + LeftMargin, text) == Chunks(text, n)
  {
    var q := ScanFixedPitch(text, n, |text|);
    ChunksFromScan(text, n, Scan(FixedPitch, n + LeftMargin, text, |text|), q);
  }

  /** A scan state holding q full pieces and at most one more piece pending yields the pieces. */
  lemma ChunksFromScan(text: string, n: nat, w: Wrap, q: nat)
    requires n > 0 && w.lastLine == q * n && w.lastLine <= |text| && |text| - w.lastLine <= n
    requires text != [] ==> w.lastLine < |text|
    requires w.lines == Chunks(text[..w.lastLine], n)
    ensures (if w.lastLine < |text| then w.lines + [text[w.lastLine..]] else w.lines) == Chunks(text, n)
  {
    if text != [] {
      var head, tail := text[..w.lastLine], text[w.lastLine..];
      calc {
        Chunks(text, n);
        { assert text == head + tail; }
        Chunks(head + tail, n);
        { ChunksAppend(head, tail, n, q); }
        Chunks(head, n) + Chunks(tail, n);
        { assert Chunks(tail, n) == [tail]; }
        w.lines + [tail];
      }
    }
  }
}
