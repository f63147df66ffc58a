/**
 * The text cursor engine shared by the one-line and multi-line text widgets: the caret index,
 * the horizontal scroll window, the blink state and the line segmentation of the text.
 */
module TextTools {
  import opened Wrappers
  import opened TextLayout

  /** The caret blinks when at least this many milliseconds have passed since the last toggle. */
  const BlinkInterval: int := 667

  /** When the whole text is visible without scrolling, the edge sits this far past its end. */
  const EdgeSlack: int := 100

  function Min(a: int, b: int): int { if a <= b then a else b }
  function Max(a: int, b: int): int { if a <= b then b else a }

  // ---------------------------------------------------------------------------------------------
  // The caret and its scroll window, as values.

  /**
   * The caret index i and the scroll window: offset is the index of the first visible glyph and
   * edge the index past which the caret forces the window to scroll right.
   */
  datatype Caret = Caret(i: int, offset: int, edge: int)

  /** The caret lies inside the scroll window. */
  predicate InWindow(c: Caret) {
    c.offset <= c.i <= c.edge
  }

  /** How many glyph positions the window spans. */
  function WindowSize(c: Caret): int {
    c.edge - c.offset
  }

  /** A successful MoveLeft: the caret moves one back, and the window with it when the caret leaves it. */
  function Left(c: Caret): (r: Caret)
    ensures r.i == c.i - 1
    ensures WindowSize(r) == WindowSize(c)
    ensures InWindow(c) ==> InWindow(r)
    ensures r.offset == Min(c.offset, r.i) || c.i < c.offset
  {
    if c.i - 1 < c.offset then Caret(c.i - 1, c.offset - 1, c.edge - 1) else Caret(c.i - 1, c.offset, c.edge)
  }

  /** A successful MoveRight: the caret moves one on, and the window with it when the caret passes the edge. */
  function Right(c: Caret): (r: Caret)
    ensures r.i == c.i + 1
    ensures WindowSize(r) == WindowSize(c)
    ensures InWindow(c) ==> InWindow(r)
    ensures r.edge == Max(c.edge, r.i) || c.i > c.edge
  {
    if c.i + 1 > c.edge then Caret(c.i + 1, c.offset + 1, c.edge + 1) else Caret(c.i + 1, c.offset, c.edge)
  }

  /** Backspace while the window is pinned to the end of the text: caret and window move back together. */
  function ScrollBack(c: Caret): (r: Caret)
    ensures r.i == c.i - 1 && r.offset == c.offset - 1
    ensures WindowSize(r) == WindowSize(c)
    ensures InWindow(c) <==> InWindow(r)
  {
    Caret(c.i - 1, c.offset - 1, c.edge - 1)
  }

  /** Blink's catch-up: a caret past the edge drags the window right until the edge reaches it. */
  function CatchUp(c: Caret): (r: Caret)
    ensures r.i == c.i && r.edge == Max(c.edge, c.i)
    ensures WindowSize(r) == WindowSize(c)
    ensures c.offset <= c.edge && c.offset <= c.i ==> InWindow(r)
  {
    if c.i > c.edge then Caret(c.i, c.offset + c.i - c.edge, c.i) else c
  }

  /** n successful MoveRight steps. */
  function Rights(c: Caret, n: nat): (r: Caret)
    ensures r.i == c.i + n
    ensures WindowSize(r) == WindowSize(c)
    ensures InWindow(c) ==> InWindow(r)
  {
    if n == 0 then c else Right(Rights(c, n - 1))
  }

  /** n successful MoveLeft steps. */
  function Lefts(c: Caret, n: nat): (r: Caret)
    ensures r.i == c.i - n
    ensures WindowSize(r) == WindowSize(c)
    ensures InWindow(c) ==> InWindow(r)
  {
    if n == 0 then c else Left(Lefts(c, n - 1))
  }

  /** Moving right by n scrolls the window only by as much as the caret overshoots the edge. */
  lemma {:induction false} RightsScroll(c: Caret, n: nat)
    ensures var s := Min(n, Max(0, c.i + n - c.edge));
      Rights(c, n) == Caret(c.i + n, c.offset + s, c.edge + s)
  {
    if n > 0 {
      RightsScroll(c, n - 1);
    }
  }

  /** Moving left by n scrolls the window only by as much as the caret undershoots the offset. */
  lemma {:induction false} LeftsScroll(c: Caret, n: nat)
    ensures var s := Min(n, Max(0, c.offset - c.i + n));
      Lefts(c, n) == Caret(c.i - n, c.offset - s, c.edge - s)
  {
    if n > 0 {
      LeftsScroll(c, n - 1);
    }
  }

  /** Inside the window, a step right and a step left undo each other. */
  lemma StepsUndo(c: Caret)
    ensures c.offset <= c.i < c.edge ==> Left(Right(c)) == c
    ensures c.offset < c.i <= c.edge ==> Right(Left(c)) == c
    ensures Left(Right(c)).i == c.i && Right(Left(c)).i == c.i
  {
  }

  /** At the right edge of a window wider than nothing, moving right then left leaves the window scrolled. */
  lemma RightAtEdgeScrolls(c: Caret)
    requires c.offset < c.i == c.edge
    ensures Left(Right(c)) == Caret(c.i, c.offset + 1, c.edge + 1)
  {
  }

  /** The index MoveTo(t) stops at: one step at a time toward t, stopping at either end of the text. */
  function MoveTarget(i: int, t: int, len: int): int {
    if t > i then (if i < len then Min(t, len) else i)
    else if t < i then (if i > 0 then Max(t, 0) else i)
    else i
  }

  /** Where the caret and window are after stepping from c to index target. */
  function Walk(c: Caret, target: int): (r: Caret)
    ensures r.i == target
    ensures WindowSize(r) == WindowSize(c)
    ensures InWindow(c) ==> InWindow(r)
  {
    if target >= c.i then Rights(c, target - c.i) else Lefts(c, c.i - target)
  }

  /** From a caret within the text, MoveTo lands on the target clamped to the text. */
  lemma MoveTargetClamps(i: int, t: int, len: int)
    requires 0 <= i <= len
    ensures MoveTarget(i, t, len) == if t < 0 then 0 else if t > len then len else t
    ensures 0 <= MoveTarget(i, t, len) <= len
  {
  }

  /**
   * Walking to an index inside the text keeps the window ordered: it starts no later than the
   * caret and no later than its edge, and never before the text.
   */
  lemma WalkKeepsOrder(c: Caret, target: int)
    requires 0 <= c.offset <= c.i && c.offset <= c.edge && 0 <= target
    ensures var r := Walk(c, target); 0 <= r.offset <= r.i && r.offset <= r.edge
  {
    if target >= c.i {
      RightsScroll(c, target - c.i);
    } else {
      LeftsScroll(c, c.i - target);
    }
  }

  /** The window edge fillStringAtWidthCursor leaves after laying out the text from offset in width. */
  function VisibleEdge(m: Metrics, text: string, offset: int, width: int): (e: int)
    requires 0 <= offset <= |text|
    ensures offset <= e
    ensures e < |text| ==> offset + 1 < e
  {
    var k := FitCount(m, text[offset..], width);
    if 1 < k < |text| - offset then offset + k
    else if offset > 0 then |text|
    else |text| + EdgeSlack
  }

  /**
   * An edge inside the text marks the first glyph that does not fit: the glyphs from the offset up
   * to the edge fit in the width and one more would not. An edge at or past the end means the rest
   * of the text fits, or at most one glyph of it does.
   */
  lemma VisibleEdgeSeparates(m: Metrics, text: string, offset: int, width: int)
    requires 0 <= offset <= |text|
    ensures var e := VisibleEdge(m, text, offset, width);
      e < |text| ==> Span(m, text[offset..e]) <= width && Span(m, text[offset..e + 1]) > width
    ensures var e := VisibleEdge(m, text, offset, width);
      e >= |text| ==> e == (if offset > 0 then |text| else |text| + EdgeSlack)
    ensures var e := VisibleEdge(m, text, offset, width);
      var k := FitCount(m, text[offset..], width);
      e >= |text| ==> k <= 1 || k == |text| - offset
  {
    var e := VisibleEdge(m, text, offset, width);
    var s := text[offset..];
    var k := FitCount(m, s, width);
    if e < |text| {
      assert e == offset + k;
      assert s[..k] == text[offset..e];
      assert s[..k + 1] == text[offset..e + 1];
    }
  }

  // ---------------------------------------------------------------------------------------------
  // Text edits, as values.

  /** text with s inserted before index k. */
  function Spliced(text: string, k: int, s: string): (r: string)
    requires 0 <= k <= |text|
    ensures |r| == |text| + |s|
    ensures r[..k] == text[..k] && r[k..k + |s|] == s && r[k + |s|..] == text[k..]
  {
    text[..k] + s + text[k..]
  }

  /** text without the character before index k. */
  function Deleted(text: string, k: int): (r: string)
    requires 0 < k <= |text|
    ensures |r| == |text| - 1
    ensures r[..k - 1] == text[..k - 1] && r[k - 1..] == text[k..]
  {
    text[..k - 1] + text[k..]
  }

  /** Deleting the character just inserted gives the text back. */
  lemma DeleteUndoesInsert(text: string, k: int, c: char)
    requires 0 <= k <= |text|
    ensures Deleted(Spliced(text, k, [c]), k + 1) == text
  {
    var r := Spliced(text, k, [c]);
    assert Deleted(r, k + 1) == text[..k] + text[k..];
    assert text[..k] + text[k..] == text;
  }

  /** Inserting the character just deleted gives the text back. */
  lemma InsertUndoesDelete(text: string, k: int)
    requires 0 < k <= |text|
    ensures Spliced(Deleted(text, k), k - 1, [text[k - 1]]) == text
  {
    var d := Deleted(text, k);
    assert Spliced(d, k - 1, [text[k - 1]]) == text[..k - 1] + [text[k - 1]] + text[k..];
    assert text[..k - 1] + [text[k - 1]] == text[..k];
    assert text[..k] + text[k..] == text;
  }

  /**
   * One step of the segmentation loop against the scan it implements: the running pen position
   * plus the next glyph is the margin plus the width of the extended line, so the loop breaks the
   * line exactly where the scan does.
   */
  lemma ScanAdvance(m: Metrics, limit: int, text: string, k: int, lines: seq<string>, lastLine: int,
                    x: int, hasPrev: bool, prev: char)
    requires 0 <= lastLine <= k < |text|
    requires Scan(m, limit, text, k) == Wrap(lines, lastLine)
    requires x == LeftMargin + TextLayout.Span(m, text[lastLine..k])
    requires hasPrev == (lastLine < k) && (hasPrev ==> prev == text[k - 1])
    ensures text[lastLine..lastLine + (k - lastLine)] == text[lastLine..k]
    ensures text[k] == '\n' ==>
      Scan(m, limit, text, k + 1) == Wrap(lines + [text[lastLine..k]], k + 1)
      && TextLayout.Span(m, text[k + 1..k + 1]) == 0
    ensures var pen := x + (if hasPrev then m.kern(prev, text[k]) else 0);
      text[k] != '\n' && pen + m.width(text[k]) > limit ==>
      Scan(m, limit, text, k + 1) == Wrap(lines + [text[lastLine..k]], k)
      && TextLayout.Span(m, text[k..k + 1]) == m.width(text[k])
    ensures var pen := x + (if hasPrev then m.kern(prev, text[k]) else 0);
      text[k] != '\n' && pen + m.width(text[k]) <= limit ==>
      Scan(m, limit, text, k + 1) == Wrap(lines, lastLine)
      && pen + m.width(text[k]) == LeftMargin + TextLayout.Span(m, text[lastLine..k + 1])
  {
    assert text[lastLine..lastLine + (k - lastLine)] == text[lastLine..k];
    if text[k] == '\n' {
      ScanStep(m, limit, text, k + 1);
      assert text[k + 1..k + 1] == [];
    } else {
      ScanAdvanceGlyph(m, limit, text, k, lines, lastLine, x, hasPrev, prev);
    }
  }

  /** A glyph either breaks the line, starting the next one with itself, or joins the pending line. */
  lemma ScanAdvanceGlyph(m: Metrics, limit: int, text: string, k: int, lines: seq<string>, lastLine: int,
                         x: int, hasPrev: bool, prev: char)
    requires 0 <= lastLine <= k < |text| && text[k] != '\n'
    requires Scan(m, limit, text, k) == Wrap(lines, lastLine)
    requires x == LeftMargin + TextLayout.Span(m, text[lastLine..k])
    requires hasPrev == (lastLine < k) && (hasPrev ==> prev == text[k - 1])
    ensures var pen := x + (if hasPrev then m.kern(prev, text[k]) else 0);
      && (Scan(m, limit, text, k + 1) ==
            if pen + m.width(text[k]) > limit then Wrap(lines + [text[lastLine..k]], k) else Wrap(lines, lastLine))
      && TextLayout.Span(m, text[k..k + 1]) == m.width(text[k])
      && pen + m.width(text[k]) == LeftMargin + TextLayout.Span(m, text[lastLine..k + 1])
  {
    var seg := text[lastLine..k];
    var r := text[k];
    assert LeftMargin + Span(m, seg + [r]) == x + (if hasPrev then m.kern(prev, r) else 0) + m.width(r) by {
      SpanAppend(m, seg, r);
      assert hasPrev ==> seg[|seg| - 1] == prev;
    }
    assert text[lastLine..k + 1] == seg + [r];
    assert Span(m, text[k..k + 1]) == m.width(r) by {
      assert text[k..k + 1] == [r];
    }
    ScanStep(m, limit, text, k + 1);
  }

  /**
   * The loop of GenLines: walks the text keeping the pen position, breaking the line at a newline
   * (which is dropped) or before a glyph that would end past limit.
   */
  method SegmentLines(m: Metrics, limit: int, s: string) returns (lines: seq<string>)
    ensures lines == Wrapped(m, limit, s)
  {
    var x := LeftMargin;
    var ii := 0;
    var lastLine := 0;
    var prev: char, hasPrev := ' ', false;
    lines := [];
    var k := 0;
    while k < |s|
      invariant 0 <= lastLine <= k <= |s|
      invariant Scan(m, limit, s, k) == Wrap(lines, lastLine)
      invariant ii == k - lastLine
      invariant x == LeftMargin + Span(m, s[lastLine..k])
      invariant hasPrev == (ii > 0)
      invariant hasPrev ==> prev == s[k - 1]
    {
      var r := s[k];
      ScanAdvance(m, limit, s, k, lines, lastLine, x, hasPrev, prev);
      x := x + if hasPrev then m.kern(prev, r) else 0;
      if r == '\n' || x + m.width(r) > limit {
        lines := lines + [s[lastLine..lastLine + ii]];
        ii := 0;
        x := LeftMargin;
        lastLine := if r != '\n' then k else k + 1;
        hasPrev := false;
      }
      if r != '\n' {
        ii := ii + 1;
        x := x + m.width(r);
        prev, hasPrev := r, true;
      }
      k := k + 1;
    }
    if ii != 0 {
      assert s[lastLine..lastLine + ii] == s[lastLine..];
      lines := lines + [s[lastLine..lastLine + ii]];
    }
  }

  /**
   * The loop of fillStringAtWidthCursor: lays out the visible text until a glyph would end past
   * width, and answers the index of that glyph, or 1 when every glyph fits.
   */
  method FillWalk(m: Metrics, suffix: string, width: int) returns (lastI: int)
    ensures var k := FitCount(m, suffix, width); lastI == if k < |suffix| then k else 1
  {
    lastI := 1;
    var x := 0;
    var prev: char, hasPrev := ' ', false;
    var k := 0;
    while k < |suffix|
      invariant 0 <= k <= |suffix|
      invariant x == Span(m, suffix[..k])
      invariant forall j :: 0 < j <= k ==> Span(m, suffix[..j]) <= width
      invariant hasPrev == (k > 0)
      invariant hasPrev ==> prev == suffix[k - 1]
      invariant lastI == 1
    {
      var r := suffix[k];
      SpanPrefix(m, suffix, k);
      if hasPrev {
        x := x + m.kern(prev, r);
      }
      if x + m.width(r) > width {
        lastI := k;
        break;
      }
      FitsExtend(m, suffix, width, k);
      x := x + m.width(r);
      prev, hasPrev := r, true;
      k := k + 1;
    }
    FitCountUnique(m, suffix, width, k);
  }

  // ---------------------------------------------------------------------------------------------
  // The cursor object.

  class Cursor {
    /** The text stored in the widget. */
    var text: string
    /** The text as laid-out lines (multi-line boxes only). */
    var textLines: seq<string>
    /** The caret index and the scroll window. */
    var i: int
    var iOffset: int
    var iEdge: int
    /** How many lines a multi-line box is scrolled up. */
    var iY: int
    /** When the caret last toggled, in milliseconds. */
    var lastBlink: int
    /** Whether the caret is currently shown. */
    var drawCursor: bool

    /** A cursor over text: caret, window, scroll and clock all at zero, caret hidden. */
    constructor(text0: string)
      ensures text == text0 && textLines == []
      ensures i == 0 && iOffset == 0 && iEdge == 0 && iY == 0
      ensures lastBlink == 0 && !drawCursor
      ensures Valid()
    {
      text := text0;
      textLines := [];
      i, iOffset, iEdge, iY := 0, 0, 0, 0;
      lastBlink := 0;
      drawCursor := false;
    }

    function Pos(): Caret
      reads this
    {
      Caret(i, iOffset, iEdge)
    }

    /** Every slice the engine takes of the text is in range and the window does not run backwards. */
    predicate Valid()
      reads this
    {
      0 <= iOffset <= i <= |text| && iOffset <= iEdge
    }

    method MoveLeft() returns (moved: bool)
      modifies this`i, this`iOffset, this`iEdge, this`drawCursor
      ensures moved == (old(i) > 0)
      ensures Pos() == if moved then Left(old(Pos())) else old(Pos())
      ensures drawCursor == (moved || old(drawCursor))
      ensures old(Valid()) ==> Valid()
    {
      if i > 0 {
        i := i - 1;
        if i < iOffset {
          iEdge := iEdge - 1;
          iOffset := iOffset - 1;
        }
        drawCursor := true;
        return true;
      }
      return false;
    }

    method MoveRight() returns (moved: bool)
      modifies this`i, this`iOffset, this`iEdge, this`drawCursor
      ensures moved == (old(i) < |text|)
      ensures Pos() == if moved then Right(old(Pos())) else old(Pos())
      ensures drawCursor == (moved || old(drawCursor))
      ensures old(Valid()) ==> Valid()
    {
      if i < |text| {
        i := i + 1;
        if i > iEdge {
          iEdge := iEdge + 1;
          iOffset := iOffset + 1;
        }
        drawCursor := true;
        return true;
      }
      return false;
    }

    /** Steps the caret one glyph at a time toward t; reports whether t differed from the caret. */
    method MoveTo(t: int) returns (moved: bool)
      modifies this`i, this`iOffset, this`iEdge, this`drawCursor
      ensures moved == (t != old(i))
      ensures Pos() == Walk(old(Pos()), MoveTarget(old(i), t, |text|))
      ensures drawCursor == (old(drawCursor) || MoveTarget(old(i), t, |text|) != old(i))
      ensures old(Valid()) ==> Valid()
    {
      if t > i {
        StepRightTo(t);
        moved := true;
      } else if t < i {
        StepLeftTo(t);
        moved := true;
      } else {
        moved := false;
      }
    }

    /** The rightward loop of MoveTo: MoveRight until the caret reaches t or the end of the text. */
    method StepRightTo(t: int)
      requires t > i
      modifies this`i, this`iOffset, this`iEdge, this`drawCursor
      ensures Pos() == Walk(old(Pos()), MoveTarget(old(i), t, |text|))
      ensures drawCursor == (old(drawCursor) || MoveTarget(old(i), t, |text|) != old(i))
      ensures old(Valid()) ==> Valid()
    {
      ghost var start := Pos();
      ghost var wasValid := Valid();
      ghost var n: nat := 0;
      while i < t
        invariant i == start.i + n
        invariant Pos() == Rights(start, n)
        invariant start.i < |text| ==> i <= |text|
        invariant start.i >= |text| ==> n == 0
        invariant n > 0 ==> i <= t
        invariant drawCursor == (old(drawCursor) || n > 0)
        invariant wasValid ==> Valid()
        decreases t - i
      {
        var stepped := MoveRight();
        if !stepped {
          break;
        }
        n := n + 1;
      }
      assert MoveTarget(start.i, t, |text|) == start.i + n;
    }

    /** The leftward loop of MoveTo: MoveLeft until the caret reaches t or the start of the text. */
    method StepLeftTo(t: int)
      requires t < i
      modifies this`i, this`iOffset, this`iEdge, this`drawCursor
      ensures Pos() == Walk(old(Pos()), MoveTarget(old(i), t, |text|))
      ensures drawCursor == (old(drawCursor) || MoveTarget(old(i), t, |text|) != old(i))
      ensures old(Valid()) ==> Valid()
    {
      ghost var start := Pos();
      ghost var wasValid := Valid();
      ghost var n: nat := 0;
      while i > t
        invariant i == start.i - n
        invariant Pos() == Lefts(start, n)
        invariant start.i > 0 ==> i >= 0
        invariant start.i <= 0 ==> n == 0
        invariant n > 0 ==> i >= t
        invariant drawCursor == (old(drawCursor) || n > 0)
        invariant wasValid ==> Valid()
        decreases i - t
      {
        var stepped := MoveLeft();
        if !stepped {
          break;
        }
        n := n + 1;
      }
      assert MoveTarget(start.i, t, |text|) == start.i - n;
    }

    /** Splices s in before the caret, then takes a single MoveRight step, however long s is. */
    method Insert(s: string)
      requires 0 <= i <= |text|
      modifies this`text, this`i, this`iOffset, this`iEdge, this`drawCursor
      ensures text == Spliced(old(text), old(i), s)
      ensures Pos() == if old(i) < |text| then Right(old(Pos())) else old(Pos())
      ensures drawCursor == (old(i) < |text| || old(drawCursor))
      ensures old(Valid()) ==> Valid()
    {
      text := text[..i] + s + text[i..];
      var _ := MoveRight();
    }

    /** Replaces the text by the lines joined with newlines, a newline and s; the lines must be regenerated after. */
    method InsertLine(s: string)
      modifies this`text
      ensures text == JoinLines(textLines, "\n") + "\n" + s
    {
      text := JoinLines(textLines, "\n") + "\n" + s;
    }

    /**
     * Deletes the glyph before the caret. When the window is scrolled and its edge is pinned to the
     * end of the text, caret and window move back together; otherwise the caret moves left.
     */
    method Backspace() returns (deleted: bool)
      requires 0 <= i <= |text|
      modifies this`text, this`i, this`iOffset, this`iEdge, this`drawCursor
      ensures deleted == (old(i) != 0)
      ensures text == if deleted then Deleted(old(text), old(i)) else old(text)
      ensures Pos() ==
        if !deleted then old(Pos())
        else if old(iOffset) > 0 && old(|text|) == old(iEdge) then ScrollBack(old(Pos()))
        else Left(old(Pos()))
      ensures drawCursor == (deleted || old(drawCursor))
      ensures old(Valid()) ==> Valid()
    {
      if i == 0 {
        return false;
      }
      text := text[..i - 1] + text[i..];
      if iOffset > 0 && |text| + 1 == iEdge {
        i := i - 1;
        iEdge := iEdge - 1;
        iOffset := iOffset - 1;
        drawCursor := true;
      } else {
        var _ := MoveLeft();
      }
      return true;
    }

    /**
     * The idle tick at time now: a caret past the edge scrolls the window to it, and the caret is
     * toggled when a blink interval has passed. Reports whether either happened.
     */
    method Blink(now: int) returns (redraw: bool)
      modifies this`iOffset, this`iEdge, this`lastBlink, this`drawCursor
      ensures Pos() == CatchUp(old(Pos()))
      ensures var toggle := now - old(lastBlink) >= BlinkInterval;
        && lastBlink == (if toggle then now else old(lastBlink))
        && drawCursor == (if toggle then !old(drawCursor) else old(drawCursor))
        && redraw == (old(i) > old(iEdge) || toggle)
      ensures old(Valid()) ==> Valid()
    {
      redraw := false;
      if i > iEdge {
        iOffset := iOffset + i - iEdge;
        iEdge := i;
        redraw := true;
      }
      if now - lastBlink >= BlinkInterval {
        lastBlink := now;
        drawCursor := !drawCursor;
        redraw := true;
      }
    }

    /**
     * Segments the text into lines at most limit wide measured from the left margin, breaking at
     * newlines and before a glyph that would overflow. Without a font nothing changes.
     */
    method GenLines(font: Option<Metrics>, limit: int)
      modifies this`textLines
      ensures font.None? ==> textLines == old(textLines)
      ensures font.Some? ==> textLines == Wrapped(font.value, limit, text)
    {
      if font.None? {
        return;
      }
      textLines := SegmentLines(font.value, limit, text);
    }

    /**
     * Places the caret where a click at mx falls, for text drawn from x in width: on the first
     * visible glyph that would end past the click or past the width, or at the end of the text.
     */
    method MoveToX(font: Option<Metrics>, x: int, mx: int, width: int)
      requires font.Some? ==> 0 <= iOffset <= |text|
      modifies this`i
      ensures font.None? ==> i == old(i)
      ensures font.Some? ==> i == iOffset + FitCount(font.value, text[iOffset..], Min(mx - x, width))
      ensures font.Some? ==> iOffset <= i <= |text|
    {
      if font.None? {
        return;
      }
      var m := font.value;
      var bound := Min(mx - x, width);
      var limit := width + x;
      var pos := x;
      var prev: char, hasPrev := ' ', false;
      var suffix := text[iOffset..];
      var k := 0;
      while k < |suffix|
        invariant 0 <= k <= |suffix|
        invariant pos == x + Span(m, suffix[..k])
        invariant forall j :: 0 < j <= k ==> Span(m, suffix[..j]) <= bound
        invariant hasPrev == (k > 0)
        invariant hasPrev ==> prev == suffix[k - 1]
      {
        var r := suffix[k];
        SpanPrefix(m, suffix, k);
        if hasPrev {
          pos := pos + m.kern(prev, r);
        }
        if pos + m.width(r) > mx || pos + m.width(r) > limit {
          FitCountUnique(m, suffix, bound, k);
          i := k + iOffset;
          return;
        }
        FitsExtend(m, suffix, bound, k);
        pos := pos + m.width(r);
        prev, hasPrev := r, true;
        k := k + 1;
      }
      FitCountUnique(m, suffix, bound, k);
      i := |suffix| + iOffset;
    }

    /**
     * The bookkeeping of fillStringAtWidthCursor: walks the visible text from the window offset
     * until a glyph would end past width and records the window edge found.
     */
    method FillAtWidth(font: Option<Metrics>, width: int)
      requires font.Some? ==> 0 <= iOffset <= |text|
      modifies this`iEdge
      ensures font.None? ==> iEdge == old(iEdge)
      ensures font.Some? ==> iEdge == VisibleEdge(font.value, text, iOffset, width)
      ensures old(Valid()) ==> Valid()
    {
      if font.None? {
        return;
      }
      var lastI := FillWalk(font.value, text[iOffset..], width);
      if lastI > 1 {
        iEdge := lastI + iOffset;
      } else if iOffset > 0 {
        iEdge := |text|;
      } else {
        iEdge := |text| + EdgeSlack;
      }
    }
  }
}
