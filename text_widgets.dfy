/**
 * The text widgets' logical layer: the one-line TextField, the multi-line TextBox and the static
 * Label, each a small state machine over a redraw flag and (for the first two) a Cursor.
 * Hit tests arrive as a boolean inside, the font as an optional Metrics, the clock as now.
 */
module TextWidgets {
  import opened Wrappers
  import opened Draw2dui
  import opened TextLayout
  import opened TextTools

  /** utf8.ValidRune: a Unicode scalar value, excluding the surrogate range. */
  predicate ValidRune(r: int) {
    0 <= r < 0xD800 || 0xDFFF < r <= 0x10FFFF
  }

  /** s cut down to its first n characters when it is longer. */
  function Truncated(s: string, n: int): (r: string)
    requires n >= 0
    ensures |r| == Min(|s|, n)
    ensures r == s[..|r|]
  {
    if |s| > n then s[..n] else s
  }

  /** The length limit of a multi-line box. */
  const TextBoxMaxLen: int := 0x7ffffffe

  class TextField {
    const cursor: Cursor
    const x: int
    const width: int
    const maxlen: int
    var enabled: bool
    var redraw: bool
    var hasCursor: bool
    const name: string

    /** The cursor's caret and window stay within the text, so every slice the field takes is in range. */
    predicate Valid()
      reads this, cursor
    {
      cursor.Valid()
    }

    /** A field at x, width wide, holding text, enabled and due for drawing, named by the widget counter. */
    constructor(counter: WidgetCounter, x0: int, width0: int, text: string, maxlen0: int)
      modifies counter
      ensures fresh(cursor)
      ensures cursor.text == text && cursor.i == 0 && cursor.iOffset == 0 && cursor.iEdge == 0
      ensures cursor.textLines == [] && cursor.iY == 0 && cursor.lastBlink == 0 && !cursor.drawCursor
      ensures x == x0 && width == width0 && maxlen == maxlen0
      ensures enabled && redraw && !hasCursor
      ensures counter.widgetCount == Increment(old(counter.widgetCount))
      ensures name == WidgetName("TextField", counter.widgetCount)
      ensures Valid()
    {
      cursor := new Cursor(text);
      x, width, maxlen := x0, width0, maxlen0;
      enabled, redraw, hasCursor := true, true, false;
      var nm := counter.NameWidget("TextField");
      name := nm;
    }

    /**
     * Left, Right and Backspace edit through the cursor and report an action when the cursor did
     * something; Enter confirms; a release or any other key does nothing.
     */
    method KeyPress(key: Key, action: Action) returns (e: Event)
      requires Valid()
      modifies this`redraw, cursor`text, cursor`i, cursor`iOffset, cursor`iEdge, cursor`drawCursor
      ensures e == if action == Release then EventNone else match key {
          case KeyLeft => if old(cursor.i) > 0 then EventAction else EventNone
          case KeyRight => if old(cursor.i) < old(|cursor.text|) then EventAction else EventNone
          case KeyBackspace => if old(cursor.i) != 0 then EventAction else EventNone
          case KeyEnter => EventConfirm
          case _ => EventNone
        }
      ensures redraw == (old(redraw) || e == EventAction)
      ensures action != Release && key == KeyLeft && e == EventAction ==>
        cursor.Pos() == Left(old(cursor.Pos())) && cursor.text == old(cursor.text)
      ensures action != Release && key == KeyRight && e == EventAction ==>
        cursor.Pos() == Right(old(cursor.Pos())) && cursor.text == old(cursor.text)
      ensures action != Release && key == KeyBackspace && e == EventAction ==>
        && cursor.text == Deleted(old(cursor.text), old(cursor.i))
        && cursor.Pos() == if old(cursor.iOffset) > 0 && old(|cursor.text|) == old(cursor.iEdge)
                           then ScrollBack(old(cursor.Pos())) else Left(old(cursor.Pos()))
      ensures e != EventAction ==> cursor.Pos() == old(cursor.Pos()) && cursor.text == old(cursor.text)
      ensures e != EventAction ==> cursor.drawCursor == old(cursor.drawCursor)
      ensures e == EventAction ==> cursor.drawCursor
      ensures Valid()
    {
      if action == Release {
        return EventNone;
      }
      match key {
        case KeyLeft =>
          var moved := cursor.MoveLeft();
          if moved {
            redraw := true;
            return EventAction;
          }
        case KeyRight =>
          var moved := cursor.MoveRight();
          if moved {
            redraw := true;
            return EventAction;
          }
        case KeyBackspace =>
          var deleted := cursor.Backspace();
          if deleted {
            redraw := true;
            return EventAction;
          }
        case KeyEnter =>
          return EventConfirm;
        case _ =>
          return EventNone;
      }
      return EventNone;
    }

    /**
     * Inserts a valid rune at the caret while the text is shorter than maxlen, so a text within
     * maxlen stays within it; anything else is ignored.
     */
    method CharPress(r: int) returns (e: Event)
      requires Valid()
      modifies this`redraw, cursor`text, cursor`i, cursor`iOffset, cursor`iEdge, cursor`drawCursor
      ensures var inserted := ValidRune(r) && old(|cursor.text|) < maxlen;
        && e == (if inserted then EventAction else EventNone)
        && redraw == (old(redraw) || inserted)
        && (inserted ==> cursor.text == Spliced(old(cursor.text), old(cursor.i), [r as char]))
        && (inserted ==> cursor.Pos() == Right(old(cursor.Pos())) && cursor.drawCursor)
        && (!inserted ==> cursor.text == old(cursor.text) && cursor.Pos() == old(cursor.Pos()))
        && (!inserted ==> cursor.drawCursor == old(cursor.drawCursor))
      ensures old(|cursor.text|) <= maxlen ==> |cursor.text| <= maxlen
      ensures Valid()
    {
      if !ValidRune(r) || |GetString()| >= maxlen {
        return EventNone;
      }
      cursor.Insert([r as char]);
      redraw := true;
      return EventAction;
    }

    /** Stores s cut to maxlen; a caret beyond the new end is moved to it. */
    method SetString(s: string)
      requires maxlen >= 0
      modifies this`redraw, cursor`text, cursor`i, cursor`iOffset, cursor`iEdge, cursor`drawCursor
      ensures cursor.text == Truncated(s, maxlen)
      ensures old(cursor.i) > |cursor.text| ==>
        cursor.Pos() == Walk(old(cursor.Pos()), |cursor.text|) && cursor.drawCursor
      ensures old(cursor.i) <= |cursor.text| ==>
        cursor.Pos() == old(cursor.Pos()) && cursor.drawCursor == old(cursor.drawCursor)
      ensures old(cursor.i) >= 0 ==> 0 <= cursor.i <= |cursor.text|
      ensures redraw
      ensures old(Valid()) ==> Valid()
    {
      ghost var wasValid := Valid();
      if |s| > maxlen {
        cursor.text := s[..maxlen];
      } else {
        cursor.text := s;
      }
      if GetInt() > |GetString()| {
        ghost var before := cursor.Pos();
        SetInt(|GetString()|);
        if wasValid {
          WalkKeepsOrder(before, |cursor.text|);
        }
      }
      redraw := true;
    }

    function GetString(): (s: string)
      reads this, cursor
      ensures s == cursor.text
    {
      cursor.text
    }

    /** Moves the caret toward t and asks for a redraw when it was not already there. */
    method SetInt(t: int)
      modifies this`redraw, cursor`i, cursor`iOffset, cursor`iEdge, cursor`drawCursor
      ensures cursor.Pos() == Walk(old(cursor.Pos()), MoveTarget(old(cursor.i), t, |cursor.text|))
      ensures cursor.drawCursor == (old(cursor.drawCursor) || MoveTarget(old(cursor.i), t, |cursor.text|) != old(cursor.i))
      ensures redraw == (old(redraw) || t != old(cursor.i))
      ensures old(Valid()) ==> Valid()
    {
      var moved := cursor.MoveTo(t);
      if moved {
        redraw := true;
      }
    }

    function GetInt(): (i: int)
      reads this, cursor
      ensures i == cursor.i
    {
      cursor.i
    }

    /** The idle tick: only a selected field blinks, and it asks for a redraw when Blink does. */
    method Handle(selected: bool, now: int) returns (h: bool)
      modifies this`redraw, cursor`iOffset, cursor`iEdge, cursor`lastBlink, cursor`drawCursor
      ensures h == (selected && (old(cursor.i) > old(cursor.iEdge) || now - old(cursor.lastBlink) >= BlinkInterval))
      ensures redraw == (old(redraw) || h)
      ensures selected ==> cursor.Pos() == CatchUp(old(cursor.Pos()))
      ensures selected ==> var toggle := now - old(cursor.lastBlink) >= BlinkInterval;
        && cursor.lastBlink == (if toggle then now else old(cursor.lastBlink))
        && cursor.drawCursor == (if toggle then !old(cursor.drawCursor) else old(cursor.drawCursor))
      ensures !selected ==> cursor.Pos() == old(cursor.Pos()) && cursor.lastBlink == old(cursor.lastBlink)
      ensures !selected ==> cursor.drawCursor == old(cursor.drawCursor)
      ensures old(Valid()) ==> Valid()
    {
      if selected {
        var blinked := cursor.Blink(now);
        if blinked {
          redraw := true;
          return true;
        }
      }
      return false;
    }

    method SetEnabled(on: bool)
      modifies this`enabled, this`redraw
      ensures enabled == on
      ensures redraw == (old(redraw) || old(enabled) != on)
      ensures old(Valid()) ==> Valid()
    {
      if enabled != on {
        enabled := on;
        redraw := true;
      }
    }

    function GetEnabled(): (on: bool)
      reads this
      ensures on == enabled
    {
      enabled
    }

    /** The pointer moved: the field holds the pointer exactly while the pointer is inside it. */
    method MMove(inside: bool) returns (e: Event)
      modifies this`hasCursor
      ensures hasCursor == inside
      ensures e == if inside then EventHasCursor else EventNone
      ensures old(Valid()) ==> Valid()
    {
      if !inside {
        hasCursor := false;
        return EventNone;
      }
      if !hasCursor {
        hasCursor := true;
      }
      return EventHasCursor;
    }

    /**
     * A left press asks for a redraw; inside the field it also hides the caret, places it under the
     * pointer at xpos and selects the field. Anything else is ignored.
     */
    method MClick(inside: bool, button: MouseButton, action: Action, font: Option<Metrics>, xpos: int)
      returns (e: Event)
      requires Valid()
      modifies this`redraw, cursor`i, cursor`drawCursor
      ensures var press := button == MouseButtonLeft && action == Press;
        && e == (if press && inside then EventSelected else EventNone)
        && redraw == (old(redraw) || press)
        && (press && inside ==> !cursor.drawCursor)
        && (press && inside && font.Some? ==>
              cursor.i == cursor.iOffset + FitCount(font.value, cursor.text[cursor.iOffset..], Min(xpos - x, width)))
        && (!(press && inside && font.Some?) ==> cursor.i == old(cursor.i))
        && (!(press && inside) ==> cursor.drawCursor == old(cursor.drawCursor))
      ensures Valid()
    {
      if button == MouseButtonLeft && action == Press {
        redraw := true;
        if !inside {
          return EventNone;
        }
      } else {
        return EventNone;
      }
      cursor.drawCursor := false;
      cursor.MoveToX(font, x, xpos, width);
      return EventSelected;
    }

    /**
     * Drawing when due or forced clears the redraw flag; a selected field also recomputes the
     * window edge over the width inside its border.
     */
    method Draw(selected: bool, force: bool, font: Option<Metrics>)
      requires Valid()
      modifies this`redraw, cursor`iEdge
      ensures !redraw
      ensures (old(redraw) || force) && selected && font.Some? ==>
        cursor.iEdge == VisibleEdge(font.value, cursor.text, cursor.iOffset, width - 2)
      ensures !((old(redraw) || force) && selected && font.Some?) ==> cursor.iEdge == old(cursor.iEdge)
      ensures Valid()
    {
      if redraw || force {
        if selected {
          cursor.FillAtWidth(font, width - 2);
        }
        redraw := false;
      }
    }
  }

  class TextBox {
    const cursor: Cursor
    const x: int
    const width: int
    const maxlen: int := TextBoxMaxLen
    var enabled: bool
    var redraw: bool
    var hasCursor: bool
    const name: string

    /**
     * The cursor's caret and window lie within the text. Setting the text, rebuilding it from the
     * lines or appending a line may leave the caret past the end, so this is not kept by every method.
     */
    predicate Valid()
      reads this, cursor
    {
      cursor.Valid()
    }

    /** A box at x, width wide, holding text segmented into lines; disabled and due for drawing. */
    constructor(counter: WidgetCounter, x0: int, width0: int, text: string, font: Option<Metrics>)
      modifies counter
      ensures fresh(cursor)
      ensures cursor.text == text && cursor.i == 0 && cursor.iOffset == 0 && cursor.iEdge == 0 && cursor.iY == 0
      ensures cursor.lastBlink == 0 && !cursor.drawCursor
      ensures font.Some? ==> cursor.textLines == Wrapped(font.value, width0, text)
      ensures font.None? ==> cursor.textLines == []
      ensures x == x0 && width == width0
      ensures !enabled && redraw && !hasCursor
      ensures counter.widgetCount == Increment(old(counter.widgetCount))
      ensures name == WidgetName("TextBox", counter.widgetCount)
      ensures Valid()
    {
      var c := new Cursor(text);
      cursor := c;
      x, width := x0, width0;
      enabled, redraw, hasCursor := false, true, false;
      var nm := counter.NameWidget("TextBox");
      name := nm;
      new;
      c.GenLines(font, width0);
    }

    /** Appends s as a new line after the current lines and segments the result again. */
    method InsertLine(s: string, font: Option<Metrics>)
      modifies cursor`text, cursor`textLines
      ensures cursor.text == JoinLines(old(cursor.textLines), "\n") + "\n" + s
      ensures font.Some? ==> cursor.textLines == Wrapped(font.value, width, cursor.text)
      ensures font.None? ==> cursor.textLines == old(cursor.textLines)
    {
      cursor.InsertLine(s);
      cursor.GenLines(font, width);
    }

    /**
     * Up scrolls one line further back while there is an earlier line, Down one line forward while
     * scrolled; either reports an action exactly when it scrolled. Other keys do nothing.
     */
    method KeyPress(key: Key, action: Action) returns (e: Event)
      modifies this`redraw, cursor`iY
      ensures var up := action != Release && key == KeyUp && old(cursor.iY) < |cursor.textLines| - 1;
        var down := action != Release && key == KeyDown && old(cursor.iY) > 0;
        && cursor.iY == (if up then old(cursor.iY) + 1 else if down then old(cursor.iY) - 1 else old(cursor.iY))
        && e == (if up || down then EventAction else EventNone)
      ensures (e == EventAction) == (cursor.iY != old(cursor.iY))
      ensures redraw == (old(redraw) || e == EventAction)
      ensures 0 <= old(cursor.iY) <= Max(0, |cursor.textLines| - 1) ==>
        0 <= cursor.iY <= Max(0, |cursor.textLines| - 1)
      ensures old(Valid()) ==> Valid()
    {
      if action == Release {
        return EventNone;
      }
      match key {
        case KeyUp =>
          if cursor.iY < |cursor.textLines| - 1 {
            cursor.iY := cursor.iY + 1;
            redraw := true;
            return EventAction;
          }
        case KeyDown =>
          if cursor.iY > 0 {
            cursor.iY := cursor.iY - 1;
            redraw := true;
            return EventAction;
          }
        case _ =>
          return EventNone;
      }
      return EventNone;
    }

    /**
     * For a valid rune, first rebuilds the text from the lines (as GetString does); then inserts the
     * rune at the caret if the rebuilt text is shorter than maxlen. The lines are not regenerated.
     */
    method CharPress(r: int) returns (e: Event)
      requires ValidRune(r) && |JoinLines(cursor.textLines, "\n")| < maxlen ==>
        0 <= cursor.i <= |JoinLines(cursor.textLines, "\n")|
      modifies this`redraw, cursor`text, cursor`i, cursor`iOffset, cursor`iEdge, cursor`drawCursor
      ensures cursor.textLines == old(cursor.textLines)
      ensures var joined := JoinLines(cursor.textLines, "\n");
        var inserted := ValidRune(r) && |joined| < maxlen;
        && e == (if inserted then EventAction else EventNone)
        && redraw == (old(redraw) || inserted)
        && cursor.text == (if inserted then Spliced(joined, old(cursor.i), [r as char])
                           else if ValidRune(r) then joined else old(cursor.text))
        && cursor.Pos() == (if inserted then Right(old(cursor.Pos())) else old(cursor.Pos()))
        && cursor.drawCursor == (inserted || old(cursor.drawCursor))
    {
      if !ValidRune(r) {
        return EventNone;
      }
      var s := GetString();
      if |s| >= maxlen {
        return EventNone;
      }
      cursor.Insert([r as char]);
      redraw := true;
      return EventAction;
    }

    /** Stores s cut to maxlen and segments it into lines again. */
    method SetString(s: string, font: Option<Metrics>)
      modifies this`redraw, cursor`text, cursor`textLines
      ensures cursor.text == Truncated(s, maxlen)
      ensures font.Some? ==> cursor.textLines == Wrapped(font.value, width, cursor.text)
      ensures font.None? ==> cursor.textLines == old(cursor.textLines)
      ensures redraw
    {
      if |s| > maxlen {
        cursor.text := s[..maxlen];
      } else {
        cursor.text := s;
      }
      cursor.GenLines(font, width);
      redraw := true;
    }

    /** The lines joined with newlines; also written back as the cursor's text. */
    method GetString() returns (s: string)
      modifies cursor`text
      ensures s == JoinLines(cursor.textLines, "\n")
      ensures cursor.text == s
    {
      cursor.text := JoinLines(cursor.textLines, "\n");
      return cursor.text;
    }

    method SetInt(t: int)
      modifies this`redraw, cursor`i, cursor`iOffset, cursor`iEdge, cursor`drawCursor
      ensures cursor.Pos() == Walk(old(cursor.Pos()), MoveTarget(old(cursor.i), t, |cursor.text|))
      ensures cursor.drawCursor == (old(cursor.drawCursor) || MoveTarget(old(cursor.i), t, |cursor.text|) != old(cursor.i))
      ensures redraw == (old(redraw) || t != old(cursor.i))
      ensures old(Valid()) ==> Valid()
    {
      var moved := cursor.MoveTo(t);
      if moved {
        redraw := true;
      }
    }

    function GetInt(): (i: int)
      reads this, cursor
      ensures i == cursor.i
    {
      cursor.i
    }

    function GetEnabled(): (on: bool)
      reads this
      ensures on == enabled
    {
      enabled
    }

    method Handle(selected: bool, now: int) returns (h: bool)
      modifies this`redraw, cursor`iOffset, cursor`iEdge, cursor`lastBlink, cursor`drawCursor
      ensures h == (selected && (old(cursor.i) > old(cursor.iEdge) || now - old(cursor.lastBlink) >= BlinkInterval))
      ensures redraw == (old(redraw) || h)
      ensures selected ==> cursor.Pos() == CatchUp(old(cursor.Pos()))
      ensures selected ==> var toggle := now - old(cursor.lastBlink) >= BlinkInterval;
        && cursor.lastBlink == (if toggle then now else old(cursor.lastBlink))
        && cursor.drawCursor == (if toggle then !old(cursor.drawCursor) else old(cursor.drawCursor))
      ensures !selected ==> cursor.Pos() == old(cursor.Pos()) && cursor.lastBlink == old(cursor.lastBlink)
      ensures !selected ==> cursor.drawCursor == old(cursor.drawCursor)
      ensures old(Valid()) ==> Valid()
    {
      if selected {
        var blinked := cursor.Blink(now);
        if blinked {
          redraw := true;
          return true;
        }
      }
      return false;
    }

    method MMove(inside: bool) returns (e: Event)
      modifies this`hasCursor
      ensures hasCursor == inside
      ensures e == if inside then EventHasCursor else EventNone
      ensures old(Valid()) ==> Valid()
    {
      if !inside {
        hasCursor := false;
        return EventNone;
      }
      if !hasCursor {
        hasCursor := true;
      }
      return EventHasCursor;
    }

    method MClick(inside: bool, button: MouseButton, action: Action, font: Option<Metrics>, xpos: int)
      returns (e: Event)
      requires button == MouseButtonLeft && action == Press && inside && font.Some? ==>
        0 <= cursor.iOffset <= |cursor.text|
      modifies this`redraw, cursor`i, cursor`drawCursor
      ensures var press := button == MouseButtonLeft && action == Press;
        && e == (if press && inside then EventSelected else EventNone)
        && redraw == (old(redraw) || press)
        && (press && inside ==> !cursor.drawCursor)
        && (press && inside && font.Some? ==>
              cursor.i == cursor.iOffset + FitCount(font.value, cursor.text[cursor.iOffset..], Min(xpos - x, width)))
        && (!(press && inside && font.Some?) ==> cursor.i == old(cursor.i))
        && (!(press && inside) ==> cursor.drawCursor == old(cursor.drawCursor))
      ensures old(Valid()) ==> Valid()
    {
      if button == MouseButtonLeft && action == Press {
        redraw := true;
        if !inside {
          return EventNone;
        }
      } else {
        return EventNone;
      }
      cursor.drawCursor := false;
      cursor.MoveToX(font, x, xpos, width);
      return EventSelected;
    }

    /** Drawing when due or forced clears the redraw flag. */
    method Draw(force: bool)
      modifies this`redraw
      ensures !redraw
      ensures old(Valid()) ==> Valid()
    {
      if redraw || force {
        redraw := false;
      }
    }
  }

  class Label {
    var text: string
    var redraw: bool
    const name: string

    constructor(counter: WidgetCounter, text0: string)
      modifies counter
      ensures text == text0 && redraw
      ensures counter.widgetCount == Increment(old(counter.widgetCount))
      ensures name == WidgetName("Label", counter.widgetCount)
    {
      text, redraw := text0, true;
      var nm := counter.NameWidget("Label");
      name := nm;
    }

    method Draw(force: bool)
      modifies this`redraw
      ensures !redraw
    {
      if redraw || force {
        redraw := false;
      }
    }

    /** A label never blinks, takes no keys, characters, pointer moves or clicks. */
    method Handle(selected: bool) returns (h: bool)
      ensures !h
    {
      return false;
    }

    method KeyPress(key: Key, action: Action) returns (e: Event)
      ensures e == EventNone
    {
      return EventNone;
    }

    method CharPress(r: int) returns (e: Event)
      ensures e == EventNone
    {
      return EventNone;
    }

    method MMove(inside: bool) returns (e: Event)
      ensures e == EventNone
    {
      return EventNone;
    }

    method MClick(inside: bool, button: MouseButton, action: Action) returns (e: Event)
      ensures e == EventNone
    {
      return EventNone;
    }

    /** Replaces the text and asks for a redraw. */
    method SetString(s: string)
      modifies this`text, this`redraw
      ensures text == s && redraw
    {
      text := s;
      redraw := true;
    }

    function GetString(): (s: string)
      reads this
      ensures s == text
    {
      text
    }

    /** A label has no caret position. */
    function GetInt(): (n: int)
      ensures n == -1
    {
      -1
    }

    /** A label is always enabled. */
    function GetEnabled(): (on: bool)
      ensures on
    {
      true
    }
  }
}
