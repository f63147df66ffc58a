# draw2dui widget logic in Dafny

This project models the non-graphical core of draw2dui, a small widget toolkit drawn with
draw2d over OpenGL/GLFW. It covers:

- the text `Cursor` engine that edits, scrolls and line-wraps text (`widgets/text_tools.go`);
- the `TextField`, `TextBox` and `Label` widgets (`widgets/text_widgets.go`);
- the `Button` widget (`widgets/button_widgets.go`);
- the `WidgetCollection` that routes keyboard and mouse events to widgets and tracks the
  selected one (`widget_collection.go`);
- the `Event` enumeration and the `NameWidget` counter (`draw2dui.go`).

Files and modules:

| file | module | contents |
|---|---|---|
| `wrappers.dfy` | `Wrappers` | `Option` |
| `draw2dui.dfy` | `Draw2dui` | `Event` and its iota codes; the GLFW key, action and mouse-button values; the 32-bit counter and its `%d` rendering; `WidgetCounter.NameWidget` |
| `text_layout.dfy` | `TextLayout` | measuring with abstract font metrics (`Span`, `FitCount`); the line segmentation `GenLines` computes (`Scan`, `Wrapped`) and its properties |
| `text_tools.dfy` | `TextTools` | the caret window as a value (`Caret`, its step functions and lemmas); text splicing; `class Cursor` with the in-place methods |
| `text_widgets.dfy` | `TextWidgets` | `class TextField`, `class TextBox`, `class Label` |
| `button_widgets.dfy` | `ButtonWidgets` | `class Button` |
| `widget_collection.dfy` | `WidgetCollections` | `class WidgetCollection`, with what `MMove` reports given as functions (`Pointed`, `PointedEvent`) |

Modelling choices:

- **Cursor state and the caret window.** The Cursor's in-place state is a Dafny class with the
  source's fields. The caret triple `(i, iOffset, iEdge)` is also a value, `Caret`. Each method's
  `ensures` ties the new triple to a step function such as `Left`, `Right`, `ScrollBack`, `CatchUp`
  or `Walk`, and the window properties are proved about those functions.
- **Font metrics.** A font is `Option<Metrics>`:
  - `Metrics` holds an integer advance width per character and an integer kerning per pair;
  - `None` is the case where loading the current font fails, which the source logs before
    returning early.
- **GenLines.** What `GenLines` produces is the pure function `TextLayout.Wrapped`. The method's
  loop is the method `SegmentLines`, which works on local variables only and is proved to compute
  exactly that. The layout loop of `fillStringAtWidthCursor` is likewise the method `FillWalk`,
  and the two stepping loops of `MoveTo` are `StepRightTo` and `StepLeftTo`.
- **Widget collection.** The collection's map is a set of names. A loop over the map takes an
  `order` that lists each name exactly once (`Enumerates`), because Go does not fix the order.
  What each widget answers is an input function of its name (`reply`, `handled`).
- **Hit tests and the clock.** A hit test is the boolean `inside`. The clock is the parameter
  `now`, in milliseconds.
- **Event codes.** The Go `Event` is an `int` enumeration. Here it is a datatype, and `Code` gives
  each constant its iota value.
- **Counter width.** `widgetCount` is an `int32`. Its wrap-around is written out explicitly
  (`Wrap32`).
- **Go panics.** Where Go would panic on a slice bound, the method `requires` the bound, for
  example `0 <= i <= len(text)` for `Insert` and `Backspace`. A `TextField` states these bounds
  once, as its `Valid()` (the cursor's caret and window lie within the text). The constructor
  establishes it. The methods that could panic require it, and every method keeps it. `SetString`
  keeps it even though it shortens the text, because it walks the caret back. So no sequence of
  calls on a field reaches an out-of-range caret or window slice. The one other slice is the
  `s[:maxlen]` cut in `SetString`, which panics for a negative maxlen. The constructor accepts
  any maxlen, as `NewTextField` does, so `SetString` requires `maxlen >= 0` on its own.
  A different panic is Go calling a method on a nil widget interface. `WidgetCollection.KeyPress`
  and `CharPress` do that when the selection names no registered widget, so they require the
  collection's `Valid()`.

## Model

| member | source | states |
|---|---|---|
| Draw2dui.Code | draw2dui.go:67-84 | each event's code is its position in the declaration, from 0 for EventNone to 7 for EventHasCursor |
| Draw2dui.EventOfCode | draw2dui.go:67-84 | decoding a code gives back the event with that code, and nothing outside 0..7 decodes |
| Draw2dui.CodesDistinct | draw2dui.go:67-84 | distinct events have distinct codes |
| Draw2dui.Wrap32 | draw2dui.go:11 | the int32 value congruent to x mod 2^32, as int32 addition wraps |
| Draw2dui.CounterAfterIsWrappedSum | draw2dui.go:60-62 | n increments are the wrapped sum c + n |
| Draw2dui.WrapCongruent | draw2dui.go:60-62 | wrapping is the same for congruent integers |
| Draw2dui.CountersDistinct | draw2dui.go:60-62 | fewer than 2^32 apart, two counter values after j and k increments differ |
| Draw2dui.DigitChar | draw2dui.go:61 | a decimal digit maps to its character '0'..'9' |
| Draw2dui.Digits | draw2dui.go:61 | the `%d` digits of a natural number are non-empty and all decimal digits, and begin with '0' only for 0 (no leading zero) |
| Draw2dui.ParseDigitsOfDigits | draw2dui.go:61 | reading the digits back gives the number |
| Draw2dui.Decimal | draw2dui.go:61 | `%d` of an integer: a non-empty string beginning with '-' exactly for negatives |
| Draw2dui.DecimalDigits | draw2dui.go:61 | after the optional '-', `%d` prints at least one decimal digit, only digits to the end, beginning with '0' only for 0 |
| Draw2dui.DigitsInjective | draw2dui.go:61 | different numbers have different digit strings |
| Draw2dui.UnsignedDecimal | draw2dui.go:61 | removing `%d`'s leading '-' leaves exactly the digits of the number's magnitude |
| Draw2dui.DecimalInjective | draw2dui.go:61 | different integers render differently |
| Draw2dui.WidgetNameInjective | draw2dui.go:60-62 | for one prefix, different counter values give different names |
| Draw2dui.NamesDistinct | draw2dui.go:60-62 | the names handed out after j and k calls differ whenever 0 < k - j < 2^32 |
| Draw2dui.WidgetCounter.constructor | draw2dui.go:11 | the counter starts at zero |
| Draw2dui.WidgetCounter.NameWidget | draw2dui.go:60-62 | the counter grows by exactly one (wrapping) and the name is `w + "-" + %d of the new counter` |
| Draw2dui.FirstNameAfterReset | draw2dui_test.go:173-178 | after a reset, `NameWidget("test")` is `"test-1"` |
| TextLayout.SpanAppend | widgets/text_tools.go:141-158 | unfolding lemma of Span: appending a character adds kerning with its predecessor and its advance width |
| TextLayout.SpanPrefix | widgets/text_tools.go:267-274 | unfolding lemma of Span: the width of a prefix one character longer, written out |
| TextLayout.FitCount | widgets/text_tools.go:262-277 | the longest prefix whose width stays within the bound: every shorter prefix fits and one more character would not |
| TextLayout.FitCountUnique | widgets/text_tools.go:262-277 | any k with the two properties above is FitCount |
| TextLayout.FitCountMonotonic | widgets/text_tools.go:262-277 | a larger bound never fits fewer characters |
| TextLayout.FitCountAtStart | widgets/text_tools.go:262-277 | with positive widths, a bound at or left of the start fits nothing |
| TextLayout.StripNewlinesAppend | widgets/text_tools.go:145-160 | deleting newlines distributes over concatenation |
| TextLayout.StripJoinedLines | widgets/text_tools.go:146-150 | newline-free lines joined by "\n" lose exactly the separators |
| TextLayout.SplitHasNoNewlines | widgets/text_tools.go:146-150 | none of the newline-separated runs of a text holds '\n' |
| TextLayout.JoinSplit | widgets/text_tools.go:146-150 | joining the runs with "\n" gives back the text |
| TextLayout.SplitLastEmpty | widgets/text_tools.go:161-164 | the last run is empty exactly when the text is empty or ends in '\n' |
| TextLayout.Scan | widgets/text_tools.go:139-160 | the state after k characters of the GenLines loop; the pending run starts at or before k |
| TextLayout.ScanStep | widgets/text_tools.go:141-159 | unfolding lemma of Scan: one character of the loop: a newline or an overflowing character ends the line, and a newline starts the next line after itself |
| TextLayout.ScanConcat | widgets/text_tools.go:139-160 | the emitted lines followed by the pending run are the scanned text minus its newlines |
| TextLayout.WrappedHasNoNewlines | widgets/text_tools.go:139-164 | no emitted line contains '\n' |
| TextLayout.WrappedConcat | widgets/text_tools.go:139-164 | the lines concatenated are the text with every '\n' deleted |
| TextLayout.WrappedLinesFit | widgets/text_tools.go:145-160 | every line of two or more characters fits the width after the left margin of 3 |
| TextLayout.WrappedFinalNewline | widgets/text_tools.go:161-164 | empty text gives no lines, and a final '\n' adds no empty line |
| TextLayout.ScanPrefix | widgets/text_tools.go:139-160 | the scan of a prefix does not depend on what follows it |
| TextLayout.WrappedWithoutOverflow | widgets/text_tools.go:139-164 | when no run overflows, the lines are the newline-separated runs, less a final empty one |
| TextLayout.WrappedTwoLines | widgets/text_tools.go:139-164 | two runs that fit, separated by '\n', give exactly those two lines |
| TextLayout.SplitTwoRuns | widgets/text_tools.go:146-150 | splitting `a + "\n" + b` gives `[a, b]` |
| TextLayout.JoinWrappedWithoutOverflow | widgets/text_widgets.go:232-250 | when no run overflows, joining the lines with "\n" (as TextBox.GetString does) gives back the text less one final '\n' |
| TextLayout.JoinWrappedKeepsCharacters | widgets/text_widgets.go:232-250 | joining the lines keeps every non-newline character, in order |
| TextLayout.SpanFixedPitch | widgets/text_tools.go:141-158 | with unit widths and no kerning, a width is a length |
| TextLayout.ChunksCount | widgets/text_tools.go:139-164 | cutting into n-character pieces gives ceil(len / n) pieces |
| TextLayout.ChunksAppend | widgets/text_tools.go:139-164 | cutting distributes over a prefix of whole pieces |
| TextLayout.WrappedFixedPitch | widgets/text_tools.go:139-164 | with unit widths, newline-free text wraps into n-character lines, ceil(len / n) of them |
| TextTools.Left | widgets/text_tools.go:208-219 | the caret moves back one; the window keeps its size and scrolls back only to keep the caret inside it |
| TextTools.Right | widgets/text_tools.go:221-232 | the caret moves forward one; the window keeps its size and scrolls forward only to keep the caret inside it |
| TextTools.ScrollBack | widgets/text_tools.go:196-200 | the caret and window both move back one, so the window's size and whether it holds the caret are unchanged |
| TextTools.CatchUp | widgets/text_tools.go:168-171 | the edge is moved up to the caret and the offset follows, keeping the window's size |
| TextTools.Rights | widgets/text_tools.go:221-232 | n forward steps move the caret by n, keep the window size and keep the caret inside it |
| TextTools.Lefts | widgets/text_tools.go:208-219 | n backward steps move the caret back by n, keep the window size and keep the caret inside it |
| TextTools.RightsScroll | widgets/text_tools.go:221-232 | the window scrolls forward by exactly how far the caret passes the edge |
| TextTools.LeftsScroll | widgets/text_tools.go:208-219 | the window scrolls back by exactly how far the caret passes the offset |
| TextTools.StepsUndo | widgets/text_tools.go:208-232 | away from the window's ends, a right step and a left step undo each other; the caret always returns |
| TextTools.RightAtEdgeScrolls | widgets/text_tools.go:221-232 | stepping right at the edge and back leaves the window scrolled by one |
| TextTools.Walk | widgets/text_tools.go:234-251 | single steps reach the target while keeping the window size and the caret inside it |
| TextTools.MoveTargetClamps | widgets/text_tools.go:234-251 | the caret stops at the target, or at 0 or len(text) when the target is beyond either end |
| TextTools.WalkKeepsOrder | widgets/text_tools.go:208-251 | stepping to any index at or past 0 keeps the window offset non-negative and no later than the caret or the edge, so a caret walked back onto a shortened text leaves a valid window |
| TextTools.VisibleEdge | widgets/text_tools.go:65-114 | the new edge is never before the offset and, unless the whole text fits, at least two characters past it |
| TextTools.VisibleEdgeSeparates | widgets/text_tools.go:105-113 | which of the three assignments to iEdge applies: the fitting prefix, the text's end, or the end plus 100 |
| TextTools.Spliced | widgets/text_tools.go:181-184 | the text before the caret, the inserted string, then the rest |
| TextTools.Deleted | widgets/text_tools.go:191-205 | the character before the caret is removed and nothing else |
| TextTools.DeleteUndoesInsert | widgets/text_tools.go:181-205 | inserting one character and then deleting it gives back the text |
| TextTools.InsertUndoesDelete | widgets/text_tools.go:181-205 | deleting a character and inserting it again gives back the text |
| TextTools.ScanAdvance | widgets/text_tools.go:141-159 | one pass of the GenLines loop body agrees with one step of Scan |
| TextTools.Cursor.constructor | widgets/text_tools.go:117-124 | a cursor over text starts at 0 with an empty window and no lines |
| TextTools.Cursor.MoveLeft | widgets/text_tools.go:208-219 | at 0 nothing changes and false is returned; otherwise a Left step, drawCursor set, true |
| TextTools.Cursor.MoveRight | widgets/text_tools.go:221-232 | at len(text) nothing changes and false is returned; otherwise a Right step, drawCursor set, true |
| TextTools.Cursor.StepRightTo | widgets/text_tools.go:235-241 | MoveRight repeated until the caret reaches t or the end of the text: the caret lands on the clamped target |
| TextTools.Cursor.StepLeftTo | widgets/text_tools.go:242-248 | MoveLeft repeated until the caret reaches t or the start of the text: the caret lands on the clamped target |
| TextTools.Cursor.MoveTo | widgets/text_tools.go:234-251 | walks to the clamped target; returns whether t differed from the start; drawCursor set iff the caret moved |
| TextTools.Cursor.Insert | widgets/text_tools.go:181-184 | splices s at the caret and takes one Right step, whatever the length of s |
| TextTools.Cursor.InsertLine | widgets/text_tools.go:187-189 | the text becomes the current lines joined by "\n", then "\n" and s |
| TextTools.Cursor.Backspace | widgets/text_tools.go:191-205 | at 0 nothing changes and false is returned; otherwise text[i-1] is removed and the caret steps back, by ScrollBack when the window is pinned at the text's end, by Left otherwise |
| TextTools.Cursor.Blink | widgets/text_tools.go:167-179 | the edge catches up with the caret; drawCursor flips and lastBlink becomes now only after 667 ms; true if either happened |
| TextTools.SegmentLines | widgets/text_tools.go:133-164 | the loop of GenLines computes exactly Wrapped(text) |
| TextTools.Cursor.GenLines | widgets/text_tools.go:126-165 | the lines become Wrapped(text); without a font they are kept |
| TextTools.Cursor.MoveToX | widgets/text_tools.go:253-278 | the caret lands after the longest run from the offset that fits before the pointer, capped at the width |
| TextTools.FillWalk | widgets/text_tools.go:67-94 | the layout loop stops at the first glyph that does not fit (FitCount), answering its index, or 1 when all fit |
| TextTools.Cursor.FillAtWidth | widgets/text_tools.go:65-114 | iEdge becomes VisibleEdge for the current offset and width; without a font it is kept |
| TextWidgets.Truncated | widgets/text_widgets.go:479-484 | s cut to its first n characters when longer, otherwise s |
| TextWidgets.TextField.constructor | widgets/text_widgets.go:300-318 | a fresh cursor over text with caret, window, clock and lines at zero and the caret hidden, enabled, due for drawing, named "TextField-<n>"; Valid holds |
| TextWidgets.TextField.KeyPress | widgets/text_widgets.go:383-409 | release: nothing; Left/Right/Backspace: an action and a redraw exactly when the cursor operation did something, with the new caret and window (Left, Right; after a deleting Backspace ScrollBack when the window is scrolled and pinned to the end, else Left); Enter: confirm; other keys: nothing; Valid is kept |
| TextWidgets.TextField.CharPress | widgets/text_widgets.go:412-419 | an invalid rune or a full field changes nothing; otherwise the rune is spliced in at the caret and an action reported; a text within maxlen stays within it; Valid is kept |
| TextWidgets.TextField.SetString | widgets/text_widgets.go:479-490 | the text becomes s cut to maxlen; a caret beyond the new end walks to it; a redraw is due; Valid is kept although the text shrinks |
| TextWidgets.TextField.GetString | widgets/text_widgets.go:493-495 | the cursor's text |
| TextWidgets.TextField.SetInt | widgets/text_widgets.go:498-502 | MoveTo, with a redraw due exactly when it reports a move; Valid is kept |
| TextWidgets.TextField.GetInt | widgets/text_widgets.go:505-507 | the caret position |
| TextWidgets.TextField.Handle | widgets/text_widgets.go:372-380 | true, with a redraw, only when selected and Blink asks for one; selected, the window catches up with the caret and the caret toggles (lastBlink becomes now) once 667 ms have passed; unselected, the cursor is left alone; Valid is kept |
| TextWidgets.TextField.SetEnabled | widgets/text_widgets.go:519-524 | a redraw is due only when the flag changes |
| TextWidgets.TextField.GetEnabled | widgets/text_widgets.go:527-529 | the enabled flag |
| TextWidgets.TextField.MMove | widgets/text_widgets.go:422-432 | the field holds the pointer exactly while it is inside |
| TextWidgets.TextField.MClick | widgets/text_widgets.go:435-447 | a left press asks for a redraw; inside, it hides the caret, places it under the pointer and selects the field; Valid is kept |
| TextWidgets.TextField.Draw | widgets/text_widgets.go:334-353 | clears the redraw flag; a selected field recomputes iEdge over its inner width; Valid is kept |
| TextWidgets.TextBox.constructor | widgets/text_widgets.go:33-52 | a fresh cursor over text with caret, window and clock at zero and its lines generated, disabled, due for drawing, named "TextBox-<n>"; Valid holds |
| TextWidgets.TextBox.InsertLine | widgets/text_widgets.go:54-57 | appends s as a new line and regenerates the lines |
| TextWidgets.TextBox.KeyPress | widgets/text_widgets.go:123-161 | Up scrolls while iY < len(lines)-1, Down while iY > 0; an action exactly when iY changed; 0 <= iY <= max(0, len(lines)-1) is preserved |
| TextWidgets.TextBox.CharPress | widgets/text_widgets.go:164-171 | a valid rune first rebuilds the text from the lines, then is spliced in if that text is shorter than maxlen; the lines are not regenerated |
| TextWidgets.TextBox.SetString | widgets/text_widgets.go:232-243 | the text becomes s cut to maxlen and the lines are regenerated; a redraw is due |
| TextWidgets.TextBox.GetString | widgets/text_widgets.go:247-250 | the lines joined by "\n", also written back as the text |
| TextWidgets.TextBox.SetInt | widgets/text_widgets.go:253-257 | MoveTo, with a redraw due exactly when it reports a move |
| TextWidgets.TextBox.GetInt | widgets/text_widgets.go:260-262 | the caret position |
| TextWidgets.TextBox.GetEnabled | widgets/text_widgets.go:283-285 | the enabled flag |
| TextWidgets.TextBox.Handle | widgets/text_widgets.go:112-120 | true, with a redraw, only when selected and Blink asks for one; selected, the window catches up and the caret toggles once 667 ms have passed; Valid is kept |
| TextWidgets.TextBox.MMove | widgets/text_widgets.go:174-184 | the box holds the pointer exactly while it is inside |
| TextWidgets.TextBox.MClick | widgets/text_widgets.go:187-199 | a left press asks for a redraw; inside, it hides the caret, places it under the pointer and selects the box |
| TextWidgets.TextBox.Draw | widgets/text_widgets.go:74-93 | the redraw flag ends cleared |
| TextWidgets.Label.constructor | widgets/text_widgets.go:540-555 | holds text, due for drawing, named "Label-<n>" |
| TextWidgets.Label.Draw | widgets/text_widgets.go:574-590 | the redraw flag ends cleared |
| TextWidgets.Label.Handle | widgets/text_widgets.go:602-604 | always false |
| TextWidgets.Label.KeyPress | widgets/text_widgets.go:607-609 | always EventNone |
| TextWidgets.Label.CharPress | widgets/text_widgets.go:612-614 | always EventNone |
| TextWidgets.Label.MMove | widgets/text_widgets.go:617-619 | always EventNone |
| TextWidgets.Label.MClick | widgets/text_widgets.go:622-624 | always EventNone |
| TextWidgets.Label.SetString | widgets/text_widgets.go:656-660 | the text is replaced and a redraw is due |
| TextWidgets.Label.GetString | widgets/text_widgets.go:663-665 | the text |
| TextWidgets.Label.GetInt | widgets/text_widgets.go:672-674 | always -1 |
| TextWidgets.Label.GetEnabled | widgets/text_widgets.go:690-692 | always true |
| ButtonWidgets.Button.constructor | widgets/button_widgets.go:24-40 | enabled, due for drawing, not under the pointer, named "Button-<n>" |
| ButtonWidgets.Button.Draw | widgets/button_widgets.go:60-83 | paints when due or forced, inverted exactly while the pointer is over it; the flag ends cleared |
| ButtonWidgets.Button.Handle | widgets/button_widgets.go:102-104 | always false |
| ButtonWidgets.Button.KeyPress | widgets/button_widgets.go:107-116 | EventConfirm exactly for a non-release Enter, otherwise EventNone; no state change |
| ButtonWidgets.Button.CharPress | widgets/button_widgets.go:119-121 | always EventNone |
| ButtonWidgets.Button.MMove | widgets/button_widgets.go:124-142 | hasCursor becomes inside; a redraw is due when that changes; leaving reports an action, inside reports holding the pointer, outside otherwise nothing |
| ButtonWidgets.Button.MClick | widgets/button_widgets.go:145-156 | a left press asks for a redraw and confirms exactly when inside; anything else changes nothing |
| ButtonWidgets.Button.SetString | widgets/button_widgets.go:188-191 | the text is replaced and a redraw is due |
| ButtonWidgets.Button.GetString | widgets/button_widgets.go:194-196 | the text |
| ButtonWidgets.Button.GetInt | widgets/button_widgets.go:203-205 | always -1 |
| ButtonWidgets.Button.SetEnabled | widgets/button_widgets.go:217-222 | a redraw is due only when the flag changes |
| ButtonWidgets.Button.GetEnabled | widgets/button_widgets.go:225-227 | the enabled flag |
| WidgetCollections.OccurrencesMultiset | widget_collection.go:16 | counting a name in a sequence agrees with its multiplicity |
| WidgetCollections.EnumerationOccurrences | widget_collection.go:16 | a map iteration visits each registered name once and nothing else |
| WidgetCollections.DrawSelectsOne | widget_collection.go:47-52 | in one Draw, exactly one widget is drawn selected when the selection names a registered widget, and none otherwise |
| WidgetCollections.ReplyingMembers | widget_collection.go:95-106 | Replying holds exactly the names whose widget gave the reply, and is empty exactly when none did |
| WidgetCollections.FirstReactionFound | widget_collection.go:95-106 | the first pointer hold or action in iteration order; none exactly when there was neither |
| WidgetCollections.PointedFound | widget_collection.go:89-113 | the reported widget is one of the widgets; when any widget holds the pointer it is a holder; otherwise there is one exactly when some widget reported an action, and it is such a widget |
| WidgetCollections.PointedStep | widget_collection.go:95-106 | one pass of the MMove loop body agrees with Pointed and PointedEvent over one more name |
| WidgetCollections.PointedHolder | widget_collection.go:89-113 | a widget that alone holds the pointer is the one reported |
| WidgetCollections.PointedActor | widget_collection.go:89-113 | with no holder, a widget that alone reported an action is the one reported |
| WidgetCollections.PointedIndependentOfOrder | widget_collection.go:92-113 | with at most one holder and at most one action, the reported widget does not depend on the iteration order |
| WidgetCollections.FirstNamedIsFirst | widget_collection.go:38-43 | FirstNamed is "" exactly when every name is empty, and otherwise is a name preceded only by empty ones |
| WidgetCollections.FirstNamedSnoc | widget_collection.go:38-43 | registering one more name keeps a non-empty selection and otherwise selects it |
| WidgetCollections.WidgetCollection.constructor | widget_collection.go:25-35 | registers every given widget; the first non-empty name is selected |
| WidgetCollections.WidgetCollection.Register | widget_collection.go:38-43 | the name is added; it becomes the selection only when that was empty; a valid selection stays valid |
| WidgetCollections.WidgetCollection.Draw | widget_collection.go:47-52 | every widget is drawn once, told whether it is selected and the old force flag; the force flag ends false |
| WidgetCollections.WidgetCollection.Handle | widget_collection.go:56-63 | true exactly when some widget's Handle returned true; nothing changes |
| WidgetCollections.WidgetCollection.KeyPress | widget_collection.go:67-75 | with a selection, only the selected widget's action is passed on with it; every other case, a confirmation included, gives (nil, EventNone) |
| WidgetCollections.WidgetCollection.CharPress | widget_collection.go:79-87 | as KeyPress, for a character |
| WidgetCollections.WidgetCollection.MMove | widget_collection.go:92-113 | records the position; the collection holds the pointer exactly when no widget does; reports Pointed and PointedEvent |
| WidgetCollections.WidgetCollection.MClick | widget_collection.go:117-135 | widgets are offered the click in order up to the first that selects itself, which becomes the selection (forcing a redraw iff it changed); an unclaimed press clears the selection; otherwise nothing changes; a stale selection naming no registered widget is handled too (it is cleared by an unclaimed press) and a valid selection stays valid |
| WidgetCollections.WidgetCollection.Reshape | widget_collection.go:139-141 | the next Draw is forced |
| WidgetCollections.WidgetCollection.Refresh | widget_collection.go:144-146 | the next Draw is forced |

## Left out

- Drawing: every `Draw` beyond its flags, `clear`, `reshape`, the GL calls, `draw2dkit.Rectangle`,
  `FillStringAt` and the painting in `fillStringAtWidth`. This is rendering through libraries
  outside the model.
- Hit tests: `IsInside` and `draw2dglkit.IsPointInShape` are pixel tests on an offscreen window.
  Each handler takes their result as the boolean `inside`.
- Font handling: `loadCurrentFont`, `FetchGlyph`, `f.Kern` and `fUnitsToFloat64` are replaced by
  integer `Metrics`. All coordinates are integers, not float64.
- Glyph advance: the advance used when glyphs are filled is taken to equal the glyph's measured
  width.
- Caret coordinate: the pixel coordinate `cx` in `fillStringAtWidthCursor` is float geometry. Only
  its `iEdge` assignment is modelled (`Cursor.FillAtWidth`).
- TextBox layout: the `maxLines` and `y` arithmetic of `TextBox.reshape` and `TextBox.Draw`.
- Time: `time.Now` in `Blink` is the parameter `now`.
- Concurrency: `NameWidget`'s atomic increment is a sequential update of `WidgetCounter`.
- Window calls: `SetCursor` and `CreateStandardCursor` are window-system side effects.
- `TextBox.SetEnabled`: it always panics.
- Geometry and data accessors: `SetPos`, `GetPos`, `SetDimensions`, `GetDimensions`, `SetData`,
  `GetData`, and the empty `SetInt`/`SetEnabled` of Label and Button. They only move geometry or
  do nothing.
- `Name()` accessors: each widget's `name` is a constant field.
- `examples/allwidgets/allwidgets.go`: a GLFW main loop, not part of this model.
- The test harness in `draw2dui_test.go`: it opens GL windows. It is used only as evidence for the
  properties it checks.
- Unicode: Go strings are UTF-8 bytes, while the model's strings are sequences of characters, one
  per rune. The byte-index-versus-rune-count mismatch in `GenLines` and `CharPress` is not
  modelled.
- Modifier keys: the `mods` argument of `KeyPress` and `MClick` is never read and is dropped.
- Widgets inside the collection: they are identified by name. Their replies are inputs to the
  collection's methods; each widget's own reaction to the call is modelled in its class.
- Draw2dui.NamesDistinct: uniqueness is proved for fewer than 2^32 calls, because the `int32`
  counter wraps around after that many.
- TextWidgets.TextBox: its Valid (caret and window within the text) holds after the constructor and is
  kept by KeyPress, SetInt, Handle, MMove, MClick and Draw, but not by SetString, GetString,
  InsertLine or CharPress, which replace the text without moving the caret, as the Go code does.
  So TextBox.CharPress and TextBox.MClick keep their own bounds as requires.
- TextWidgets.TextField.CharPress: the maxlen bound is stated in characters, because Go's
  `len(text)` counts bytes.
