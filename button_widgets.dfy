/**
 * The push button's logical layer: its enabled/redraw/hover flags, its label text and the events
 * it answers with. Hit tests arrive as a boolean inside.
 */
module ButtonWidgets {
  import opened Draw2dui

  class Button {
    var enabled: bool
    var redraw: bool
    var hasCursor: bool
    var text: string
    const name: string

    /** An enabled button showing text, due for drawing, not under the pointer. */
    constructor(counter: WidgetCounter, text0: string)
      modifies counter
      ensures text == text0
      ensures enabled && redraw && !hasCursor
      ensures counter.widgetCount == Increment(old(counter.widgetCount))
      ensures name == WidgetName("Button", counter.widgetCount)
    {
      text := text0;
      enabled, redraw, hasCursor := true, true, false;
      var nm := counter.NameWidget("Button");
      name := nm;
    }

    /**
     * Paints when due or forced, in inverted colours while the pointer is over the button, and
     * clears the redraw flag.
     */
    method Draw(selected: bool, force: bool) returns (painted: bool, inverted: bool)
      modifies this`redraw
      ensures painted == (old(redraw) || force)
      ensures painted ==> inverted == hasCursor
      ensures !redraw
    {
      painted, inverted := false, false;
      if redraw || force {
        painted, inverted := true, hasCursor;
        redraw := false;
      }
    }

    /** A button has nothing to animate. */
    method Handle(selected: bool) returns (h: bool)
      ensures !h
    {
      return false;
    }

    /** Enter (pressed or repeated) confirms; every other key, and every release, does nothing. */
    method KeyPress(key: Key, action: Action) returns (e: Event)
      ensures e == EventConfirm <==> action != Release && key == KeyEnter
      ensures e != EventConfirm ==> e == EventNone
    {
      if action == Release {
        return EventNone;
      }
      if key == KeyEnter {
        return EventConfirm;
      }
      return EventNone;
    }

    method CharPress(r: int) returns (e: Event)
      ensures e == EventNone
    {
      return EventNone;
    }

    /**
     * The button tracks whether the pointer is over it and asks for a redraw when that changes:
     * leaving reports an action, being inside reports holding the pointer.
     */
    method MMove(inside: bool) returns (e: Event)
      modifies this`hasCursor, this`redraw
      ensures hasCursor == inside
      ensures redraw == (old(redraw) || old(hasCursor) != inside)
      ensures e == if inside then EventHasCursor else if old(hasCursor) then EventAction else EventNone
    {
      if hasCursor && !inside {
        hasCursor := false;
        redraw := true;
        return EventAction;
      } else if !inside {
        return EventNone;
      }
      if !hasCursor {
        hasCursor := true;
        redraw := true;
        return EventHasCursor;
      } else {
        return EventHasCursor;
      }
    }

    /** A left press asks for a redraw and, inside the button, confirms. */
    method MClick(inside: bool, button: MouseButton, action: Action) returns (e: Event)
      modifies this`redraw
      ensures var press := button == MouseButtonLeft && action == Press;
        && redraw == (old(redraw) || press)
        && e == (if press && inside then EventConfirm else EventNone)
    {
      if button == MouseButtonLeft && action == Press {
        redraw := true;
        if !inside {
          return EventNone;
        }
      } else {
        return EventNone;
      }
      return EventConfirm;
    }

    method SetString(s: string)
      modifies this`text, this`redraw
      ensures text == s && redraw
    {
      text := s;
      redraw := true;
    }

    function GetString(): (s: string)
      reads this
      ensures s == text
    {
      text
    }

    /** A button has no position to report. */
    function GetInt(): (n: int)
      ensures n == -1
    {
      -1
    }

    /** Changing the enabled state asks for a redraw; setting it to what it is changes nothing. */
    method SetEnabled(on: bool)
      modifies this`enabled, this`redraw
      ensures enabled == on
      ensures redraw == (old(redraw) || old(enabled) != on)
    {
      if enabled != on {
        enabled := on;
        redraw := true;
      }
    }

    function GetEnabled(): (on: bool)
      reads this
      ensures on == enabled
    {
      enabled
    }
  }
}
