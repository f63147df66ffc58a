/**
 * WidgetCollection: routes events to a set of widgets and keeps track of the selected one.
 * The widgets are identified by their names; what a widget answers to a call is an input
 * (reply, handled), and a loop over the map visits the names in an arbitrary order that lists
 * each registered name exactly once.
 */
module WidgetCollections {
  import opened Wrappers
  import opened Draw2dui

  /** order visits every name of names exactly once: one possible iteration order of the map. */
  predicate Enumerates(order: seq<string>, names: set<string>) {
    multiset(order) == multiset(names)
  }

  /** How many times x occurs in s. */
  function Occurrences(s: seq<string>, x: string): (n: nat)
    ensures n <= |s|
  {
    if s == [] then 0 else Occurrences(s[..|s| - 1], x) + (if s[|s| - 1] == x then 1 else 0)
  }

  lemma {:induction false} OccurrencesMultiset(s: seq<string>, x: string)
    ensures Occurrences(s, x) == multiset(s)[x]
  {
    if s != [] {
      OccurrencesMultiset(s[..|s| - 1], x);
      assert s == s[..|s| - 1] + [s[|s| - 1]];
    }
  }

  /** Every name of an enumeration occurs in it once, and nothing else occurs in it. */
  lemma EnumerationOccurrences(order: seq<string>, names: set<string>, x: string)
    requires Enumerates(order, names)
    ensures Occurrences(order, x) == if x in names then 1 else 0
  {
    OccurrencesMultiset(order, x);
  }

  /** The names in order whose widget replied e, in order. */
  function Replying(order: seq<string>, reply: string -> Event, e: Event): seq<string> {
    if order == [] then []
    else
      var rest := Replying(order[..|order| - 1], reply, e);
      if reply(order[|order| - 1]) == e then rest + [order[|order| - 1]] else rest
  }

  /** Replying keeps exactly the names that replied e; it is empty exactly when none did. */
  lemma {:induction false} ReplyingMembers(order: seq<string>, reply: string -> Event, e: Event)
    ensures forall n :: n in Replying(order, reply, e) <==> n in order && reply(n) == e
    ensures Replying(order, reply, e) == [] <==> forall i :: 0 <= i < |order| ==> reply(order[i]) != e
  {
    if order != [] {
      var front, x := order[..|order| - 1], order[|order| - 1];
      ReplyingMembers(front, reply, e);
      assert order == front + [x];
      assert forall i :: 0 <= i < |front| ==> order[i] == front[i];
    }
  }

  /** The first reply in order that holds the pointer or reports an action, if any. */
  function FirstReaction(order: seq<string>, reply: string -> Event): Option<Event> {
    if order == [] then None
    else
      var r := FirstReaction(order[..|order| - 1], reply);
      var e := reply(order[|order| - 1]);
      if r.None? && (e == EventHasCursor || e == EventAction) then Some(e) else r
  }

  /** There is a first reaction exactly when some widget held the pointer or reported an action. */
  lemma {:induction false} FirstReactionFound(order: seq<string>, reply: string -> Event)
    ensures var r := FirstReaction(order, reply);
      && (r.None? <==> Replying(order, reply, EventHasCursor) == [] && Replying(order, reply, EventAction) == [])
      && (r.Some? ==> r.value == EventHasCursor || r.value == EventAction)
  {
    if order != [] {
      var front := order[..|order| - 1];
      FirstReactionFound(front, reply);
      ReplyingSnoc(front, order[|order| - 1], reply, EventHasCursor);
      ReplyingSnoc(front, order[|order| - 1], reply, EventAction);
      assert order == front + [order[|order| - 1]];
    }
  }

  /**
   * The widget MMove reports: the last one in order that holds the pointer; failing that, the
   * first that reported an action; failing that, none.
   */
  function Pointed(order: seq<string>, reply: string -> Event): Option<string> {
    var holders := Replying(order, reply, EventHasCursor);
    var actors := Replying(order, reply, EventAction);
    if holders != [] then Some(holders[|holders| - 1])
    else if actors != [] then Some(actors[0])
    else None
  }

  /**
   * The reported widget is one of the widgets; it holds the pointer when any widget does, and
   * otherwise there is one exactly when some widget reported an action, and it is one of those.
   */
  lemma PointedFound(order: seq<string>, reply: string -> Event)
    ensures var r := Pointed(order, reply);
      && (r.Some? ==> r.value in order)
      && (Replying(order, reply, EventHasCursor) != [] ==> r.Some? && reply(r.value) == EventHasCursor)
      && (Replying(order, reply, EventHasCursor) == [] ==>
           (r.Some? <==> Replying(order, reply, EventAction) != []) && (r.Some? ==> reply(r.value) == EventAction))
  {
    ReplyingMembers(order, reply, EventHasCursor);
    ReplyingMembers(order, reply, EventAction);
    var holders := Replying(order, reply, EventHasCursor);
    var actors := Replying(order, reply, EventAction);
    if holders != [] {
      assert holders[|holders| - 1] in holders;
    } else if actors != [] {
      assert actors[0] in actors;
    }
  }

  /**
   * The event MMove reports: the pointer passing to a widget when the collection held it, else
   * an action if one was reported before any widget took the pointer.
   */
  function PointedEvent(order: seq<string>, reply: string -> Event, had: bool): Event {
    if had && Replying(order, reply, EventHasCursor) != [] then EventHasCursor
    else if FirstReaction(order, reply) == Some(EventAction) then EventAction
    else EventNone
  }

  /** Replying over one more name. */
  lemma ReplyingSnoc(s: seq<string>, x: string, reply: string -> Event, e: Event)
    ensures Replying(s + [x], reply, e) == Replying(s, reply, e) + (if reply(x) == e then [x] else [])
  {
    assert (s + [x])[..|s|] == s;
  }

  /** What MMove reports after visiting one more name. */
  lemma PointedStep(order: seq<string>, k: nat, reply: string -> Event, had: bool)
    requires k < |order|
    ensures var ev := reply(order[k]);
      && (Replying(order[..k + 1], reply, EventHasCursor) == []) ==
           (Replying(order[..k], reply, EventHasCursor) == [] && ev != EventHasCursor)
      && Pointed(order[..k + 1], reply) ==
           (if ev == EventHasCursor then Some(order[k])
            else if Pointed(order[..k], reply).None? && ev == EventAction then Some(order[k])
            else Pointed(order[..k], reply))
      && PointedEvent(order[..k + 1], reply, had) ==
           (if ev == EventHasCursor && had && Replying(order[..k], reply, EventHasCursor) == [] then EventHasCursor
            else if ev == EventAction && Pointed(order[..k], reply).None? then EventAction
            else PointedEvent(order[..k], reply, had))
  {
    assert order[..k + 1] == order[..k] + [order[k]];
    PointedSnoc(order[..k], order[k], reply);
    PointedEventSnoc(order[..k], order[k], reply, had);
  }

  lemma PointedSnoc(s: seq<string>, x: string, reply: string -> Event)
    ensures (Replying(s + [x], reply, EventHasCursor) == []) ==
            (Replying(s, reply, EventHasCursor) == [] && reply(x) != EventHasCursor)
    ensures Pointed(s + [x], reply) ==
      (if reply(x) == EventHasCursor then Some(x)
       else if Pointed(s, reply).None? && reply(x) == EventAction then Some(x)
       else Pointed(s, reply))
  {
    var h, a := Replying(s, reply, EventHasCursor), Replying(s, reply, EventAction);
    ReplyingSnoc(s, x, reply, EventHasCursor);
    ReplyingSnoc(s, x, reply, EventAction);
    if reply(x) == EventHasCursor {
      assert (h + [x])[|h|] == x;
    } else if reply(x) == EventAction {
      assert h + [] == h;
      assert a != [] ==> (a + [x])[0] == a[0];
    } else {
      assert h + [] == h && a + [] == a;
    }
  }

  lemma PointedEventSnoc(s: seq<string>, x: string, reply: string -> Event, had: bool)
    ensures PointedEvent(s + [x], reply, had) ==
      (if reply(x) == EventHasCursor && had && Replying(s, reply, EventHasCursor) == [] then EventHasCursor
       else if reply(x) == EventAction && Pointed(s, reply).None? then EventAction
       else PointedEvent(s, reply, had))
  {
    ReplyingSnoc(s, x, reply, EventHasCursor);
    FirstReactionFound(s, reply);
    PointedFound(s, reply);
    assert (s + [x])[..|s|] == s;
  }

  /** The names of a sequence one name longer. */
  lemma NamesSnoc(s: seq<string>, x: string)
    ensures (set n | n in s + [x]) == (set n | n in s) + {x}
  {
  }

  /** At most one name in order drew a reply of e. */
  predicate AtMostOne(order: seq<string>, reply: string -> Event, e: Event) {
    forall a, b :: a in order && b in order && reply(a) == e && reply(b) == e ==> a == b
  }

  /** A widget that alone holds the pointer is the one reported. */
  lemma PointedHolder(order: seq<string>, reply: string -> Event, h: string)
    requires h in order && reply(h) == EventHasCursor
    requires AtMostOne(order, reply, EventHasCursor)
    ensures Pointed(order, reply) == Some(h)
  {
    ReplyingMembers(order, reply, EventHasCursor);
    PointedFound(order, reply);
    assert h in Replying(order, reply, EventHasCursor);
  }

  /** With no holder, a widget that alone reported an action is the one reported. */
  lemma PointedActor(order: seq<string>, reply: string -> Event, a: string)
    requires a in order && reply(a) == EventAction
    requires Replying(order, reply, EventHasCursor) == []
    requires AtMostOne(order, reply, EventAction)
    ensures Pointed(order, reply) == Some(a)
  {
    ReplyingMembers(order, reply, EventAction);
    PointedFound(order, reply);
    assert a in Replying(order, reply, EventAction);
  }

  /**
   * When widgets do not overlap (at most one holds the pointer) and at most one reports an
   * action, the widget MMove reports does not depend on the iteration order.
   */
  lemma PointedIndependentOfOrder(o1: seq<string>, o2: seq<string>, reply: string -> Event)
    requires multiset(o1) == multiset(o2)
    requires AtMostOne(o1, reply, EventHasCursor) && AtMostOne(o1, reply, EventAction)
    ensures Pointed(o1, reply) == Pointed(o2, reply)
  {
    assert forall n :: n in o1 <==> n in o2 by {
      forall n ensures n in o1 <==> n in o2 {
        assert n in o1 <==> n in multiset(o1);
        assert n in o2 <==> n in multiset(o2);
      }
    }
    ReplyingMembers(o1, reply, EventHasCursor);
    ReplyingMembers(o2, reply, EventHasCursor);
    ReplyingMembers(o1, reply, EventAction);
    ReplyingMembers(o2, reply, EventAction);
    var h1 := Replying(o1, reply, EventHasCursor);
    if h1 != [] {
      var h := h1[0];
      PointedHolder(o1, reply, h);
      PointedHolder(o2, reply, h);
    } else {
      var a1 := Replying(o1, reply, EventAction);
      if a1 != [] {
        var a := a1[0];
        PointedActor(o1, reply, a);
        PointedActor(o2, reply, a);
      }
    }
  }

  /** The first name of names that is not empty, or "" if there is none. */
  function FirstNamed(names: seq<string>): string {
    if names == [] then ""
    else if names[0] != "" then names[0]
    else FirstNamed(names[1..])
  }

  /** FirstNamed is empty exactly when every name is, and otherwise is preceded only by empty names. */
  lemma {:induction false} FirstNamedIsFirst(names: seq<string>)
    ensures FirstNamed(names) == "" <==> forall i :: 0 <= i < |names| ==> names[i] == ""
    ensures var r := FirstNamed(names);
      r != "" ==> exists k :: 0 <= k < |names| && names[k] == r && forall i :: 0 <= i < k ==> names[i] == ""
  {
    if names != [] && names[0] == "" {
      var tail := names[1..];
      FirstNamedIsFirst(tail);
      var r := FirstNamed(tail);
      assert (forall i :: 0 <= i < |tail| ==> tail[i] == "") <==> (forall i :: 0 <= i < |names| ==> names[i] == "") by {
        assert forall i :: 0 < i < |names| ==> names[i] == tail[i - 1];
      }
      if r != "" {
        var k :| 0 <= k < |tail| && tail[k] == r && forall i :: 0 <= i < k ==> tail[i] == "";
        assert names[k + 1] == r;
        assert forall i :: 0 <= i < k + 1 ==> names[i] == "" by {
          forall i | 0 <= i < k + 1 ensures names[i] == "" {
            if i > 0 {
              assert names[i] == tail[i - 1];
            }
          }
        }
      }
    } else if names != [] {
      assert names[0] == FirstNamed(names);
    }
  }

  class WidgetCollection {
    var widgets: set<string>
    var mx: int
    var my: int
    var hasCursor: bool
    var forceRedraw: bool
    var selected: string

    /** The selection is empty or names a registered widget. */
    predicate Valid()
      reads this
    {
      selected == "" || selected in widgets
    }

    /** Registers the widgets named names, in that order. */
    constructor(names: seq<string>)
      ensures widgets == set n | n in names
      ensures selected == FirstNamed(names)
      ensures mx == 0 && my == 0 && !hasCursor && !forceRedraw
      ensures Valid()
    {
      widgets, selected := {}, "";
      mx, my, hasCursor, forceRedraw := 0, 0, false, false;
      new;
      var k := 0;
      while k < |names|
        invariant 0 <= k <= |names|
        invariant widgets == set n | n in names[..k]
        invariant selected == FirstNamed(names[..k])
        invariant mx == 0 && my == 0 && !hasCursor && !forceRedraw
        invariant Valid()
      {
        FirstNamedSnoc(names[..k], names[k]);
        assert names[..k + 1] == names[..k] + [names[k]];
        NamesSnoc(names[..k], names[k]);
        Register(names[k]);
        k := k + 1;
      }
      assert names[..k] == names;
    }

    /** The first registration selects its widget; a non-empty selection is kept. */
    method Register(name: string)
      modifies this`widgets, this`selected
      ensures widgets == old(widgets) + {name}
      ensures selected == if old(selected) == "" then name else old(selected)
      ensures old(Valid()) ==> Valid()
    {
      if |selected| == 0 {
        selected := name;
      }
      widgets := widgets + {name};
    }

    /**
     * Draws every widget, telling each whether it is the selected one and whether the redraw is
     * forced, then clears the force flag. The calls made are returned as (name, selected, force).
     */
    method Draw(order: seq<string>) returns (calls: seq<(string, bool, bool)>)
      requires Enumerates(order, widgets)
      modifies this`forceRedraw
      ensures |calls| == |order|
      ensures forall i :: 0 <= i < |calls| ==> calls[i] == (order[i], order[i] == selected, old(forceRedraw))
      ensures !forceRedraw
    {
      calls := [];
      var k := 0;
      while k < |order|
        invariant 0 <= k <= |order|
        invariant |calls| == k
        invariant forall i :: 0 <= i < k ==> calls[i] == (order[i], order[i] == selected, forceRedraw)
      {
        calls := calls + [(order[k], order[k] == selected, forceRedraw)];
        k := k + 1;
      }
      forceRedraw := false;
    }

    /**
     * The idle tick: every widget is handled, told whether it is selected; a redraw is due when
     * any of them asks for one. Nothing in the collection changes.
     */
    method Handle(order: seq<string>, handled: (string, bool) -> bool) returns (redraw: bool)
      requires Enumerates(order, widgets)
      ensures redraw <==> exists i :: 0 <= i < |order| && handled(order[i], order[i] == selected)
    {
      redraw := false;
      var k := 0;
      while k < |order|
        invariant 0 <= k <= |order|
        invariant redraw <==> exists i :: 0 <= i < k && handled(order[i], order[i] == selected)
      {
        if handled(order[k], order[k] == selected) {
          redraw := true;
        }
        k := k + 1;
      }
    }

    /**
     * A key goes to the selected widget; only its action is passed on, with the widget. An empty
     * selection, and any other reply (a confirmation included), yields nothing.
     */
    method KeyPress(reply: string -> Event) returns (widget: Option<string>, e: Event)
      requires Valid()
      ensures widget == if selected != "" && reply(selected) == EventAction then Some(selected) else None
      ensures e == if widget.Some? then EventAction else EventNone
    {
      if |selected| == 0 {
        return None, EventNone;
      }
      if reply(selected) == EventAction {
        return Some(selected), EventAction;
      }
      return None, EventNone;
    }

    /** A character goes to the selected widget, exactly as a key does. */
    method CharPress(reply: string -> Event) returns (widget: Option<string>, e: Event)
      requires Valid()
      ensures widget == if selected != "" && reply(selected) == EventAction then Some(selected) else None
      ensures e == if widget.Some? then EventAction else EventNone
    {
      if |selected| == 0 {
        return None, EventNone;
      }
      if reply(selected) == EventAction {
        return Some(selected), EventAction;
      }
      return None, EventNone;
    }

    /**
     * The pointer moved to (xpos, ypos): every widget is told. The collection keeps the pointer
     * exactly when no widget holds it; see Pointed and PointedEvent for what is reported.
     */
    method MMove(xpos: int, ypos: int, order: seq<string>, reply: string -> Event)
      returns (widget: Option<string>, e: Event)
      requires Enumerates(order, widgets)
      modifies this`mx, this`my, this`hasCursor
      ensures mx == xpos && my == ypos
      ensures hasCursor == (Replying(order, reply, EventHasCursor) == [])
      ensures widget == Pointed(order, reply)
      ensures e == PointedEvent(order, reply, old(hasCursor))
    {
      mx, my := xpos, ypos;
      var free := true;
      widget, e := None, EventNone;
      ghost var had := hasCursor;
      var k := 0;
      while k < |order|
        invariant 0 <= k <= |order|
        invariant mx == xpos && my == ypos
        invariant free == (Replying(order[..k], reply, EventHasCursor) == [])
        invariant hasCursor == (had && free)
        invariant widget == Pointed(order[..k], reply)
        invariant e == PointedEvent(order[..k], reply, had)
      {
        PointedStep(order, k, reply, had);
        var ev := reply(order[k]);
        if ev == EventHasCursor {
          if hasCursor {
            hasCursor := false;
            e := EventHasCursor;
          }
          free := false;
          widget := Some(order[k]);
        } else if widget == None && ev == EventAction {
          widget := Some(order[k]);
          e := EventAction;
        }
        k := k + 1;
      }
      assert order[..k] == order;
      if free && !hasCursor {
        hasCursor := true;
      }
    }

    /**
     * A click at the last pointer position is offered to the widgets in order until one selects
     * itself; it becomes the selection (forcing a redraw when that changes). A press nobody takes
     * clears the selection. The names offered the click are returned as called.
     */
    method MClick(button: MouseButton, action: Action, order: seq<string>, reply: string -> Event)
      returns (widget: Option<string>, e: Event, called: seq<string>)
      requires Enumerates(order, widgets)
      modifies this`selected, this`forceRedraw
      ensures called <= order
      ensures widget.None? ==> called == order && forall i :: 0 <= i < |order| ==> reply(order[i]) != EventSelected
      ensures widget.Some? ==>
        && |called| > 0
        && called[|called| - 1] == widget.value
        && reply(widget.value) == EventSelected
        && forall i :: 0 <= i < |called| - 1 ==> reply(called[i]) != EventSelected
      ensures e == if widget.Some? || action == Press then EventSelected else EventNone
      ensures selected == if widget.Some? then widget.value else if action == Press then "" else old(selected)
      ensures forceRedraw == (old(forceRedraw) || selected != old(selected))
      ensures old(Valid()) ==> Valid()
    {
      var k := 0;
      while k < |order|
        invariant 0 <= k <= |order|
        invariant forall i :: 0 <= i < k ==> reply(order[i]) != EventSelected
        invariant selected == old(selected) && forceRedraw == old(forceRedraw)
      {
        var n := order[k];
        if reply(n) == EventSelected {
          assert n in multiset(order);
          if n != selected {
            selected := n;
            forceRedraw := true;
          }
          return Some(n), EventSelected, order[..k + 1];
        }
        k := k + 1;
      }
      if action == Press {
        if |selected| > 0 {
          selected := "";
          forceRedraw := true;
        }
        return None, EventSelected, order;
      }
      return None, EventNone, order;
    }

    /** The drawing surface was resized: the next Draw redraws everything. */
    method Reshape(w: int, h: int)
      modifies this`forceRedraw
      ensures forceRedraw
    {
      forceRedraw := true;
    }

    /** The window must be repainted: the next Draw redraws everything. */
    method Refresh()
      modifies this`forceRedraw
      ensures forceRedraw
    {
      forceRedraw := true;
    }
  }

  /** Registering a name after names selects as registering all of them in turn does. */
  lemma FirstNamedSnoc(names: seq<string>, x: string)
    ensures FirstNamed(names + [x]) == if FirstNamed(names) == "" then x else FirstNamed(names)
  {
    if names != [] {
      assert (names + [x])[1..] == names[1..] + [x];
      FirstNamedSnoc(names[1..], x);
    }
  }

  /**
   * In a Draw over an enumeration, exactly one widget is drawn as the selected one when the
   * selection names a registered widget, and none when it is empty or unregistered.
   */
  lemma DrawSelectsOne(order: seq<string>, names: set<string>, sel: string)
    requires Enumerates(order, names)
    ensures Occurrences(order, sel) == if sel in names then 1 else 0
  {
    EnumerationOccurrences(order, names, sel);
  }
}
