/**
 * The package-level declarations of draw2dui: the Event enumeration that every widget handler
 * returns, the window-system input vocabulary the handlers receive, and NameWidget's counter.
 */
module Draw2dui {
  import opened Wrappers

  /** Widget events, declared with iota: each constant's value is its position in the declaration. */
  datatype Event =
    | EventNone       // the widget returned normally
    | EventNext       // the next widget should be selected
    | EventPrevious   // the previous widget should be selected
    | EventExit       // the widget or the application should be closed
    | EventConfirm    // the user confirmed an action (typically Enter)
    | EventAction     // the user modified the widget
    | EventSelected   // the widget was selected
    | EventHasCursor  // the widget currently controls the mouse cursor

  /** The constants in the order they are declared. */
  const DeclarationOrder: seq<Event> :=
    [EventNone, EventNext, EventPrevious, EventExit, EventConfirm, EventAction, EventSelected, EventHasCursor]

  /** The integer value of an event: its position in the declaration, as iota assigns it. */
  function Code(e: Event): (n: int)
    ensures 0 <= n < |DeclarationOrder| && DeclarationOrder[n] == e
  {
    match e
    case EventNone => 0
    case EventNext => 1
    case EventPrevious => 2
    case EventExit => 3
    case EventConfirm => 4
    case EventAction => 5
    case EventSelected => 6
    case EventHasCursor => 7
  }

  /** The event an integer value names, if it names one. */
  function EventOfCode(n: int): (e: Option<Event>)
    ensures e.Some? <==> 0 <= n <= 7
    ensures e.Some? ==> Code(e.value) == n
  {
    if 0 <= n < |DeclarationOrder| then Some(DeclarationOrder[n]) else None
  }

  /** Distinct constants have distinct values, and the values are exactly 0 through 7. */
  lemma CodesDistinct(a: Event, b: Event)
    ensures a != b ==> Code(a) != Code(b)
    ensures EventOfCode(Code(a)) == Some(a)
  {
  }

  // Input vocabulary of the window system (glfw). Only the keys the widgets distinguish are named.

  datatype Key = KeyLeft | KeyRight | KeyUp | KeyDown | KeyBackspace | KeyEnter | KeyOther(code: int)

  datatype Action = Release | Press | Repeat

  datatype MouseButton = MouseButtonLeft | MouseButtonRight | MouseButtonMiddle | MouseButtonOther(index: int)

  // NameWidget's counter is a Go int32 advanced by atomic.AddInt32, which wraps around.

  const Modulus32: int := 0x1_0000_0000

  newtype int32 = x: int | -0x8000_0000 <= x < 0x8000_0000

  /** Two's complement reduction of an integer to 32 bits. */
  function Wrap32(x: int): (r: int32)
    ensures (r as int - x) % Modulus32 == 0
  {
    ((x + 0x8000_0000) % Modulus32 - 0x8000_0000) as int32
  }

  /** The counter after one atomic.AddInt32(&widgetCount, 1). */
  function Increment(c: int32): int32 {
    Wrap32(c as int + 1)
  }

  /** The counter after n calls of NameWidget. */
  function CounterAfter(c: int32, n: nat): int32 {
    if n == 0 then c else Increment(CounterAfter(c, n - 1))
  }

  lemma {:induction false} CounterAfterIsWrappedSum(c: int32, n: nat)
    ensures CounterAfter(c, n) == Wrap32(c as int + n)
  {
    if n > 0 {
      CounterAfterIsWrappedSum(c, n - 1);
      WrapCongruent(CounterAfter(c, n - 1) as int + 1, c as int + n);
    }
  }

  lemma WrapCongruent(x: int, y: int)
    requires (x - y) % Modulus32 == 0
    ensures Wrap32(x) == Wrap32(y)
  {
    var k := (x - y) / Modulus32;
    assert x == y + k * Modulus32;
    assert (x + 0x8000_0000) % Modulus32 == (y + 0x8000_0000 + k * Modulus32) % Modulus32;
  }

  /** Fewer than 2^32 calls apart, the counter values differ. */
  lemma CountersDistinct(c: int32, j: nat, k: nat)
    requires j < k < j + Modulus32
    ensures CounterAfter(c, j) != CounterAfter(c, k)
  {
    CounterAfterIsWrappedSum(c, j);
    CounterAfterIsWrappedSum(c, k);
    var a, b := Wrap32(c as int + j), Wrap32(c as int + k);
    CongruentApart(a as int, c as int + j, b as int, c as int + k);
  }

  /** Two values congruent to x and y modulo 2^32, with y less than 2^32 above x, differ. */
  lemma CongruentApart(a: int, x: int, b: int, y: int)
    requires (a - x) % Modulus32 == 0 && (b - y) % Modulus32 == 0
    requires -0x8000_0000 <= a < 0x8000_0000 && -0x8000_0000 <= b < 0x8000_0000
    requires x < y < x + Modulus32
    ensures a != b
  {
    var p, q := (a - x) / Modulus32, (b - y) / Modulus32;
    assert a - x == p * Modulus32;
    assert b - y == q * Modulus32;
    assert y - x == (b - a) + (p - q) * Modulus32;
  }

  // fmt's %d verb.

  function DigitChar(d: nat): (c: char)
    requires d < 10
    ensures '0' <= c <= '9'
  {
    "0123456789"[d]
  }

  function DigitValue(c: char): nat
    requires '0' <= c <= '9'
  {
    c as int - '0' as int
  }

  /** Decimal digits of n, most significant first, without leading zeros. */
  function Digits(n: nat): (s: string)
    ensures |s| >= 1 && (forall k :: 0 <= k < |s| ==> '0' <= s[k] <= '9')
    ensures s[0] == '0' ==> n == 0
  {
    if n < 10 then [DigitChar(n)] else Digits(n / 10) + [DigitChar(n % 10)]
  }

  /** Reads a string of decimal digits back as a number. */
  function ParseDigits(s: string): nat
    requires forall k :: 0 <= k < |s| ==> '0' <= s[k] <= '9'
  {
    if s == [] then 0 else 10 * ParseDigits(s[..|s| - 1]) + DigitValue(s[|s| - 1])
  }

  /** A digit's glyph reads back as that digit. */
  lemma DigitValueOfChar(d: nat)
    requires d < 10
    ensures DigitValue(DigitChar(d)) == d
  {
  }

  lemma {:induction false} ParseDigitsOfDigits(n: nat)
    ensures ParseDigits(Digits(n)) == n
  {
    if n < 10 {
      DigitValueOfChar(n);
    } else {
      ParseDigitsOfDigits(n / 10);
      var d, c := Digits(n / 10), DigitChar(n % 10);
      assert Digits(n) == d + [c];
      assert (d + [c])[..|d|] == d;
      DigitValueOfChar(n % 10);
      assert ParseDigits(d + [c]) == 10 * ParseDigits(d) + (n % 10);
    }
  }

  /** The text %d prints for n: a '-' for a negative n, then its digits without leading zeros. */
  function Decimal(n: int): (s: string)
    ensures |s| >= 1
    ensures s[0] == '-' <==> n < 0
  {
    if n < 0 then "-" + Digits(-n) else Digits(n)
  }

  /** After the optional '-', %d prints at least one digit and only digits, with no leading zero. */
  lemma DecimalDigits(n: int)
    ensures var s, d := Decimal(n), if n < 0 then 1 else 0;
      && |s| > d
      && (forall k :: d <= k < |s| ==> '0' <= s[k] <= '9')
      && (s[d] == '0' ==> n == 0)
  {
    if n < 0 {
      SignDropped(Digits(-n));
    }
  }

  lemma DigitsInjective(a: nat, b: nat)
    requires Digits(a) == Digits(b)
    ensures a == b
  {
    ParseDigitsOfDigits(a);
    ParseDigitsOfDigits(b);
  }

  /** The text after a leading '-', or the whole text when it has none. */
  function Unsigned(s: string): string {
    if |s| > 0 && s[0] == '-' then s[1..] else s
  }

  /** Dropping the sign of %d's text leaves the digits of the magnitude. */
  lemma UnsignedDecimal(n: int)
    ensures Unsigned(Decimal(n)) == Digits(if n < 0 then -n else n)
  {
    if n < 0 {
      SignDropped(Digits(-n));
    }
  }

  lemma DecimalInjective(a: int, b: int)
    requires Decimal(a) == Decimal(b)
    ensures a == b
  {
    var s := Decimal(a);
    assert a < 0 <==> b < 0 by {
      assert s[0] == Decimal(b)[0];
    }
    UnsignedDecimal(a);
    UnsignedDecimal(b);
    DigitsInjective(if a < 0 then -a else a, if b < 0 then -b else b);
  }

  lemma SignDropped(d: string)
    ensures ("-" + d)[1..] == d
  {
  }

  /** The name NameWidget gives the prefix w when the counter reaches count. */
  function WidgetName(w: string, count: int32): string {
    w + "-" + Decimal(count as int)
  }

  lemma WidgetNameInjective(w: string, a: int32, b: int32)
    requires WidgetName(w, a) == WidgetName(w, b)
    ensures a == b
  {
    assert WidgetName(w, a)[|w| + 1..] == Decimal(a as int);
    assert WidgetName(w, b)[|w| + 1..] == Decimal(b as int);
    DecimalInjective(a as int, b as int);
  }

  /** Names handed out for one prefix fewer than 2^32 calls apart are different. */
  lemma NamesDistinct(w: string, c: int32, j: nat, k: nat)
    requires j < k < j + Modulus32
    ensures WidgetName(w, CounterAfter(c, j)) != WidgetName(w, CounterAfter(c, k))
  {
    CountersDistinct(c, j, k);
    if WidgetName(w, CounterAfter(c, j)) == WidgetName(w, CounterAfter(c, k)) {
      WidgetNameInjective(w, CounterAfter(c, j), CounterAfter(c, k));
    }
  }

  /** The package-level widget counter, held in an object. */
  class WidgetCounter {
    var widgetCount: int32

    constructor ()
      ensures widgetCount == 0
    {
      widgetCount := 0;
    }

    /** Advances the counter by one and returns the prefix, a dash and the new count. */
    method NameWidget(w: string) returns (name: string)
      modifies this
      ensures widgetCount == Increment(old(widgetCount))
      ensures name == WidgetName(w, widgetCount)
    {
      widgetCount := Increment(widgetCount);
      name := w + "-" + Decimal(widgetCount as int);
    }
  }

  /** With the counter at zero, the first name for "test" is "test-1". */
  method FirstNameAfterReset() returns (name: string)
    ensures name == "test-1"
  {
    var counter := new WidgetCounter();
    name := counter.NameWidget("test");
    assert Decimal(1) == "1";
  }
}
