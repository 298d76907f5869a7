/** Text typing, key events and wheel scrolling through a virtual input device, over its event log. */
module Keystrokes {
  import opened Prelude

  const KEY_LEFTSHIFT: nat := 42
  const REL_HWHEEL: nat := 6
  const REL_WHEEL: nat := 8

  datatype Event = Key(code: nat, value: int) | Rel(axis: nat, amount: int) | Syn

  datatype KeyBinding = KeyBinding(code: nat, shifted: bool)

  // ----- Character table -----

  function LetterCode(c: char): nat
    requires 'a' <= c <= 'z'
  {
    match c
    case 'q' => 16 case 'w' => 17 case 'e' => 18 case 'r' => 19 case 't' => 20
    case 'y' => 21 case 'u' => 22 case 'i' => 23 case 'o' => 24 case 'p' => 25
    case 'a' => 30 case 's' => 31 case 'd' => 32 case 'f' => 33 case 'g' => 34
    case 'h' => 35 case 'j' => 36 case 'k' => 37 case 'l' => 38
    case 'z' => 44 case 'x' => 45 case 'c' => 46 case 'v' => 47 case 'b' => 48
    case 'n' => 49 case _ => 50
  }

  function DigitCode(c: char): nat
    requires '0' <= c <= '9'
  {
    if c == '0' then 11 else 1 + (c as int - '0' as int)
  }

  function SymbolBinding(c: char): Option<KeyBinding> {
    match c
    case '\n' => Some(KeyBinding(28, false))
    case '\r' => Some(KeyBinding(28, false))
    case '\t' => Some(KeyBinding(15, false))
    case ' ' => Some(KeyBinding(57, false))
    case '-' => Some(KeyBinding(12, false))
    case '_' => Some(KeyBinding(12, true))
    case '=' => Some(KeyBinding(13, false))
    case '+' => Some(KeyBinding(13, true))
    case '[' => Some(KeyBinding(26, false))
    case '{' => Some(KeyBinding(26, true))
    case ']' => Some(KeyBinding(27, false))
    case '}' => Some(KeyBinding(27, true))
    case ';' => Some(KeyBinding(39, false))
    case ':' => Some(KeyBinding(39, true))
    case '\'' => Some(KeyBinding(40, false))
    case '"' => Some(KeyBinding(40, true))
    case '`' => Some(KeyBinding(41, false))
    case '~' => Some(KeyBinding(41, true))
    case '\\' => Some(KeyBinding(43, false))
    case '|' => Some(KeyBinding(43, true))
    case ',' => Some(KeyBinding(51, false))
    case '<' => Some(KeyBinding(51, true))
    case '.' => Some(KeyBinding(52, false))
    case '>' => Some(KeyBinding(52, true))
    case '/' => Some(KeyBinding(53, false))
    case '?' => Some(KeyBinding(53, true))
    case '!' => Some(KeyBinding(2, true))
    case '@' => Some(KeyBinding(3, true))
    case '#' => Some(KeyBinding(4, true))
    case '$' => Some(KeyBinding(5, true))
    case '%' => Some(KeyBinding(6, true))
    case '^' => Some(KeyBinding(7, true))
    case '&' => Some(KeyBinding(8, true))
    case '*' => Some(KeyBinding(9, true))
    case '(' => Some(KeyBinding(10, true))
    case ')' => Some(KeyBinding(11, true))
    case _ => None
  }

  /** `char_binding`. */
  function CharBinding(c: char): Option<KeyBinding> {
    if 'a' <= c <= 'z' then Some(KeyBinding(LetterCode(c), false))
    else if 'A' <= c <= 'Z' then Some(KeyBinding(LetterCode((c as int + 32) as char), true))
    else if '0' <= c <= '9' then Some(KeyBinding(DigitCode(c), false))
    else SymbolBinding(c)
  }

  // ----- A keyboard that reads the log -----

  /** The rows of a US keyboard, by the key code of their first key. */
  function UsRow(code: nat): (nat, string, string) {
    if code < 16 then (2, "1234567890-=", "!@#$%^&*()_+")
    else if code < 30 then (16, "qwertyuiop[]", "QWERTYUIOP{}")
    else if code < 43 then (30, "asdfghjkl;'`", "ASDFGHJKL:\"~")
    else (43, "\\zxcvbnm,./", "|ZXCVBNM<>?")
  }

  /** The character a US layout produces for a key. */
  function UsChar(code: nat, shift: bool): Option<char> {
    var (first, plain, shifted) := UsRow(code);
    if code == 28 then Some('\n')
    else if code == 15 then Some('\t')
    else if code == 57 then Some(' ')
    else if first <= code < first + |plain| && |plain| == |shifted| then
      Some(if shift then shifted[code - first] else plain[code - first])
    else None
  }

  /** Keys held down, and the text produced so far. */
  datatype Keyboard = Keyboard(held: set<nat>, text: string)

  function Read(k: Keyboard, e: Event): Keyboard {
    match e
    case Key(code, value) =>
      if value == 0 then k.(held := k.held - {code})
      else if code == KEY_LEFTSHIFT then k.(held := k.held + {code})
      else
        var c := UsChar(code, KEY_LEFTSHIFT in k.held);
        Keyboard(k.held + {code}, if c.Some? then k.text + [c.value] else k.text)
    case _ => k
  }

  function Replay(k: Keyboard, log: seq<Event>): Keyboard
    decreases |log|
  {
    if |log| == 0 then k else Replay(Read(k, log[0]), log[1..])
  }

  lemma {:induction false} ReplayConcat(k: Keyboard, a: seq<Event>, b: seq<Event>)
    ensures Replay(k, a + b) == Replay(Replay(k, a), b)
    decreases |a|
  {
    if |a| == 0 {
      assert a + b == b;
    } else {
      assert (a + b)[1..] == a[1..] + b;
      ReplayConcat(Read(k, a[0]), a[1..], b);
    }
  }

  // ----- What typing emits -----

  function PressOf(b: KeyBinding): seq<Event> {
    if b.shifted then [Key(KEY_LEFTSHIFT, 1), Key(b.code, 1)] else [Key(b.code, 1)]
  }

  function ReleaseOf(b: KeyBinding): seq<Event> {
    if b.shifted then [Key(b.code, 0), Key(KEY_LEFTSHIFT, 0)] else [Key(b.code, 0)]
  }

  /** Shift goes down before a shifted key and up after it. */
  lemma ShiftWraps(b: KeyBinding)
    requires b.shifted
    ensures PressOf(b) == [Key(42, 1)] + PressOf(b.(shifted := false))
    ensures ReleaseOf(b) == ReleaseOf(b.(shifted := false)) + [Key(42, 0)]
    ensures PressOf(b.(shifted := false)) == [Key(b.code, 1)] && ReleaseOf(b.(shifted := false)) == [Key(b.code, 0)]
  {
  }

  ghost predicate Typeable(text: string) {
    forall i :: 0 <= i < |text| ==> Bindable(text[i])
  }

  predicate Bindable(c: char) {
    CharBinding(c).Some?
  }

  /** The bindings of a text, character by character. */
  ghost function BindingsOf(text: string): (bs: seq<KeyBinding>)
    requires Typeable(text)
    ensures |bs| == |text|
  {
    seq(|text|, i requires 0 <= i < |text| => assert Bindable(text[i]); CharBinding(text[i]).value)
  }

  /** One press and release per binding, in order. */
  ghost function Strokes(bs: seq<KeyBinding>): seq<Event> {
    if |bs| == 0 then []
    else Strokes(bs[..|bs| - 1]) + (PressOf(bs[|bs| - 1]) + ReleaseOf(bs[|bs| - 1]))
  }

  lemma {:induction false} StrokesAreKeys(bs: seq<KeyBinding>)
    ensures forall i :: 0 <= i < |Strokes(bs)| ==> Strokes(bs)[i].Key?
  {
    if |bs| > 0 {
      StrokesAreKeys(bs[..|bs| - 1]);
    }
  }

  function TypedChar(c: char): char {
    if c == '\r' then '\n' else c
  }

  /** The text as typed: a carriage return is the Enter key. */
  function AsTyped(text: string): string {
    seq(|text|, i requires 0 <= i < |text| => TypedChar(text[i]))
  }

  // ----- The character table against the layout -----

  lemma LettersReadBack(c: char)
    requires 'a' <= c <= 'z'
    ensures UsChar(LetterCode(c), false) == Some(c)
    ensures LetterCode(c) != KEY_LEFTSHIFT
  {
  }

  lemma CapitalsReadBack(c: char)
    requires 'a' <= c <= 'z'
    ensures UsChar(LetterCode(c), true) == Some((c as int - 32) as char)
  {
  }

  lemma SymbolsReadBack(c: char)
    requires SymbolBinding(c).Some?
    ensures var b := SymbolBinding(c).value;
            UsChar(b.code, b.shifted) == Some(TypedChar(c)) && b.code != KEY_LEFTSHIFT
  {
  }

  lemma DigitsReadBack(c: char)
    requires '0' <= c <= '9'
    ensures UsChar(DigitCode(c), false) == Some(c) && DigitCode(c) != KEY_LEFTSHIFT
  {
  }

  /** Exactly tab, newline, carriage return and the printable ASCII characters can be typed. */
  lemma BindableIff(c: char)
    ensures Bindable(c) <==> c == '\t' || c == '\n' || c == '\r' || ' ' <= c <= '~'
  {
  }

  /** A binding whose key produces `c`. */
  ghost predicate Types(b: KeyBinding, c: char) {
    UsChar(b.code, b.shifted) == Some(c) && b.code != KEY_LEFTSHIFT
  }

  /** Every bindable character is what a US layout produces for its binding. */
  lemma BindingReadsBack(c: char)
    requires CharBinding(c).Some?
    ensures Types(CharBinding(c).value, TypedChar(c))
  {
    if 'a' <= c <= 'z' {
      LettersReadBack(c);
    } else if 'A' <= c <= 'Z' {
      LettersReadBack((c as int + 32) as char);
      CapitalsReadBack((c as int + 32) as char);
    } else if '0' <= c <= '9' {
      DigitsReadBack(c);
    } else {
      SymbolsReadBack(c);
    }
  }

  /** Pressing and releasing a key on an idle keyboard types its character and leaves nothing held. */
  lemma StrokeTypes(b: KeyBinding, c: char, text: string)
    requires Types(b, c)
    ensures Replay(Keyboard({}, text), PressOf(b) + ReleaseOf(b)) == Keyboard({}, text + [c])
  {
    var k := Keyboard({}, text);
    if b.shifted {
      ReplayFour(k, Key(KEY_LEFTSHIFT, 1), Key(b.code, 1), Key(b.code, 0), Key(KEY_LEFTSHIFT, 0));
      assert {} + {KEY_LEFTSHIFT} + {b.code} - {b.code} - {KEY_LEFTSHIFT} == {};
    } else {
      ReplayTwo(k, Key(b.code, 1), Key(b.code, 0));
      assert {} + {b.code} - {b.code} == {};
    }
  }

  lemma ReplayTwo(k: Keyboard, a: Event, b: Event)
    ensures Replay(k, [a] + [b]) == Read(Read(k, a), b)
  {
    assert ([a] + [b])[1..] == [b] && [b][1..] == [];
    assert Replay(Read(k, a), [b]) == Replay(Read(Read(k, a), b), []);
  }

  lemma ReplayFour(k: Keyboard, a: Event, b: Event, c: Event, d: Event)
    ensures Replay(k, [a, b] + [c, d]) == Read(Read(Read(Read(k, a), b), c), d)
  {
    ReplayConcat(k, [a, b], [c, d]);
    assert [a] + [b] == [a, b] && [c] + [d] == [c, d];
    ReplayTwo(k, a, b);
    ReplayTwo(Read(Read(k, a), b), c, d);
  }

  lemma {:induction false} StrokesTypeAll(bs: seq<KeyBinding>, cs: string, before: string)
    requires |bs| == |cs| && forall i :: 0 <= i < |bs| ==> Types(bs[i], cs[i])
    ensures Replay(Keyboard({}, before), Strokes(bs)) == Keyboard({}, before + cs)
  {
    if |bs| == 0 {
      assert before + cs == before;
    } else {
      var n := |bs| - 1;
      StrokesTypeAll(bs[..n], cs[..n], before);
      ReplayConcat(Keyboard({}, before), Strokes(bs[..n]), PressOf(bs[n]) + ReleaseOf(bs[n]));
      StrokeTypes(bs[n], cs[n], before + cs[..n]);
      assert before + cs[..n] + [cs[n]] == before + cs;
    }
  }

  /** Replaying the strokes of a text types the text, carriage returns as newlines, and leaves no key
      and no shift held. */
  lemma StrokesType(text: string, before: string)
    requires Typeable(text)
    ensures Replay(Keyboard({}, before), Strokes(BindingsOf(text))) == Keyboard({}, before + AsTyped(text))
  {
    forall i | 0 <= i < |text|
      ensures Types(BindingsOf(text)[i], AsTyped(text)[i])
    {
      assert Bindable(text[i]);
      BindingReadsBack(text[i]);
    }
    StrokesTypeAll(BindingsOf(text), AsTyped(text), before);
  }

  /** Appending a text's strokes to any log that leaves no key held appends the text. */
  lemma LogTypes(log: seq<Event>, text: string)
    requires Typeable(text)
    ensures var was := Replay(Keyboard({}, ""), log);
            was.held == {} ==>
              Replay(Keyboard({}, ""), log + (Strokes(BindingsOf(text)) + [Syn])) == Keyboard({}, was.text + AsTyped(text))
  {
    var was := Replay(Keyboard({}, ""), log);
    var strokes := Strokes(BindingsOf(text));
    ReplayConcat(Keyboard({}, ""), log, strokes + [Syn]);
    ReplayConcat(was, strokes, [Syn]);
    if was.held == {} {
      StrokesType(text, was.text);
      assert [Syn][1..] == [];
    }
  }

  // ----- Scrolling -----

  /** `f64::round`: to the nearest integer, halves away from zero. */
  function Round(x: real): int {
    if x >= 0.0 then (x + 0.5).Floor else -((0.5 - x).Floor)
  }

  /** Rounding is to the nearest integer, symmetric about zero, halves away from it. */
  lemma RoundNearest(x: real)
    ensures x - 0.5 <= Round(x) as real <= x + 0.5 && Round(-x) == -Round(x)
    ensures x >= 0.0 ==> x < Round(x) as real + 0.5
  {
    assert x > 0.0 ==> (0.5 - -x).Floor == (x + 0.5).Floor;
    assert x < 0.0 ==> (-x + 0.5).Floor == (0.5 - x).Floor;
  }

  /** `detents`: whole steps out, remainder kept. */
  function Detents(delta: real, acc: real): (int, real) {
    var steps := Round(acc + delta);
    (steps, acc + delta - steps as real)
  }

  /** Nothing is lost, and the remainder is at most half a step. */
  lemma DetentsConserve(delta: real, acc: real)
    ensures var (steps, left) := Detents(delta, acc);
            steps as real + left == acc + delta && -0.5 <= left <= 0.5
  {
  }

  /** The events of one scroll: nothing for a zero request, else the non-zero whole steps, vertical
      first and inverted, and a sync. */
  function ScrollEvents(dx: real, dy: real, wheelAcc: real, hwheelAcc: real): seq<Event> {
    if dx == 0.0 && dy == 0.0 then []
    else
      var (v, h) := (Round(wheelAcc + -dy), Round(hwheelAcc + dx));
      (if v != 0 then [Rel(REL_WHEEL, v)] else []) + (if h != 0 then [Rel(REL_HWHEEL, h)] else []) + [Syn]
  }

  /** A scroll reports the vertical wheel (axis 8) before the horizontal one (axis 6), each at most once
      and only if it moved, and then a sync; no request emits nothing. */
  lemma ScrollShape(dx: real, dy: real, wheelAcc: real, hwheelAcc: real)
    ensures var es := ScrollEvents(dx, dy, wheelAcc, hwheelAcc);
            && (dx == 0.0 && dy == 0.0 <==> es == [])
            && (es != [] ==> es[|es| - 1] == Syn && |es| <= 3)
            && (forall i :: 0 <= i < |es| - 1 ==> es[i].Rel? && es[i].amount != 0)
            && (|es| == 3 ==> es[0].axis == 8 && es[1].axis == 6)
            && (|es| == 2 ==> es[0].axis == 8 || es[0].axis == 6)
  {
  }

  /** Total movement emitted on an axis. */
  ghost function Moved(log: seq<Event>, axis: nat): int {
    if |log| == 0 then 0
    else Moved(log[..|log| - 1], axis) +
         match log[|log| - 1]
         case Rel(a, n) => if a == axis then n else 0
         case _ => 0
  }

  lemma {:induction false} MovedConcat(a: seq<Event>, b: seq<Event>, axis: nat)
    ensures Moved(a + b, axis) == Moved(a, axis) + Moved(b, axis)
  {
    if |b| == 0 {
      assert a + b == a;
    } else {
      var n := |b| - 1;
      assert (a + b)[..|a| + n] == a + b[..n];
      MovedConcat(a, b[..n], axis);
    }
  }

  lemma {:induction false} KeysDoNotMove(log: seq<Event>, axis: nat)
    requires forall i :: 0 <= i < |log| ==> !log[i].Rel?
    ensures Moved(log, axis) == 0
  {
    if |log| > 0 {
      KeysDoNotMove(log[..|log| - 1], axis);
    }
  }

  lemma Balance(moved: int, steps: int, acc: real, left: real, asked: real, delta: real)
    requires moved as real + acc == asked && steps as real + left == acc + delta
    ensures (moved + steps) as real + left == asked + delta
  {
  }

  lemma ScrollMoves(dx: real, dy: real, wheelAcc: real, hwheelAcc: real)
    ensures var es := ScrollEvents(dx, dy, wheelAcc, hwheelAcc);
            && (dx == 0.0 && dy == 0.0 ==> Moved(es, REL_WHEEL) == Moved(es, REL_HWHEEL) == 0)
            && (dx != 0.0 || dy != 0.0 ==> Moved(es, REL_WHEEL) == Round(wheelAcc + -dy) && Moved(es, REL_HWHEEL) == Round(hwheelAcc + dx))
  {
    if dx != 0.0 || dy != 0.0 {
      var (v, h) := (Round(wheelAcc + -dy), Round(hwheelAcc + dx));
      EventsMove(v, h);
    }
  }

  lemma EventsMove(v: int, h: int)
    ensures var es := (if v != 0 then [Rel(REL_WHEEL, v)] else []) + (if h != 0 then [Rel(REL_HWHEEL, h)] else []) + [Syn];
            Moved(es, REL_WHEEL) == v && Moved(es, REL_HWHEEL) == h
  {
    var a := if v != 0 then [Rel(REL_WHEEL, v)] else [];
    var b := if h != 0 then [Rel(REL_HWHEEL, h)] else [];
    MovedConcat(a + b, [Syn], REL_WHEEL);
    MovedConcat(a + b, [Syn], REL_HWHEEL);
    MovedConcat(a, b, REL_WHEEL);
    MovedConcat(a, b, REL_HWHEEL);
  }

  /** What was emitted and what is still owed add up to what was asked, with the vertical sign
      inverted, and at most half a step is owed. */
  ghost predicate Balanced(log: seq<Event>, wheelAcc: real, hwheelAcc: real, asked: (real, real)) {
    && Moved(log, REL_HWHEEL) as real + hwheelAcc == asked.0
    && Moved(log, REL_WHEEL) as real + wheelAcc == -asked.1
    && -0.5 <= hwheelAcc <= 0.5 && -0.5 <= wheelAcc <= 0.5
  }

  lemma AxisBalances(log: seq<Event>, es: seq<Event>, axis: nat, steps: int, acc: real, left: real, asked: real, delta: real)
    requires Moved(log, axis) as real + acc == asked && Moved(es, axis) == steps && steps as real + left == acc + delta
    ensures Moved(log + es, axis) as real + left == asked + delta
  {
    MovedConcat(log, es, axis);
    Balance(Moved(log, axis), steps, acc, left, asked, delta);
  }

  // ----- The device -----

  class Inner {
    var log: seq<Event>
    var wheelAcc: real
    var hwheelAcc: real
    /** Everything asked for so far on either axis. */
    ghost var asked: (real, real)

    /** Over every run of scrolls what was emitted and what is still owed balance what was asked. */
    ghost predicate Valid()
      reads this
    {
      Balanced(log, wheelAcc, hwheelAcc, asked)
    }

    constructor ()
      ensures Valid() && log == [] && asked == (0.0, 0.0)
    {
      log, wheelAcc, hwheelAcc, asked := [], 0.0, 0.0, (0.0, 0.0);
    }

    /** What a US-layout desktop makes of everything emitted so far. */
    ghost function Screen(): Keyboard
      reads this
    {
      Replay(Keyboard({}, ""), log)
    }

    method Emit(e: Event)
      modifies this`log
      ensures log == old(log) + [e]
    {
      log := log + [e];
    }

    /** `scroll`: wheel steps, positive right and down. */
    method Scroll(dx: real, dy: real)
      requires Valid()
      modifies this
      ensures Valid() && asked == (old(asked).0 + dx, old(asked).1 + dy)
      ensures log == old(log) + ScrollEvents(dx, dy, old(wheelAcc), old(hwheelAcc))
    {
      asked := (asked.0 + dx, asked.1 + dy);
      if dx == 0.0 && dy == 0.0 {
        assert log == log + [];
        return;
      }
      ghost var es := ScrollEvents(dx, dy, wheelAcc, hwheelAcc);
      ScrollMoves(dx, dy, wheelAcc, hwheelAcc);
      var wheel, hwheel := ScrollBoth(dx, dy);
      AxisBalances(old(log), es, REL_WHEEL, wheel, old(wheelAcc), wheelAcc, -old(asked).1, -dy);
      AxisBalances(old(log), es, REL_HWHEEL, hwheel, old(hwheelAcc), hwheelAcc, old(asked).0, dx);
    }

    method ScrollBoth(dx: real, dy: real) returns (wheel: int, hwheel: int)
      requires dx != 0.0 || dy != 0.0
      modifies this`log, this`wheelAcc, this`hwheelAcc
      ensures log == old(log) + ScrollEvents(dx, dy, old(wheelAcc), old(hwheelAcc))
      ensures wheel == Round(old(wheelAcc) + -dy) && hwheel == Round(old(hwheelAcc) + dx)
      ensures wheel as real + wheelAcc == old(wheelAcc) + -dy && -0.5 <= wheelAcc <= 0.5
      ensures hwheel as real + hwheelAcc == old(hwheelAcc) + dx && -0.5 <= hwheelAcc <= 0.5
    {
      wheel := TakeDetents(-dy, true);
      hwheel := TakeDetents(dx, false);
      EmitScroll(wheel, hwheel);
    }

    method EmitScroll(wheel: int, hwheel: int)
      modifies this`log
      ensures log == old(log) + ((if wheel != 0 then [Rel(REL_WHEEL, wheel)] else []) + (if hwheel != 0 then [Rel(REL_HWHEEL, hwheel)] else []) + [Syn])
    {
      if wheel != 0 {
        Emit(Rel(REL_WHEEL, wheel));
      }
      if hwheel != 0 {
        Emit(Rel(REL_HWHEEL, hwheel));
      }
      Emit(Syn);
    }

    /** `detents` on one of the two accumulators. */
    method TakeDetents(delta: real, vertical: bool) returns (steps: int)
      modifies this`wheelAcc, this`hwheelAcc
      ensures steps == Round((if vertical then old(wheelAcc) else old(hwheelAcc)) + delta)
      ensures vertical ==> hwheelAcc == old(hwheelAcc) && steps as real + wheelAcc == old(wheelAcc) + delta && -0.5 <= wheelAcc <= 0.5
      ensures !vertical ==> wheelAcc == old(wheelAcc) && steps as real + hwheelAcc == old(hwheelAcc) + delta && -0.5 <= hwheelAcc <= 0.5
    {
      if vertical {
        DetentsConserve(delta, wheelAcc);
        steps := Round(wheelAcc + delta);
        wheelAcc := wheelAcc + delta - steps as real;
      } else {
        DetentsConserve(delta, hwheelAcc);
        steps := Round(hwheelAcc + delta);
        hwheelAcc := hwheelAcc + delta - steps as real;
      }
    }

    /** Appending events that move no wheel keeps the balance. */
    twostate lemma KeysKeepValid(es: seq<Event>)
      requires old(Valid()) && log == old(log) + es
      requires wheelAcc == old(wheelAcc) && hwheelAcc == old(hwheelAcc) && asked == old(asked)
      requires forall i :: 0 <= i < |es| ==> !es[i].Rel?
      ensures Valid()
    {
      MovedConcat(old(log), es, REL_WHEEL);
      MovedConcat(old(log), es, REL_HWHEEL);
      KeysDoNotMove(es, REL_WHEEL);
      KeysDoNotMove(es, REL_HWHEEL);
    }

    /** `emit_key`: one press or release, shift wrapped around a shifted key. */
    method EmitKey(b: KeyBinding, down: bool)
      requires Valid()
      modifies this`log
      ensures Valid() && log == old(log) + ((if down then PressOf(b) else ReleaseOf(b)) + [Syn])
    {
      if b.shifted {
        if down {
          Emit(Key(KEY_LEFTSHIFT, 1));
          Emit(Key(b.code, 1));
        } else {
          Emit(Key(b.code, 0));
          Emit(Key(KEY_LEFTSHIFT, 0));
        }
      } else {
        Emit(Key(b.code, if down then 1 else 0));
      }
      Emit(Syn);
      KeysKeepValid((if down then PressOf(b) else ReleaseOf(b)) + [Syn]);
    }

    /** `type_text`: every character is bound before anything is emitted, so a character without a
        binding emits nothing; otherwise exactly the text's strokes are, and the desktop, if no key was
        held, has the text appended and no key held. */
    method TypeText(text: string) returns (r: Result<(), char>)
      requires Valid()
      modifies this`log
      ensures Valid() && (r.Ok? <==> Typeable(text))
      ensures r.Ok? ==> log == old(log) + (Strokes(BindingsOf(text)) + [Syn])
      ensures r.Ok? && old(Screen()).held == {} ==> Screen() == Keyboard({}, old(Screen()).text + AsTyped(text))
      ensures r.Err? ==> log == old(log) && r.error in text && !Bindable(r.error)
    {
      var bound := BindAll(text);
      if bound.Err? {
        return Err(bound.error);
      }
      EmitAll(bound.value);
      Emit(Syn);
      StrokesAreKeys(bound.value);
      KeysKeepValid(Strokes(bound.value) + [Syn]);
      LogTypes(old(log), text);
      return Ok(());
    }

    static method BindAll(text: string) returns (r: Result<seq<KeyBinding>, char>)
      ensures r.Ok? <==> Typeable(text)
      ensures r.Ok? ==> r.value == BindingsOf(text)
      ensures r.Err? ==> r.error in text && !Bindable(r.error)
    {
      var bindings: seq<KeyBinding> := [];
      for i := 0 to |text|
        invariant |bindings| == i && forall j :: 0 <= j < i ==> Bindable(text[j]) && bindings[j] == CharBinding(text[j]).value
      {
        if !Bindable(text[i]) {
          return Err(text[i]);
        }
        bindings := bindings + [CharBinding(text[i]).value];
      }
      return Ok(bindings);
    }

    method EmitAll(bindings: seq<KeyBinding>)
      modifies this`log
      ensures log == old(log) + Strokes(bindings)
    {
      for i := 0 to |bindings|
        invariant log == old(log) + Strokes(bindings[..i])
      {
        assert bindings[..i + 1][..i] == bindings[..i];
        EmitStroke(bindings[i]);
      }
      assert bindings[..|bindings|] == bindings;
    }

    method EmitStroke(b: KeyBinding)
      modifies this`log
      ensures log == old(log) + (PressOf(b) + ReleaseOf(b))
    {
      if b.shifted {
        Emit(Key(KEY_LEFTSHIFT, 1));
        Emit(Key(b.code, 1));
        Emit(Key(b.code, 0));
        Emit(Key(KEY_LEFTSHIFT, 0));
      } else {
        Emit(Key(b.code, 1));
        Emit(Key(b.code, 0));
      }
    }
  }
}
