/** What the keys of drivers/keyboard/keyboard.c mean: when the shift state is on, which events type a
    character, and which character each key types. */
module KeyboardMeaning {
  import opened Keyboard

  // ---- shift ----

  /** Event i is the last one of a shift key. */
  predicate LastShift(es: seq<Event>, i: int) {
    0 <= i < |es| && IsShift(es[i]) && forall j :: i < j < |es| ==> !IsShift(es[j])
  }

  /** Shift is on iff the last event of a shift key is no release. */
  lemma {:induction false} ShiftIff(es: seq<Event>)
    ensures FoldShift(es) <==> exists i :: LastShift(es, i) && es[i].value != 0
    decreases |es|
  {
    if es != [] {
      var n := |es| - 1;
      var before := es[..n];
      ShiftIff(before);
      if IsShift(es[n]) {
        assert LastShift(es, n);
        forall i | LastShift(es, i) ensures i == n {
          if i < n { assert false; }
        }
      } else {
        forall i ensures LastShift(es, i) <==> LastShift(before, i) {
          LastShiftOf(es, n, i);
        }
        assert forall i :: LastShift(before, i) ==> es[i] == before[i];
      }
    }
  }

  lemma {:induction false} LastShiftOf(es: seq<Event>, n: nat, i: int)
    requires n == |es| - 1 && !IsShift(es[n])
    ensures LastShift(es, i) <==> LastShift(es[..n], i)
  {
    if LastShift(es[..n], i) {
      forall j | i < j < |es| ensures !IsShift(es[j]) {
        if j < n { assert es[..n][j] == es[j]; }
      }
    }
  }

  /** The key with this code is held down: its last event is no release. */
  predicate Held(es: seq<Event>, code: nat) {
    es != [] &&
    if es[|es| - 1].kind == EV_KEY && es[|es| - 1].code == code then es[|es| - 1].value != 0
    else Held(es[..|es| - 1], code)
  }

  predicate ShiftHeld(es: seq<Event>) {
    Held(es, KEY_LEFTSHIFT) || Held(es, KEY_RIGHTSHIFT)
  }

  /** The last event of a shift key released one while the other is still down. */
  ghost predicate OtherStillHeld(es: seq<Event>) {
    ShiftHeld(es) && exists i :: LastShift(es, i) && es[i].value == 0
  }

  lemma {:induction false} ShiftNeedsKey(es: seq<Event>)
    ensures FoldShift(es) ==> ShiftHeld(es)
    ensures ShiftHeld(es) ==> exists i :: LastShift(es, i)
    decreases |es|
  {
    if es != [] {
      var n := |es| - 1;
      ShiftNeedsKey(es[..n]);
      if IsShift(es[n]) {
        assert LastShift(es, n);
      } else if ShiftHeld(es) {
        var i :| LastShift(es[..n], i);
        LastShiftOf(es, n, i);
      }
    }
  }

  /** The shift state is whether a shift key is held, except after one of two held keys was released. */
  lemma {:induction false} ShiftIsHeldIff(es: seq<Event>)
    ensures FoldShift(es) == ShiftHeld(es) <==> !OtherStillHeld(es)
  {
    ShiftIff(es);
    ShiftNeedsKey(es);
    forall i, j | LastShift(es, i) && LastShift(es, j) ensures i == j {
      if i < j { assert false; }
      if j < i { assert false; }
    }
  }

  /** Both shift keys pressed, the right one released: shift is off although the left one is held. */
  lemma {:induction false} ShiftLostWitness()
    ensures var es := [Event(EV_KEY, KEY_LEFTSHIFT, 1), Event(EV_KEY, KEY_RIGHTSHIFT, 1),
                       Event(EV_KEY, KEY_RIGHTSHIFT, 0)];
      ShiftHeld(es) && !FoldShift(es)
  {
    var a, b, c := Event(EV_KEY, KEY_LEFTSHIFT, 1), Event(EV_KEY, KEY_RIGHTSHIFT, 1), Event(EV_KEY, KEY_RIGHTSHIFT, 0);
    assert [a, b, c][..2] == [a, b] && [a, b][..1] == [a];
    assert Held([a], KEY_LEFTSHIFT) && Held([a, b], KEY_LEFTSHIFT) && Held([a, b, c], KEY_LEFTSHIFT);
  }

  // ---- typing ----

  /** A character is typed by pressing or repeating a key that has one, and by nothing else. */
  lemma TypedIff(shift: bool, e: Event)
    ensures Typed(shift, e) != 0 <==>
      && e.kind == EV_KEY && e.value != 0 && e.code != KEY_LEFTSHIFT && e.code != KEY_RIGHTSHIFT
      && Ascii(e.code, shift) != 0
    ensures Typed(shift, e) != 0 ==> Typed(shift, e) == Ascii(e.code, shift)
  {
  }

  /** The stream types one character for each such event, by the shift state at that event. */
  lemma {:induction false} NextTyped(es: seq<Event>, e: Event)
    ensures FoldTyped(es + [e]) == FoldTyped(es) + (if Typed(FoldShift(es), e) == 0 then []
      else [Ascii(e.code, FoldShift(es))])
  {
    assert (es + [e])[..|es|] == es;
  }

  /** Shift, then a letter key: the letter in upper case. */
  lemma {:induction false} ShiftedLetter(es: seq<Event>, code: nat)
    requires 'a' as int <= Ascii(code, false) <= 'z' as int && code != KEY_LEFTSHIFT && code != KEY_RIGHTSHIFT
    ensures var press := es + [Event(EV_KEY, KEY_LEFTSHIFT, 1)];
      FoldTyped(press + [Event(EV_KEY, code, 1)]) == FoldTyped(es) + [Ascii(code, false) - 32]
    ensures var release := es + [Event(EV_KEY, KEY_LEFTSHIFT, 0)];
      FoldTyped(release + [Event(EV_KEY, code, 1)]) == FoldTyped(es) + [Ascii(code, false)]
  {
    var down, up, key := Event(EV_KEY, KEY_LEFTSHIFT, 1), Event(EV_KEY, KEY_LEFTSHIFT, 0), Event(EV_KEY, code, 1);
    Letters(code);
    assert (es + [down])[..|es|] == es && (es + [up])[..|es|] == es;
    NextTyped(es, down);
    NextTyped(es, up);
    NextTyped(es + [down], key);
    NextTyped(es + [up], key);
  }

  // ---- the keys ----

  /** Keys that type the same with and without shift: they are not in the tables. */
  predicate NamedKey(code: nat) {
    code in {KEY_ENTER, KEY_BACKSPACE, KEY_TAB, KEY_SPACE, 102, 103, 105, 106, 107, 108, 111}
  }

  /** A named key types one control character or a blank, with shift or without, and different ones
      type different characters. */
  lemma NamedKeys(code: nat, code': nat, shift: bool)
    requires NamedKey(code)
    ensures Ascii(code, shift) == Ascii(code, !shift) && 1 <= Ascii(code, shift) <= 32
    ensures NamedKey(code') && code' != code ==> Ascii(code', shift) != Ascii(code, shift)
    ensures Ascii(KEY_ENTER, shift) == '\n' as int && Ascii(KEY_TAB, shift) == '\t' as int
    ensures Ascii(KEY_SPACE, shift) == ' ' as int && Ascii(KEY_BACKSPACE, shift) == 8
    ensures Ascii(102, shift) == 0x01 && Ascii(105, shift) == 0x02 && Ascii(103, shift) == 0x03
    ensures Ascii(111, shift) == 0x04 && Ascii(107, shift) == 0x05 && Ascii(106, shift) == 0x06
    ensures Ascii(108, shift) == 0x0e
  {
  }

  /** The character that shift makes of another on the US layout. */
  function Shifted(c: char): char {
    if 'a' <= c <= 'z' then (c as int - 32) as char
    else if c == '1' then '!' else if c == '2' then '@' else if c == '3' then '#' else if c == '4' then '$'
    else if c == '5' then '%' else if c == '6' then '^' else if c == '7' then '&' else if c == '8' then '*'
    else if c == '9' then '(' else if c == '0' then ')' else if c == '-' then '_' else if c == '=' then '+'
    else if c == '[' then '{' else if c == ']' then '}' else if c == ';' then ':' else if c == '\'' then '"'
    else if c == '`' then '~' else if c == '\\' then '|' else if c == ',' then '<' else if c == '.' then '>'
    else if c == '/' then '?' else '\0'
  }

  /** The keycode of each character that is typed without shift, as the input event codes of the
      device number them; 0 for any other. */
  function CodeOf(c: char): nat {
    if '1' <= c <= '9' then c as int - '0' as int + 1
    else if c == '\'' then 40 else if c == ',' then 51 else if c == '-' then 12 else if c == '.' then 52
    else if c == '/' then 53 else if c == '0' then 11 else if c == ';' then 39 else if c == '=' then 13
    else if c == '[' then 26 else if c == '\\' then 43 else if c == ']' then 27 else if c == '`' then 41
    else if c == 'a' then 30 else if c == 'b' then 48 else if c == 'c' then 46 else if c == 'd' then 32
    else if c == 'e' then 18 else if c == 'f' then 33 else if c == 'g' then 34 else if c == 'h' then 35
    else if c == 'i' then 23 else if c == 'j' then 36 else if c == 'k' then 37 else if c == 'l' then 38
    else if c == 'm' then 50 else if c == 'n' then 49 else if c == 'o' then 24 else if c == 'p' then 25
    else if c == 'q' then 16 else if c == 'r' then 19 else if c == 's' then 31 else if c == 't' then 20
    else if c == 'u' then 22 else if c == 'v' then 47 else if c == 'w' then 17 else if c == 'x' then 45
    else if c == 'y' then 21 else if c == 'z' then 44 else 0
  }

  /** Every other key types a printable character and with shift the one that belongs to it, or nothing
      at all. */
  lemma {:induction false} ShiftedKeys(code: nat)
    requires !NamedKey(code)
    ensures Ascii(code, false) == 0 || 33 <= Ascii(code, false) <= 126
    ensures Ascii(code, false) < 128 && Ascii(code, true) == Shifted(Ascii(code, false) as char) as int
    ensures Ascii(code, false) != 0 ==> code == CodeOf(Ascii(code, false) as char)
  {
    if code < 7 {
      DigitsLeft(code);
    } else if code < 14 {
      DigitsRight(code);
    } else if code < 21 {
      UpperLeft(code);
    } else if code < 28 {
      UpperRight(code);
    } else if code < 35 {
      HomeLeft(code);
    } else if code < 42 {
      HomeRight(code);
    } else if code < 48 {
      LowerLeft(code);
    } else if code < TABLE_SIZE {
      LowerRight(code);
    }
  }

  predicate KeyOk(code: nat) {
    && code < TABLE_SIZE
    && (TableEntry(code, false) == '\0' || '!' <= TableEntry(code, false) <= '~')
    && TableEntry(code, true) == Shifted(TableEntry(code, false))
    && (TableEntry(code, false) != '\0' ==> CodeOf(TableEntry(code, false)) == code)
  }

  lemma {:induction false} DigitsLeft(code: nat)
    requires 0 <= code < 7
    ensures KeyOk(code)
  {
    assert KeyOk(0) && KeyOk(1) && KeyOk(2) && KeyOk(3) && KeyOk(4) && KeyOk(5) && KeyOk(6);
  }

  lemma {:induction false} DigitsRight(code: nat)
    requires 7 <= code < 14
    ensures KeyOk(code)
  {
    assert KeyOk(7) && KeyOk(8) && KeyOk(9) && KeyOk(10) && KeyOk(11) && KeyOk(12) && KeyOk(13);
  }

  lemma {:induction false} UpperLeft(code: nat)
    requires 14 <= code < 21
    ensures KeyOk(code)
  {
    assert KeyOk(14) && KeyOk(15) && KeyOk(16) && KeyOk(17) && KeyOk(18) && KeyOk(19) && KeyOk(20);
  }

  lemma {:induction false} UpperRight(code: nat)
    requires 21 <= code < 28
    ensures KeyOk(code)
  {
    assert KeyOk(21) && KeyOk(22) && KeyOk(23) && KeyOk(24) && KeyOk(25) && KeyOk(26) && KeyOk(27);
  }

  lemma {:induction false} HomeLeft(code: nat)
    requires 28 <= code < 35
    ensures KeyOk(code)
  {
    assert KeyOk(28) && KeyOk(29) && KeyOk(30) && KeyOk(31) && KeyOk(32) && KeyOk(33) && KeyOk(34);
  }

  lemma {:induction false} HomeRight(code: nat)
    requires 35 <= code < 42
    ensures KeyOk(code)
  {
    assert KeyOk(35) && KeyOk(36) && KeyOk(37) && KeyOk(38) && KeyOk(39) && KeyOk(40) && KeyOk(41);
  }

  lemma {:induction false} LowerLeft(code: nat)
    requires 42 <= code < 48
    ensures KeyOk(code)
  {
    assert KeyOk(42) && KeyOk(43) && KeyOk(44) && KeyOk(45) && KeyOk(46) && KeyOk(47);
  }

  lemma {:induction false} LowerRight(code: nat)
    requires 48 <= code < 54
    ensures KeyOk(code)
  {
    assert KeyOk(48) && KeyOk(49) && KeyOk(50) && KeyOk(51) && KeyOk(52) && KeyOk(53);
  }

  /** No two keys type the same character. */
  lemma {:induction false} KeysDiffer(code: nat, code': nat)
    requires code != code' && Ascii(code, false) != 0
    ensures Ascii(code', false) != Ascii(code, false)
  {
    if !NamedKey(code) { ShiftedKeys(code); }
    if !NamedKey(code') { ShiftedKeys(code'); }
    if NamedKey(code) && NamedKey(code') { NamedKeys(code, code', false); }
    if NamedKey(code) { NamedKeys(code, code, false); }
    if NamedKey(code') { NamedKeys(code', code', false); }
  }

  /** A letter key types its letter, with shift in upper case. */
  lemma {:induction false} Letters(code: nat)
    requires 'a' as int <= Ascii(code, false) <= 'z' as int
    ensures Ascii(code, true) == Ascii(code, false) - 32
  {
    if !NamedKey(code) { ShiftedKeys(code); }
  }

  /** The digits are in a row from 1 to 9 and 0. */
  lemma {:induction false} Digits(code: nat)
    requires 2 <= code <= 11
    ensures Ascii(code, false) == '0' as int + (code - 1) % 10
  {
  }
}
