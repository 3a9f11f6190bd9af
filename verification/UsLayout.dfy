/**
 What the decoder's tables type: the US layout, stated by alphabet, digits and the rows of the keyboard rather than key by key.
 */
module UsLayout {
  import opened Wrappers
  import opened Keyboard

  /** The letter keys, in alphabetical order. */
  function Letter(i: nat): KeyCode {
    match i
    case 0 => A case 1 => B case 2 => C case 3 => D case 4 => E case 5 => F case 6 => G case 7 => H case 8 => I
    case 9 => J case 10 => K case 11 => L case 12 => M case 13 => N case 14 => O case 15 => P case 16 => Q case 17 => R
    case 18 => S case 19 => T case 20 => U case 21 => V case 22 => W case 23 => X case 24 => Y case 25 => Z
    case _ => NoKey
  }

  /** The digit keys above the letters. */
  function Digit(i: nat): KeyCode {
    match i
    case 0 => Num0 case 1 => Num1 case 2 => Num2 case 3 => Num3 case 4 => Num4
    case 5 => Num5 case 6 => Num6 case 7 => Num7 case 8 => Num8 case 9 => Num9
    case _ => NoKey
  }

  /** The digit keys of the keypad. */
  function PadDigit(i: nat): KeyCode {
    match i
    case 0 => Keypad0 case 1 => Keypad1 case 2 => Keypad2 case 3 => Keypad3 case 4 => Keypad4
    case 5 => Keypad5 case 6 => Keypad6 case 7 => Keypad7 case 8 => Keypad8 case 9 => Keypad9
    case _ => NoKey
  }

  /** The main-block key that types a character without shift. */
  function KeyOf(c: char): KeyCode {
    if 'a' <= c <= 'z' then Letter(c as int - 'a' as int)
    else if '0' <= c <= '9' then Digit(c as int - '0' as int)
    else match c
      case '`' => Backquote case '-' => Minus case '=' => Equal case '[' => BracketLeft case ']' => BracketRight
      case '\\' => Backslash case ';' => Semicolon case '\'' => Quote case ',' => Comma case '.' => Period case '/' => Slash
      case ' ' => Space case '\n' => Enter case '\t' => Tab case '\U{08}' => Backspace case '\U{1B}' => Escape
      case _ => NoKey
  }

  predicate OnKeypad(k: KeyCode) {
    LowPadKey(k) || HighPadKey(k) || PadSymbol(k)
  }

  lemma LetterChars(i: nat)
    requires i < 26
    ensures CharFor(Letter(i), false) == Some(('a' as int + i) as char)
    ensures CharFor(Letter(i), true) == Some(('a' as int + i - 32) as char)
  {
  }

  lemma DigitChars(d: nat)
    requires d < 10
    ensures CharFor(Digit(d), false) == Some(('0' as int + d) as char) && CharFor(Digit(d), true) == Some(")!@#$%^&*("[d])
  {
  }

  lemma PadDigitChars(d: nat)
    requires d < 10
    ensures CharFor(PadDigit(d), false) == CharFor(PadDigit(d), true) == Some(('0' as int + d) as char)
  {
    hide CharFor, PadDigit;
    if d < 5 {
      LowPadDigitChars(d);
    } else {
      HighPadDigitChars(d);
    }
  }

  lemma LowPadDigitChars(d: nat)
    requires d < 5
    ensures CharFor(PadDigit(d), false) == CharFor(PadDigit(d), true) == Some(('0' as int + d) as char)
  {
  }

  lemma HighPadDigitChars(d: nat)
    requires 5 <= d < 10
    ensures CharFor(PadDigit(d), false) == CharFor(PadDigit(d), true) == Some(('0' as int + d) as char)
  {
  }

  /** The key that types `c` without shift does. */
  lemma KeyTypes(c: char)
    requires !KeyOf(c).NoKey?
    ensures CharFor(KeyOf(c), false) == Some(c)
  {
    hide CharFor;
    if 'a' <= c <= 'z' {
      LetterChars(c as int - 'a' as int);
    } else if '0' <= c <= '9' {
      DigitChars(c as int - '0' as int);
    } else {
      SymbolTypes(c);
    }
  }

  lemma SymbolTypes(c: char)
    requires !KeyOf(c).NoKey? && !('a' <= c <= 'z') && !('0' <= c <= '9')
    ensures CharFor(KeyOf(c), false) == Some(c)
  {
  }

  function LetterNumber(k: KeyCode): nat {
    match k
    case A => 0 case B => 1 case C => 2 case D => 3 case E => 4 case F => 5 case G => 6 case H => 7 case I => 8
    case J => 9 case K => 10 case L => 11 case M => 12 case N => 13 case O => 14 case P => 15 case Q => 16 case R => 17
    case S => 18 case T => 19 case U => 20 case V => 21 case W => 22 case X => 23 case Y => 24 case Z => 25
    case _ => 26
  }

  lemma LetterNumbered(k: KeyCode)
    ensures LetterNumber(k) <= 26 && (LetterNumber(k) < 26 ==> Letter(LetterNumber(k)) == k)
  {
    hide Letter;
    if LetterNumber(k) < 13 {
      EarlyLetter(k);
    } else if LetterNumber(k) < 26 {
      LateLetter(k);
    }
  }

  lemma EarlyLetter(k: KeyCode)
    requires LetterNumber(k) < 13
    ensures Letter(LetterNumber(k)) == k
  {
  }

  lemma LateLetter(k: KeyCode)
    requires 13 <= LetterNumber(k) < 26
    ensures Letter(LetterNumber(k)) == k
  {
  }

  predicate IsDigit(k: KeyCode) {
    || k.Num0? || k.Num1? || k.Num2? || k.Num3? || k.Num4? || k.Num5? || k.Num6? || k.Num7? || k.Num8? || k.Num9?
  }

  lemma LetterTypedBy(k: KeyCode)
    requires LetterNumber(k) < 26
    ensures CharFor(k, false).Some? && KeyOf(CharFor(k, false).value) == k
  {
    hide CharFor, Letter, LetterNumber;
    LetterNumbered(k);
    LetterChars(LetterNumber(k));
  }

  lemma DigitTypedBy(k: KeyCode)
    requires IsDigit(k)
    ensures CharFor(k, false).Some? && KeyOf(CharFor(k, false).value) == k
  {
  }

  lemma OtherTypedBy(k: KeyCode)
    requires LetterNumber(k) == 26 && !IsDigit(k) && !OnKeypad(k) && CharFor(k, false).Some?
    ensures KeyOf(CharFor(k, false).value) == k
  {
    hide Letter, Digit;
  }

  lemma TypedBy(k: KeyCode, c: char)
    requires CharFor(k, false) == Some(c) && !OnKeypad(k)
    ensures KeyOf(c) == k
  {
    hide CharFor, OnKeypad, KeyOf, LetterNumber, IsDigit;
    LetterNumbered(k);
    if LetterNumber(k) < 26 {
      LetterTypedBy(k);
    } else if IsDigit(k) {
      DigitTypedBy(k);
    } else {
      OtherTypedBy(k);
    }
  }

  predicate LowPadKey(k: KeyCode) {
    k.Keypad0? || k.Keypad1? || k.Keypad2? || k.Keypad3? || k.Keypad4?
  }

  predicate HighPadKey(k: KeyCode) {
    k.Keypad5? || k.Keypad6? || k.Keypad7? || k.Keypad8? || k.Keypad9?
  }

  predicate PadSymbol(k: KeyCode) {
    k.KeypadSlash? || k.KeypadAsterisk? || k.KeypadMinus? || k.KeypadPlus? || k.KeypadEnter? || k.KeypadDot?
  }

  /** Keypad keys ignore shift. */
  lemma KeypadIgnoresShift(k: KeyCode)
    requires OnKeypad(k)
    ensures CharFor(k, true) == CharFor(k, false)
  {
    hide CharFor, LowPadKey, HighPadKey, PadSymbol;
    if LowPadKey(k) {
      LowPadIgnoresShift(k);
    } else if HighPadKey(k) {
      HighPadIgnoresShift(k);
    } else {
      PadSymbolIgnoresShift(k);
    }
  }

  lemma LowPadIgnoresShift(k: KeyCode)
    requires LowPadKey(k)
    ensures CharFor(k, true) == CharFor(k, false)
  {
  }

  lemma HighPadIgnoresShift(k: KeyCode)
    requires HighPadKey(k)
    ensures CharFor(k, true) == CharFor(k, false)
  {
  }

  lemma PadSymbolIgnoresShift(k: KeyCode)
    requires PadSymbol(k)
    ensures CharFor(k, true) == CharFor(k, false)
  {
  }

  /** Off the keypad, two keys that type the same character without shift are the same key. */
  lemma DistinctKeys(j: KeyCode, k: KeyCode)
    requires !OnKeypad(j) && !OnKeypad(k) && CharFor(j, false).Some? && CharFor(j, false) == CharFor(k, false)
    ensures j == k
  {
    hide CharFor, OnKeypad, KeyOf;
    TypedBy(j, CharFor(j, false).value);
    TypedBy(k, CharFor(j, false).value);
  }

  // Shift.

  /** What shift makes of a character typed without it. */
  function Shifted(c: char): char {
    if 'a' <= c <= 'z' then (c as int - 32) as char
    else if '0' <= c <= '9' then ")!@#$%^&*("[c as int - '0' as int]
    else match c
      case '`' => '~' case '-' => '_' case '=' => '+' case '[' => '{' case ']' => '}' case '\\' => '|'
      case ';' => ':' case '\'' => '"' case ',' => '<' case '.' => '>' case '/' => '?'
      case _ => c
  }

  lemma KeyTypesShifted(c: char)
    requires !KeyOf(c).NoKey?
    ensures CharFor(KeyOf(c), true) == Some(Shifted(c))
  {
    hide CharFor;
    if 'a' <= c <= 'z' {
      LetterChars(c as int - 'a' as int);
    } else if '0' <= c <= '9' {
      DigitChars(c as int - '0' as int);
    } else {
      SymbolTypesShifted(c);
    }
  }

  lemma SymbolTypesShifted(c: char)
    requires !KeyOf(c).NoKey? && !('a' <= c <= 'z') && !('0' <= c <= '9')
    ensures CharFor(KeyOf(c), true) == Some(Shifted(c))
  {
    hide Letter, Digit;
  }

  // The rows of the keyboard, by scancode.

  const NUMBER_ROW := "1234567890-="
  const TOP_ROW := "qwertyuiop[]"
  const HOME_ROW := "asdfghjkl;'`"
  const BOTTOM_ROW := "\\zxcvbnm,./"

  lemma NumberRow(i: nat)
    requires i < |NUMBER_ROW|
    ensures BaseCode(0x02 + i) == KeyOf(NUMBER_ROW[i])
  {
    if i < 6 {
      assert i == 0 || i == 1 || i == 2 || i == 3 || i == 4 || i == 5;
    } else {
      assert i == 6 || i == 7 || i == 8 || i == 9 || i == 10 || i == 11;
    }
  }

  lemma TopRow(i: nat)
    requires i < |TOP_ROW|
    ensures BaseCode(0x10 + i) == KeyOf(TOP_ROW[i])
  {
    if i < 6 {
      assert i == 0 || i == 1 || i == 2 || i == 3 || i == 4 || i == 5;
    } else {
      assert i == 6 || i == 7 || i == 8 || i == 9 || i == 10 || i == 11;
    }
  }

  lemma HomeRow(i: nat)
    requires i < |HOME_ROW|
    ensures BaseCode(0x1E + i) == KeyOf(HOME_ROW[i])
  {
    if i < 6 {
      assert i == 0 || i == 1 || i == 2 || i == 3 || i == 4 || i == 5;
    } else {
      assert i == 6 || i == 7 || i == 8 || i == 9 || i == 10 || i == 11;
    }
  }

  lemma BottomRow(i: nat)
    requires i < |BOTTOM_ROW|
    ensures BaseCode(0x2B + i) == KeyOf(BOTTOM_ROW[i])
  {
    if i < 5 {
      assert i == 0 || i == 1 || i == 2 || i == 3 || i == 4;
    } else {
      assert i == 5 || i == 6 || i == 7 || i == 8 || i == 9 || i == 10;
    }
  }

  lemma EditKeys()
    ensures BaseCode(0x39) == KeyOf(' ') && BaseCode(0x1C) == KeyOf('\n') && BaseCode(0x0F) == KeyOf('\t')
    ensures BaseCode(0x0E) == KeyOf('\U{08}') && BaseCode(0x01) == KeyOf('\U{1B}')
  {
  }

  // Typing a text.

  /** The first place of a character in a row. */
  function Find(row: string, c: char): (i: nat)
    ensures i < |row| ==> row[i] == c
    ensures i >= |row| ==> c !in row
  {
    if row == [] then 0 else if row[0] == c then 0 else 1 + Find(row[1..], c)
  }

  /** The scancode of the key that types `c` without shift. */
  function ScanOf(c: char): nat {
    if c in NUMBER_ROW then 0x02 + Find(NUMBER_ROW, c)
    else if c in TOP_ROW then 0x10 + Find(TOP_ROW, c)
    else if c in HOME_ROW then 0x1E + Find(HOME_ROW, c)
    else if c in BOTTOM_ROW then 0x2B + Find(BOTTOM_ROW, c)
    else match c case ' ' => 0x39 case '\n' => 0x1C case '\t' => 0x0F case '\U{08}' => 0x0E case _ => 0x01
  }

  predicate Plain(c: char) {
    || c in NUMBER_ROW || c in TOP_ROW || c in HOME_ROW || c in BOTTOM_ROW
    || c == ' ' || c == '\n' || c == '\t' || c == '\U{08}' || c == '\U{1B}'
  }

  /** The rows hold the scancode of every character they show. */
  lemma ScanFinds(c: char)
    requires Plain(c)
    ensures ScanOf(c) < 0x60 && BaseCode(ScanOf(c)) == KeyOf(c) && !KeyOf(c).NoKey?
  {
    hide BaseCode, KeyOf, Find;
    RowsPlain(c);
    EditKeys();
    if c in NUMBER_ROW {
      NumberRow(Find(NUMBER_ROW, c));
    } else if c in TOP_ROW {
      TopRow(Find(TOP_ROW, c));
    } else if c in HOME_ROW {
      HomeRow(Find(HOME_ROW, c));
    } else if c in BOTTOM_ROW {
      BottomRow(Find(BOTTOM_ROW, c));
    }
  }

  /** Exactly the characters with a key are on the rows. */
  lemma RowsPlain(c: char)
    ensures Plain(c) <==> !KeyOf(c).NoKey?
  {
    hide Letter, Digit, Plain;
    if 'a' <= c <= 'z' {
      LetterOnRow(c);
      LetterIsKey(c as int - 'a' as int);
    } else {
      SymbolOnRow(c);
    }
  }

  lemma LetterIsKey(i: nat)
    ensures i < 26 ==> !Letter(i).NoKey?
    ensures i < 10 ==> !Digit(i).NoKey?
  {
  }

  lemma LetterOnRow(c: char)
    requires 'a' <= c <= 'z'
    ensures Plain(c)
  {
    assert c in TOP_ROW || c in HOME_ROW || c in BOTTOM_ROW;
  }

  lemma SymbolOnRow(c: char)
    requires !('a' <= c <= 'z')
    ensures Plain(c) <==> !KeyOf(c).NoKey?
  {
    hide Letter, Digit;
    if '0' <= c <= '9' {
      LetterIsKey(c as int - '0' as int);
    }
  }

  /** The character to shift to get `c`. */
  function Unshifted(c: char): char {
    if 'A' <= c <= 'Z' then (c as int + 32) as char
    else match c
      case ')' => '0' case '!' => '1' case '@' => '2' case '#' => '3' case '$' => '4' case '%' => '5' case '^' => '6'
      case '&' => '7' case '*' => '8' case '(' => '9' case '~' => '`' case '_' => '-' case '+' => '=' case '{' => '['
      case '}' => ']' case '|' => '\\' case ':' => ';' case '"' => '\'' case '<' => ',' case '>' => '.' case '?' => '/'
      case _ => c
  }

  /** Printable ASCII, and the characters of the editing keys. */
  predicate Typable(c: char) {
    ' ' <= c <= '~' || c == '\n' || c == '\t' || c == '\U{08}' || c == '\U{1B}'
  }

  lemma ShiftReaches(c: char)
    requires Typable(c) && !Plain(c)
    ensures Plain(Unshifted(c)) && Shifted(Unshifted(c)) == c
  {
    hide Plain, Letter, Digit;
    RowsPlain(c);
    RowsPlain(Unshifted(c));
    forall i: nat ensures (i < 26 ==> !Letter(i).NoKey?) && (i < 10 ==> !Digit(i).NoKey?) {
      LetterIsKey(i);
    }
  }

  /** A typist's bytes for one character: down and up, inside the left shift key where the character needs it. */
  function TypeChar(c: char, t: nat): seq<Scan>
    requires Typable(c)
  {
    if Plain(c) then
      ScanFinds(c);
      [Scan(ScanOf(c), t), Scan(ScanOf(c) + 0x80, t)]
    else
      ShiftReaches(c);
      ScanFinds(Unshifted(c));
      [Scan(0x2A, t), Scan(ScanOf(Unshifted(c)), t), Scan(ScanOf(Unshifted(c)) + 0x80, t), Scan(0xAA, t)]
  }

  ghost predicate TypableText(text: string) {
    forall c | c in text :: Typable(c)
  }

  function TypeText(text: string, t: nat): seq<Scan>
    requires TypableText(text)
  {
    if text == [] then [] else TypeChar(text[0], t) + TypeText(text[1..], t)
  }

  /** The characters of the key presses among some events. */
  function Delivered(evs: seq<KeyEvent>): string {
    if evs == [] then []
    else (if evs[0].pressed && evs[0].ch.Some? then [evs[0].ch.value] else []) + Delivered(evs[1..])
  }

  lemma {:induction false} DeliveredConcat(a: seq<KeyEvent>, b: seq<KeyEvent>)
    ensures Delivered(a + b) == Delivered(a) + Delivered(b)
  {
    if a == [] {
      assert a + b == b;
    } else {
      assert (a + b)[1..] == a[1..] + b;
      DeliveredConcat(a[1..], b);
    }
  }

  lemma NoModifier(c: char)
    ensures !IsShift(KeyOf(c)) && !IsCtrl(KeyOf(c)) && !IsAlt(KeyOf(c))
  {
    hide Letter, Digit;
    if 'a' <= c <= 'z' {
      LetterNotModifier(c as int - 'a' as int);
    } else if '0' <= c <= '9' {
      LetterNotModifier(c as int - '0' as int);
    }
  }

  lemma LetterNotModifier(i: nat)
    ensures !IsShift(Letter(i)) && !IsCtrl(Letter(i)) && !IsAlt(Letter(i))
    ensures !IsShift(Digit(i)) && !IsCtrl(Digit(i)) && !IsAlt(Digit(i))
  {
  }

  /** One byte of a plain character's key. */
  lemma KeyByte(st: Decoder, c: char, pressed: bool, t: nat)
    requires PrefixFree(st) && Plain(c)
    ensures ScanOf(c) < 0x60
    ensures Decode(st, WireByte(ScanOf(c), pressed), t) ==
              (st.(events := st.events + 1),
               Some(KeyEvent(KeyOf(c), pressed, st.shift, st.ctrl, st.alt, t, Some(if st.shift then Shifted(c) else c))))
  {
    hide Plain, ScanOf, BaseCode, KeyOf, IsShift, IsCtrl, IsAlt, CharFor, Shifted, Decode, WireByte;
    ScanFinds(c);
    DecodeBase(st, ScanOf(c), pressed, t);
    NoModifier(c);
    KeyTypes(c);
    KeyTypesShifted(c);
  }

  /** One byte of the left shift key. */
  lemma ShiftByte(st: Decoder, pressed: bool, t: nat)
    requires PrefixFree(st)
    ensures Decode(st, if pressed then 0x2A else 0xAA, t) ==
              (st.(shift := pressed, events := st.events + 1),
               Some(KeyEvent(ShiftLeft, pressed, pressed, st.ctrl, st.alt, t, None)))
  {
    hide Decode, BaseCode, CharFor;
    ModifierCodes();
    ShiftSilent(pressed);
    DecodeBase(st, 0x2A, pressed, t);
  }

  lemma ShiftSilent(s: bool)
    ensures CharFor(ShiftLeft, s) == None
  {
  }

  /** The modifier keys, by scancode. */
  lemma ModifierCodes()
    ensures BaseCode(0x2A) == ShiftLeft && BaseCode(0x36) == ShiftRight && BaseCode(0x1D) == ControlLeft && BaseCode(0x38) == AltLeft
  {
  }

  lemma ExtendedModifierCodes()
    ensures LookupE0(0x1D) == ControlRight && LookupE0(0x38) == AltRight
  {
    hide LookupE0;
    MapIsLookup(1);
    MapIsLookup(4);
  }

  lemma Two(st: Decoder, a: Scan, b: Scan)
    ensures var (st1, e1) := Decode(st, a.byte, a.tick);
            var (st2, e2) := Decode(st1, b.byte, b.tick);
            && DecodeState(st, [a, b]) == st2
            && DecodeEvents(st, [a, b]) == (if e1.Some? then [e1.value] else []) + (if e2.Some? then [e2.value] else [])
  {
    hide Decode;
    assert [a, b] == [a] + [b];
    DecodeConcat(st, [a], [b]);
    DecodeOne(st, a);
    DecodeOne(Decode(st, a.byte, a.tick).0, b);
  }

  /** A key going down and up delivers its character once. */
  lemma KeyDelivers(st: Decoder, c: char, t: nat)
    requires PrefixFree(st) && Plain(c)
    ensures ScanOf(c) < 0x60
    ensures var scans := [Scan(ScanOf(c), t), Scan(ScanOf(c) + 0x80, t)];
            && DecodeState(st, scans) == st.(events := st.events + 2)
            && Delivered(DecodeEvents(st, scans)) == [if st.shift then Shifted(c) else c]
  {
    hide Plain, ScanOf, KeyOf, Shifted, Decode, DecodeState, DecodeEvents;
    KeyByte(st, c, true, t);
    KeyByte(st.(events := st.events + 1), c, false, t);
    Two(st, Scan(ScanOf(c), t), Scan(ScanOf(c) + 0x80, t));
    var evs := DecodeEvents(st, [Scan(ScanOf(c), t), Scan(ScanOf(c) + 0x80, t)]);
    DeliveredDown(evs[0], evs[1]);
  }

  lemma DeliveredDown(down: KeyEvent, up: KeyEvent)
    requires down.pressed && down.ch.Some? && !up.pressed
    ensures Delivered([down] + [up]) == [down.ch.value]
  {
    DeliveredConcat([down], [up]);
    assert [down][1..] == [] && [up][1..] == [];
  }

  /** So does any typable character, and the flags are then as before. */
  lemma CharDelivers(st: Decoder, c: char, t: nat)
    requires PrefixFree(st) && !st.shift && Typable(c)
    ensures DecodeState(st, TypeChar(c, t)) == st.(events := st.events + |TypeChar(c, t)|)
    ensures Delivered(DecodeEvents(st, TypeChar(c, t))) == [c]
  {
    hide Plain, ScanOf, KeyOf, Shifted, Unshifted, Typable, Decode, DecodeState, DecodeEvents;
    if Plain(c) {
      KeyDelivers(st, c, t);
    } else {
      ShiftReaches(c);
      ScanFinds(Unshifted(c));
      var d := Unshifted(c);
      var down, key, up := [Scan(0x2A, t)], [Scan(ScanOf(d), t), Scan(ScanOf(d) + 0x80, t)], [Scan(0xAA, t)];
      assert TypeChar(c, t) == down + (key + up);
      Wrapped(st, d, down, key, up, t);
    }
  }

  lemma Wrapped(st: Decoder, d: char, down: seq<Scan>, key: seq<Scan>, up: seq<Scan>, t: nat)
    requires PrefixFree(st) && !st.shift && Plain(d) && ScanOf(d) < 0x60
    requires down == [Scan(0x2A, t)] && key == [Scan(ScanOf(d), t), Scan(ScanOf(d) + 0x80, t)] && up == [Scan(0xAA, t)]
    ensures DecodeState(st, down + (key + up)) == st.(events := st.events + 4)
    ensures Delivered(DecodeEvents(st, down + (key + up))) == [Shifted(d)]
  {
    hide Plain, ScanOf, KeyOf, Shifted, Decode, DecodeState, DecodeEvents;
    var st1 := st.(shift := true, events := st.events + 1);
    var st2 := st1.(events := st1.events + 2);
    ShiftByte(st, true, t);
    DecodeOne(st, down[0]);
    KeyDelivers(st1, d, t);
    ShiftByte(st2, false, t);
    DecodeOne(st2, up[0]);
    DecodeConcat(st, down, key + up);
    DecodeConcat(st1, key, up);
    DeliveredConcat(DecodeEvents(st, down), DecodeEvents(st1, key + up));
    DeliveredConcat(DecodeEvents(st1, key), DecodeEvents(st2, up));
  }

  /**
   Typing is a round trip: every text of printable ASCII and editing characters, typed with the left shift key where needed,
   comes back from the decoder character by character, and no modifier is left behind.
   */
  lemma {:induction false} TypedText(st: Decoder, text: string, t: nat)
    requires PrefixFree(st) && !st.shift && TypableText(text)
    ensures Delivered(DecodeEvents(st, TypeText(text, t))) == text
    ensures DecodeState(st, TypeText(text, t)) == st.(events := st.events + |TypeText(text, t)|)
    decreases |text|
  {
    hide Typable, TypeChar, Decode;
    if text != [] {
      var st1 := st.(events := st.events + |TypeChar(text[0], t)|);
      CharDelivers(st, text[0], t);
      TypedText(st1, text[1..], t);
      DecodeConcat(st, TypeChar(text[0], t), TypeText(text[1..], t));
      DeliveredConcat(DecodeEvents(st, TypeChar(text[0], t)), DecodeEvents(st1, TypeText(text[1..], t)));
    }
  }

  /** Each of the six modifier keys sets its own flag when it goes down and clears it when it comes up; nothing else changes. */
  lemma ModifierBytes(st: Decoder, pressed: bool, t: nat)
    requires PrefixFree(st)
    ensures var up, n, ext := (if pressed then 0 else 0x80), st.events + 1, st.(extended := true);
            && Decode(st, 0x2A + up, t).0 == Decode(st, 0x36 + up, t).0 == st.(shift := pressed, events := n)
            && Decode(st, 0x1D + up, t).0 == Decode(ext, 0x1D + up, t).0 == st.(ctrl := pressed, events := n)
            && Decode(st, 0x38 + up, t).0 == Decode(ext, 0x38 + up, t).0 == st.(alt := pressed, events := n)
  {
    hide Decode, BaseCode, LookupE0, CharFor, Modify;
    ModifierCodes();
    ExtendedModifierCodes();
    FlagKeys(st, pressed);
    DecodeBase(st, 0x2A, pressed, t);
    DecodeBase(st, 0x36, pressed, t);
    DecodeBase(st, 0x1D, pressed, t);
    DecodeBase(st, 0x38, pressed, t);
    DecodeExt(st, 0x1D, pressed, t);
    DecodeExt(st, 0x38, pressed, t);
  }

  lemma FlagKeys(st: Decoder, pressed: bool)
    ensures Modify(st, ShiftLeft, pressed) == Modify(st, ShiftRight, pressed) == st.(shift := pressed)
    ensures Modify(st, ControlLeft, pressed) == Modify(st, ControlRight, pressed) == st.(ctrl := pressed)
    ensures Modify(st, AltLeft, pressed) == Modify(st, AltRight, pressed) == st.(alt := pressed)
  {
  }
}
