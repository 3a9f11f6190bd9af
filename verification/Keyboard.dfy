/**
 The scancode decoder: prefix bytes, the two key tables, modifier state, and the drain loop that feeds
 decoded events to the main loop.
 */
module Keyboard {
  import opened Wrappers
  import opened BootData
  import Ring

  datatype KeyCode =
    | NoKey | Escape
    | F1 | F2 | F3 | F4 | F5 | F6 | F7 | F8 | F9 | F10 | F11 | F12
    | Backquote
    | Num1 | Num2 | Num3 | Num4 | Num5 | Num6 | Num7 | Num8 | Num9 | Num0
    | Minus | Equal | Backspace | Tab
    | Q | W | E | R | T | Y | U | I | O | P
    | BracketLeft | BracketRight | Backslash | CapsLock
    | A | S | D | F | G | H | J | K | L
    | Z | X | C | V | B | N | M
    | Semicolon | Quote | Enter
    | ShiftLeft | ShiftRight | ControlLeft | ControlRight | AltLeft | AltRight | SuperLeft | SuperRight
    | Space | PrintScreen | ScrollLock | Pause
    | Insert | Home | PageUp | Delete | End | PageDown
    | ArrowUp | ArrowLeft | ArrowDown | ArrowRight
    | NumLock
    | KeypadSlash | KeypadAsterisk | KeypadMinus | KeypadPlus | KeypadEnter | KeypadDot
    | Keypad0 | Keypad1 | Keypad2 | Keypad3 | Keypad4 | Keypad5 | Keypad6 | Keypad7 | Keypad8 | Keypad9
    | Comma | Period | Slash
    | Unknown(scancode: byte)

  datatype KeyEvent = KeyEvent(code: KeyCode, pressed: bool, shift: bool, ctrl: bool, alt: bool, tick: nat, ch: Option<char>)

  /** The base table up to Enter: the digit row and the first row of letters. */
  function UpperCode(idx: nat): KeyCode {
    match idx
    case 0x01 => Escape case 0x02 => Num1 case 0x03 => Num2 case 0x04 => Num3 case 0x05 => Num4 case 0x06 => Num5
    case 0x07 => Num6 case 0x08 => Num7 case 0x09 => Num8 case 0x0A => Num9 case 0x0B => Num0 case 0x0C => Minus
    case 0x0D => Equal case 0x0E => Backspace case 0x0F => Tab case 0x10 => Q case 0x11 => W case 0x12 => E
    case 0x13 => R case 0x14 => T case 0x15 => Y case 0x16 => U case 0x17 => I case 0x18 => O
    case 0x19 => P case 0x1A => BracketLeft case 0x1B => BracketRight case 0x1C => Enter
    case _ => NoKey
  }

  /** Its next part: the other two rows of letters. */
  function LowerCode(idx: nat): KeyCode {
    match idx
    case 0x1D => ControlLeft case 0x1E => A case 0x1F => S case 0x20 => D case 0x21 => F case 0x22 => G
    case 0x23 => H case 0x24 => J case 0x25 => K case 0x26 => L case 0x27 => Semicolon case 0x28 => Quote
    case 0x29 => Backquote case 0x2A => ShiftLeft case 0x2B => Backslash case 0x2C => Z case 0x2D => X case 0x2E => C
    case 0x2F => V case 0x30 => B case 0x31 => N case 0x32 => M case 0x33 => Comma case 0x34 => Period
    case 0x35 => Slash case 0x36 => ShiftRight
    case _ => NoKey
  }

  /** The rest: function keys and the keypad. */
  function PadCode(idx: nat): KeyCode {
    match idx
    case 0x37 => KeypadAsterisk case 0x38 => AltLeft case 0x39 => Space case 0x3A => CapsLock case 0x3B => F1 case 0x3C => F2
    case 0x3D => F3 case 0x3E => F4 case 0x3F => F5 case 0x40 => F6 case 0x41 => F7 case 0x42 => F8
    case 0x43 => F9 case 0x44 => F10 case 0x45 => NumLock case 0x46 => ScrollLock case 0x47 => Keypad7 case 0x48 => Keypad8
    case 0x49 => Keypad9 case 0x4A => KeypadMinus case 0x4B => Keypad4 case 0x4C => Keypad5 case 0x4D => Keypad6 case 0x4E => KeypadPlus
    case 0x4F => Keypad1 case 0x50 => Keypad2 case 0x51 => Keypad3 case 0x52 => Keypad0 case 0x53 => KeypadDot case 0x57 => F11
    case 0x58 => F12
    case _ => NoKey
  }

  /** The base table: the key of each scancode below 0x60; unused slots hold no key. */
  function BaseCode(idx: nat): KeyCode {
    if idx < 0x1D then UpperCode(idx) else if idx < 0x37 then LowerCode(idx) else PadCode(idx)
  }

  const SCANCODE_E0_MAP: seq<(byte, KeyCode)> := [
    (0x1C, KeypadEnter), (0x1D, ControlRight), (0x35, KeypadSlash), (0x37, PrintScreen), (0x38, AltRight),
    (0x47, Home), (0x48, ArrowUp), (0x49, PageUp), (0x4B, ArrowLeft), (0x4D, ArrowRight), (0x4F, End),
    (0x50, ArrowDown), (0x51, PageDown), (0x52, Insert), (0x53, Delete), (0x5B, SuperLeft), (0x5C, SuperRight)]

  /** The first entry for a code. */
  function FirstKey(table: seq<(byte, KeyCode)>, idx: nat): KeyCode {
    if table == [] then NoKey else if table[0].0 == idx then table[0].1 else FirstKey(table[1..], idx)
  }

  /** The key of an extended scancode. */
  function LookupE0(idx: nat): KeyCode {
    FirstKey(SCANCODE_E0_MAP, idx)
  }

  /** In a table with ascending codes every entry is the answer for its own code. */
  lemma {:induction false} EntryFound(table: seq<(byte, KeyCode)>, i: nat)
    requires i < |table| && forall j: nat, k: nat | j < k < |table| :: table[j].0 < table[k].0
    ensures FirstKey(table, table[i].0) == table[i].1
  {
    if i > 0 {
      EntryFound(table[1..], i - 1);
    }
  }

  /** The extended table gives each of its codes its own key. */
  lemma MapIsLookup(i: nat)
    requires i < |SCANCODE_E0_MAP|
    ensures LookupE0(SCANCODE_E0_MAP[i].0) == SCANCODE_E0_MAP[i].1
  {
    EntryFound(SCANCODE_E0_MAP, i);
  }

  /** The scan of `lookup_e0`. */
  method ScanE0(idx: nat) returns (k: KeyCode)
    ensures k == LookupE0(idx)
  {
    var i := 0;
    while i < |SCANCODE_E0_MAP|
      invariant 0 <= i <= |SCANCODE_E0_MAP|
      invariant FirstKey(SCANCODE_E0_MAP[i..], idx) == LookupE0(idx)
    {
      if SCANCODE_E0_MAP[i].0 == idx {
        return SCANCODE_E0_MAP[i].1;
      }
      assert SCANCODE_E0_MAP[i..][1..] == SCANCODE_E0_MAP[i + 1..];
      i := i + 1;
    }
    return NoKey;
  }

  /** The unshifted and shifted characters of a key, on a US layout. */
  function Chars(code: KeyCode): Option<(char, char)> {
    match code
    case Backquote => Some(('`', '~'))
    case Num1 => Some(('1', '!')) case Num2 => Some(('2', '@')) case Num3 => Some(('3', '#'))
    case Num4 => Some(('4', '$')) case Num5 => Some(('5', '%')) case Num6 => Some(('6', '^'))
    case Num7 => Some(('7', '&')) case Num8 => Some(('8', '*')) case Num9 => Some(('9', '('))
    case Num0 => Some(('0', ')')) case Minus => Some(('-', '_')) case Equal => Some(('=', '+'))
    case Q => Some(('q', 'Q')) case W => Some(('w', 'W')) case E => Some(('e', 'E')) case R => Some(('r', 'R'))
    case T => Some(('t', 'T')) case Y => Some(('y', 'Y')) case U => Some(('u', 'U')) case I => Some(('i', 'I'))
    case O => Some(('o', 'O')) case P => Some(('p', 'P'))
    case BracketLeft => Some(('[', '{')) case BracketRight => Some((']', '}')) case Backslash => Some(('\\', '|'))
    case A => Some(('a', 'A')) case S => Some(('s', 'S')) case D => Some(('d', 'D')) case F => Some(('f', 'F'))
    case G => Some(('g', 'G')) case H => Some(('h', 'H')) case J => Some(('j', 'J')) case K => Some(('k', 'K'))
    case L => Some(('l', 'L')) case Semicolon => Some((';', ':')) case Quote => Some(('\'', '"'))
    case Z => Some(('z', 'Z')) case X => Some(('x', 'X')) case C => Some(('c', 'C')) case V => Some(('v', 'V'))
    case B => Some(('b', 'B')) case N => Some(('n', 'N')) case M => Some(('m', 'M'))
    case Comma => Some((',', '<')) case Period => Some(('.', '>')) case Slash => Some(('/', '?'))
    case Space => Some((' ', ' ')) case Enter => Some(('\n', '\n')) case Tab => Some(('\t', '\t'))
    case Backspace => Some((8 as char, 8 as char)) case Escape => Some((0x1B as char, 0x1B as char))
    case Keypad0 => Some(('0', '0')) case Keypad1 => Some(('1', '1')) case Keypad2 => Some(('2', '2'))
    case Keypad3 => Some(('3', '3')) case Keypad4 => Some(('4', '4')) case Keypad5 => Some(('5', '5'))
    case Keypad6 => Some(('6', '6')) case Keypad7 => Some(('7', '7')) case Keypad8 => Some(('8', '8'))
    case Keypad9 => Some(('9', '9')) case KeypadDot => Some(('.', '.')) case KeypadSlash => Some(('/', '/'))
    case KeypadAsterisk => Some(('*', '*')) case KeypadMinus => Some(('-', '-')) case KeypadPlus => Some(('+', '+'))
    case KeypadEnter => Some(('\n', '\n'))
    case _ => None
  }

  function CharFor(code: KeyCode, shift: bool): Option<char> {
    match Chars(code)
    case None => None
    case Some(c) => Some(if shift then c.1 else c.0)
  }

  predicate IsShift(c: KeyCode) { c.ShiftLeft? || c.ShiftRight? }
  predicate IsCtrl(c: KeyCode) { c.ControlLeft? || c.ControlRight? }
  predicate IsAlt(c: KeyCode) { c.AltLeft? || c.AltRight? }

  datatype Decoder = Decoder(shift: bool, ctrl: bool, alt: bool, extended: bool, pausePrefix: bool, events: nat, unknown: nat)

  /** The modifier flags after an event of `code`. */
  function Modify(st: Decoder, code: KeyCode, pressed: bool): Decoder {
    if IsShift(code) then st.(shift := pressed)
    else if IsCtrl(code) then st.(ctrl := pressed)
    else if IsAlt(code) then st.(alt := pressed)
    else st
  }

  function EventOf(st: Decoder, code: KeyCode, pressed: bool, tick: nat): KeyEvent {
    KeyEvent(code, pressed, st.shift, st.ctrl, st.alt, tick, CharFor(code, st.shift))
  }

  /** The decoder: one byte in, the new state and perhaps an event out. */
  function Decode(st: Decoder, byte: byte, tick: nat): (Decoder, Option<KeyEvent>) {
    if byte == 0xE0 then (st.(extended := true), None)
    else if byte == 0xE1 then (st.(pausePrefix := true), None)
    else if st.pausePrefix then
      (st.(pausePrefix := false), Some(KeyEvent(Pause, true, st.shift, st.ctrl, st.alt, tick, None)))
    else
      var pressed, idx := byte < 0x80, byte % 0x80;
      if idx >= 0x60 then (st.(unknown := st.unknown + 1), None)
      else if st.extended then
        var st1 := st.(extended := false);
        if idx == 0x2A then (st1, None)
        else
          var code := LookupE0(idx);
          if code.NoKey? then
            (st1.(unknown := st.unknown + 1),
             Some(KeyEvent(Unknown(idx + 0x80), pressed, st.shift, st.ctrl, st.alt, tick, None)))
          else Emit(st1, code, pressed, tick)
      else if BaseCode(idx).NoKey? then (st, None)
      else Emit(st, BaseCode(idx), pressed, tick)
  }

  function Emit(st: Decoder, code: KeyCode, pressed: bool, tick: nat): (Decoder, Option<KeyEvent>) {
    var st1 := Modify(st, code, pressed);
    (st1.(events := st.events + 1), Some(EventOf(st1, code, pressed, tick)))
  }

  /** A byte and the tick at which it is decoded. */
  datatype Scan = Scan(byte: byte, tick: nat)

  function DecodeState(st: Decoder, scans: seq<Scan>): Decoder
    decreases |scans|
  {
    if scans == [] then st else DecodeState(Decode(st, scans[0].byte, scans[0].tick).0, scans[1..])
  }

  function DecodeEvents(st: Decoder, scans: seq<Scan>): seq<KeyEvent>
    decreases |scans|
  {
    if scans == [] then [] else
    var (st1, ev) := Decode(st, scans[0].byte, scans[0].tick);
    (if ev.Some? then [ev.value] else []) + DecodeEvents(st1, scans[1..])
  }

  lemma {:induction false} DecodeConcat(st: Decoder, a: seq<Scan>, b: seq<Scan>)
    ensures DecodeState(st, a + b) == DecodeState(DecodeState(st, a), b)
    ensures DecodeEvents(st, a + b) == DecodeEvents(st, a) + DecodeEvents(DecodeState(st, a), b)
    decreases |a|
  {
    hide Decode;
    if a == [] {
      assert a + b == b;
    } else {
      assert (a + b)[1..] == a[1..] + b;
      DecodeConcat(Decode(st, a[0].byte, a[0].tick).0, a[1..], b);
    }
  }

  // Encoding keys.

  /** A physical key: a position of the base table, or a code that follows an E0 prefix. */
  datatype Key = Base(idx: nat) | Ext(idx: nat)

  predicate ValidKey(k: Key) {
    k.idx < 0x60 && (if k.Base? then !BaseCode(k.idx).NoKey? else k.idx != 0x2A && !LookupE0(k.idx).NoKey?)
  }

  function CodeOf(k: Key): KeyCode
    requires k.idx < 0x60
  {
    if k.Base? then BaseCode(k.idx) else LookupE0(k.idx)
  }

  /** Something a keyboard sends: a key going down or up, or the synthetic shift around PrintScreen. */
  datatype Item =
    | Stroke(key: Key, pressed: bool, t0: nat, t1: nat)
    | Synthetic(pressed: bool, t0: nat, t1: nat)

  ghost predicate ValidItem(i: Item) {
    i.Stroke? ==> ValidKey(i.key)
  }

  function WireByte(idx: nat, pressed: bool): byte
    requires idx < 0x60
  {
    if pressed then idx else idx + 0x80
  }

  function EncodeItem(i: Item): seq<Scan>
    requires ValidItem(i)
  {
    match i
    case Stroke(Base(idx), pressed, t0, t1) => [Scan(WireByte(idx, pressed), t1)]
    case Stroke(Ext(idx), pressed, t0, t1) => [Scan(0xE0, t0), Scan(WireByte(idx, pressed), t1)]
    case Synthetic(pressed, t0, t1) => [Scan(0xE0, t0), Scan(WireByte(0x2A, pressed), t1)]
  }

  function EncodeItems(items: seq<Item>): seq<Scan>
    requires forall i | i in items :: ValidItem(i)
  {
    if items == [] then [] else EncodeItems(items[..|items| - 1]) + EncodeItem(items[|items| - 1])
  }

  predicate PrefixFree(st: Decoder) { !st.extended && !st.pausePrefix }

  lemma DecodeOne(st: Decoder, a: Scan)
    ensures DecodeState(st, [a]) == Decode(st, a.byte, a.tick).0
    ensures DecodeEvents(st, [a]) == (var ev := Decode(st, a.byte, a.tick).1; if ev.Some? then [ev.value] else [])
  {
    hide Decode;
    assert [a][1..] == [];
  }

  lemma AfterPrefix(st: Decoder, t0: nat, a: Scan)
    ensures var st0 := st.(extended := true);
            && DecodeState(st, [Scan(0xE0, t0), a]) == Decode(st0, a.byte, a.tick).0
            && DecodeEvents(st, [Scan(0xE0, t0), a]) ==
                 (var ev := Decode(st0, a.byte, a.tick).1; if ev.Some? then [ev.value] else [])
  {
    assert [Scan(0xE0, t0), a] == [Scan(0xE0, t0)] + [a];
    DecodeConcat(st, [Scan(0xE0, t0)], [a]);
    DecodeOne(st, Scan(0xE0, t0));
    DecodeOne(st.(extended := true), a);
  }

  /** What one item does to a decoder without a pending prefix. */
  lemma DecodeItem(st: Decoder, i: Item)
    requires PrefixFree(st) && ValidItem(i)
    ensures i.Synthetic? ==> DecodeState(st, EncodeItem(i)) == st && DecodeEvents(st, EncodeItem(i)) == []
    ensures i.Stroke? ==>
              var st1 := Modify(st, CodeOf(i.key), i.pressed);
              && DecodeState(st, EncodeItem(i)) == st1.(events := st.events + 1)
              && DecodeEvents(st, EncodeItem(i)) == [EventOf(st1, CodeOf(i.key), i.pressed, i.t1)]
  {
    hide LookupE0, BaseCode, CharFor, DecodeState, DecodeEvents, Decode, Modify, EventOf;
    match i
    case Stroke(Base(idx), pressed, t0, t1) =>
      DecodeOne(st, Scan(WireByte(idx, pressed), t1));
      DecodeBase(st, idx, pressed, t1);
    case Stroke(Ext(idx), pressed, t0, t1) =>
      AfterPrefix(st, t0, Scan(WireByte(idx, pressed), t1));
      DecodeExt(st, idx, pressed, t1);
    case Synthetic(pressed, t0, t1) =>
      AfterPrefix(st, t0, Scan(WireByte(0x2A, pressed), t1));
      DecodeSynthetic(st, pressed, t1);
  }

  lemma DecodeBase(st: Decoder, idx: nat, pressed: bool, t: nat)
    requires PrefixFree(st) && idx < 0x60 && !BaseCode(idx).NoKey?
    ensures Decode(st, WireByte(idx, pressed), t) == Emit(st, BaseCode(idx), pressed, t)
  {
    hide BaseCode, LookupE0, Emit;
  }

  lemma DecodeExt(st: Decoder, idx: nat, pressed: bool, t: nat)
    requires PrefixFree(st) && idx < 0x60 && idx != 0x2A && !LookupE0(idx).NoKey?
    ensures Decode(st.(extended := true), WireByte(idx, pressed), t) == Emit(st, LookupE0(idx), pressed, t)
  {
    hide BaseCode, LookupE0, Emit;
    assert st.(extended := true).(extended := false) == st;
  }

  /** The synthetic shift is swallowed and leaves the state as it was. */
  lemma DecodeSynthetic(st: Decoder, pressed: bool, t: nat)
    requires PrefixFree(st)
    ensures Decode(st.(extended := true), WireByte(0x2A, pressed), t) == (st, None)
  {
    hide BaseCode, LookupE0, Emit;
  }

  // The round trip.

  datatype Modifier = Shift | Ctrl | Alt

  predicate IsModifier(m: Modifier, c: KeyCode) {
    match m case Shift => IsShift(c) case Ctrl => IsCtrl(c) case Alt => IsAlt(c)
  }

  function Strokes(items: seq<Item>): seq<Item> {
    if items == [] then [] else
    var n := |items| - 1;
    Strokes(items[..n]) + if items[n].Stroke? then [items[n]] else []
  }

  /** Whether the last stroke of a modifier kind was a press; `initial` when there was none. */
  function LastPressed(m: Modifier, strokes: seq<Item>, initial: bool): bool
    requires forall i | i in strokes :: i.Stroke? && i.key.idx < 0x60
  {
    if strokes == [] then initial else
    var last := strokes[|strokes| - 1];
    if IsModifier(m, CodeOf(last.key)) then last.pressed else LastPressed(m, strokes[..|strokes| - 1], initial)
  }

  ghost predicate AllValid(items: seq<Item>) {
    forall i | i in items :: ValidItem(i)
  }

  lemma {:induction false} StrokesValid(items: seq<Item>)
    requires AllValid(items)
    ensures forall i | i in Strokes(items) :: i.Stroke? && ValidKey(i.key) && i.key.idx < 0x60
  {
    hide ValidKey;
    if items != [] {
      StrokesValid(items[..|items| - 1]);
      var i := items[|items| - 1];
      assert ValidItem(i);
      if i.Stroke? {
        KeyInTable(i);
      }
    }
  }

  lemma KeyInTable(i: Item)
    requires ValidItem(i) && i.Stroke?
    ensures i.key.idx < 0x60
  {
  }

  /** Event `e` is what a stroke stands for, given the strokes up to and including it. */
  ghost predicate EventMatches(e: KeyEvent, upTo: seq<Item>, st: Decoder)
    requires upTo != [] && forall i | i in upTo :: i.Stroke? && i.key.idx < 0x60
  {
    var k := upTo[|upTo| - 1];
    var shift := LastPressed(Shift, upTo, st.shift);
    e == KeyEvent(CodeOf(k.key), k.pressed, shift, LastPressed(Ctrl, upTo, st.ctrl), LastPressed(Alt, upTo, st.alt),
                  k.t1, CharFor(CodeOf(k.key), shift))
  }

  /** The decoder's modifier flags are those of the last strokes of each kind. */
  ghost predicate FlagsMatch(st': Decoder, strokes: seq<Item>, st: Decoder)
    requires forall i | i in strokes :: i.Stroke? && i.key.idx < 0x60
  {
    && PrefixFree(st')
    && st'.shift == LastPressed(Shift, strokes, st.shift)
    && st'.ctrl == LastPressed(Ctrl, strokes, st.ctrl)
    && st'.alt == LastPressed(Alt, strokes, st.alt)
  }

  lemma ModifyMatches(st: Decoder, st0: Decoder, strokes: seq<Item>, i: Item)
    requires (forall j | j in strokes :: j.Stroke? && j.key.idx < 0x60) && i.Stroke? && i.key.idx < 0x60
    requires FlagsMatch(st0, strokes, st)
    ensures forall j | j in strokes + [i] :: j.Stroke? && j.key.idx < 0x60
    ensures var st1 := Modify(st0, CodeOf(i.key), i.pressed);
            && FlagsMatch(st1.(events := st0.events + 1), strokes + [i], st)
            && EventMatches(EventOf(st1, CodeOf(i.key), i.pressed, i.t1), strokes + [i], st)
  {
    hide CodeOf, CharFor;
    assert (strokes + [i])[..|strokes|] == strokes;
  }

  lemma NoStrokes(st: Decoder)
    requires PrefixFree(st)
    ensures FlagsMatch(st, [], st)
  {
  }

  ghost predicate EventsMatch(evs: seq<KeyEvent>, ks: seq<Item>, st: Decoder)
    requires forall i | i in ks :: i.Stroke? && i.key.idx < 0x60
  {
    |evs| == |ks| && forall n: nat | n < |evs| :: EventMatches(evs[n], ks[..n + 1], st)
  }

  lemma MatchesMore(evs: seq<KeyEvent>, ks: seq<Item>, e: KeyEvent, i: Item, st: Decoder)
    requires forall j | j in ks + [i] :: j.Stroke? && j.key.idx < 0x60
    requires EventsMatch(evs, ks, st) && EventMatches(e, ks + [i], st)
    ensures EventsMatch(evs + [e], ks + [i], st)
  {
    hide EventMatches;
    forall n: nat | n < |evs| + 1 ensures EventMatches((evs + [e])[n], (ks + [i])[..n + 1], st) {
      if n < |evs| {
        assert (ks + [i])[..n + 1] == ks[..n + 1];
      } else {
        assert (ks + [i])[..n + 1] == ks + [i];
      }
    }
  }

  /**
   Round trip: from a decoder without a pending prefix, the bytes of any sequence of presses and releases, with
   synthetic shift pairs anywhere between them, decode to one event per stroke, in order, with the modifier
   flags of the last strokes and the character they select.
   */
  lemma {:induction false} DecodeEncoded(st: Decoder, items: seq<Item>)
    requires PrefixFree(st) && AllValid(items)
    ensures forall i | i in Strokes(items) :: i.Stroke? && i.key.idx < 0x60
    ensures FlagsMatch(DecodeState(st, EncodeItems(items)), Strokes(items), st)
    ensures EventsMatch(DecodeEvents(st, EncodeItems(items)), Strokes(items), st)
    decreases |items|
  {
    hide Decode, EncodeItem, CodeOf, CharFor, ValidItem, EventMatches, LastPressed;
    NoStrokes(st);
    StrokesValid(items);
    if items != [] {
      var n := |items| - 1;
      var front, i := items[..n], items[n];
      DecodeEncoded(st, front);
      var st0 := DecodeState(st, EncodeItems(front));
      DecodeConcat(st, EncodeItems(front), EncodeItem(i));
      DecodeItem(st0, i);
      var ks := Strokes(front);
      if i.Synthetic? {
        assert ks + [] == ks;
        assert DecodeEvents(st, EncodeItems(front)) + [] == DecodeEvents(st, EncodeItems(front));
      } else {
        KeyInTable(i);
        ModifyMatches(st, st0, ks, i);
        MatchesMore(DecodeEvents(st, EncodeItems(front)), ks, DecodeEvents(st0, EncodeItem(i))[0], i, st);
      }
    }
  }

  // Sequences the source's comments describe.

  /** The six bytes of the Pause key: four events, not the single one the comments announce. */
  lemma PauseDecodes(st: Decoder, t: seq<nat>)
    requires PrefixFree(st) && |t| == 6
    ensures var evs := DecodeEvents(st, [Scan(0xE1, t[0]), Scan(0x1D, t[1]), Scan(0x45, t[2]), Scan(0xE1, t[3]), Scan(0x9D, t[4]), Scan(0xC5, t[5])]);
            && |evs| == 4
            && evs[0].code == Pause && evs[1].code == NumLock && evs[1].pressed
            && evs[2].code == Pause && evs[3].code == NumLock && !evs[3].pressed
  {
    hide CharFor, Decode, DecodeState, DecodeEvents, LookupE0, BaseCode;
    var a := [Scan(0xE1, t[0]), Scan(0x1D, t[1]), Scan(0x45, t[2])];
    var b := [Scan(0xE1, t[3]), Scan(0x9D, t[4]), Scan(0xC5, t[5])];
    HalfPause(st, 0x1D, 0x45, true, t[0], t[1], t[2]);
    HalfPause(DecodeState(st, a), 0x9D, 0xC5, false, t[3], t[4], t[5]);
    DecodeConcat(st, a, b);
    assert a + b == [Scan(0xE1, t[0]), Scan(0x1D, t[1]), Scan(0x45, t[2]), Scan(0xE1, t[3]), Scan(0x9D, t[4]), Scan(0xC5, t[5])];
  }

  lemma HalfPause(st: Decoder, x: byte, y: byte, pressed: bool, t0: nat, t1: nat, t2: nat)
    requires PrefixFree(st) && x != 0xE0 && x != 0xE1 && y == WireByte(0x45, pressed)
    ensures var scans := [Scan(0xE1, t0), Scan(x, t1), Scan(y, t2)];
            var evs := DecodeEvents(st, scans);
            && PrefixFree(DecodeState(st, scans)) && |evs| == 2
            && evs[0].code == Pause && evs[1].code == NumLock && evs[1].pressed == pressed
  {
    hide CharFor, LookupE0, Decode, DecodeState, DecodeEvents, BaseCode;
    PausePrefix(st, x, t0, t1);
    NumLockByte(st, pressed, t2);
    DecodeOne(st, Scan(y, t2));
    DecodeConcat(st, [Scan(0xE1, t0), Scan(x, t1)], [Scan(y, t2)]);
    assert [Scan(0xE1, t0), Scan(x, t1)] + [Scan(y, t2)] == [Scan(0xE1, t0), Scan(x, t1), Scan(y, t2)];
  }

  lemma PausePrefix(st: Decoder, x: byte, t0: nat, t1: nat)
    requires PrefixFree(st) && x != 0xE0 && x != 0xE1
    ensures var scans := [Scan(0xE1, t0), Scan(x, t1)];
            && DecodeState(st, scans) == st
            && |DecodeEvents(st, scans)| == 1 && DecodeEvents(st, scans)[0].code == Pause
  {
    hide LookupE0, BaseCode, DecodeState, DecodeEvents, Emit;
    var st1 := st.(pausePrefix := true);
    assert [Scan(0xE1, t0)] + [Scan(x, t1)] == [Scan(0xE1, t0), Scan(x, t1)];
    DecodeConcat(st, [Scan(0xE1, t0)], [Scan(x, t1)]);
    DecodeOne(st, Scan(0xE1, t0));
    DecodeOne(st1, Scan(x, t1));
  }

  lemma NumLockByte(st: Decoder, pressed: bool, t: nat)
    requires PrefixFree(st)
    ensures var (st1, ev) := Decode(st, WireByte(0x45, pressed), t);
            PrefixFree(st1) && ev.Some? && ev.value.code == NumLock && ev.value.pressed == pressed
  {
    hide LookupE0, CharFor, BaseCode, Decode, IsShift, IsCtrl, IsAlt;
    assert BaseCode(0x45) == NumLock by { NumLockCode(); }
    DecodeBase(st, 0x45, pressed, t);
  }

  lemma NumLockCode()
    ensures BaseCode(0x45) == NumLock
  {
  }

  /**
   A pending E0 is cleared by the byte after it, except by another prefix byte, by the byte that completes a Pause, and by
   a byte outside the tables; then the next key is still read as extended.
   */
  lemma PrefixStays(st: Decoder, byte: byte, t: nat)
    requires st.extended
    ensures Decode(st, byte, t).0.extended <==> byte == 0xE0 || byte == 0xE1 || st.pausePrefix || byte % 0x80 >= 0x60
  {
    hide LookupE0, BaseCode, CharFor, IsShift, IsCtrl, IsAlt;
  }

  /** E0 and an unknown byte, and E0 with the first two bytes of Pause: both leave the prefix pending. */
  lemma PrefixLeftPending(st: Decoder, t: nat)
    requires PrefixFree(st)
    ensures DecodeState(st, [Scan(0xE0, t), Scan(0x60, t)]).extended
    ensures DecodeState(st, [Scan(0xE0, t), Scan(0xE1, t), Scan(0x1D, t)]).extended
  {
    hide LookupE0, BaseCode, DecodeState, DecodeEvents, Emit;
    var e0 := st.(extended := true);
    AfterPrefix(st, t, Scan(0x60, t));
    AfterPrefix(st, t, Scan(0xE1, t));
    DecodeConcat(st, [Scan(0xE0, t), Scan(0xE1, t)], [Scan(0x1D, t)]);
    assert [Scan(0xE0, t), Scan(0xE1, t)] + [Scan(0x1D, t)] == [Scan(0xE0, t), Scan(0xE1, t), Scan(0x1D, t)];
    DecodeOne(e0.(pausePrefix := true), Scan(0x1D, t));
  }

  // The counters.

  /** An event of a key in the tables. */
  predicate Known(e: KeyEvent) {
    !e.code.Pause? && !e.code.Unknown?
  }

  function KnownCount(evs: seq<KeyEvent>): nat {
    if evs == [] then 0 else (if Known(evs[0]) then 1 else 0) + KnownCount(evs[1..])
  }

  lemma BaseKnown(idx: nat)
    ensures !BaseCode(idx).Pause? && !BaseCode(idx).Unknown?
  {
  }

  lemma {:induction false} TableKnown(table: seq<(byte, KeyCode)>, idx: nat)
    requires forall i: nat | i < |table| :: !table[i].1.Pause? && !table[i].1.Unknown?
    ensures !FirstKey(table, idx).Pause? && !FirstKey(table, idx).Unknown?
  {
    if table != [] {
      TableKnown(table[1..], idx);
    }
  }

  lemma ExtendedKnown(idx: nat)
    ensures !LookupE0(idx).Pause? && !LookupE0(idx).Unknown?
  {
    TableKnown(SCANCODE_E0_MAP, idx);
  }

  lemma StepCounted(st: Decoder, b: byte, t: nat)
    ensures var (st1, ev) := Decode(st, b, t);
            && st1.events == st.events + (if ev.Some? && Known(ev.value) then 1 else 0)
            && (ev.Some? && !Known(ev.value) ==> ev.value.ch.None?)
            && (ev.Some? && ev.value.code.Unknown? ==> st1.unknown == st.unknown + 1)
  {
    hide BaseCode, CharFor, LookupE0, IsShift, IsCtrl, IsAlt;
    BaseKnown(b % 0x80);
    ExtendedKnown(b % 0x80);
  }

  /** The event counter counts the events delivered of keys in the tables: Pause and unknown extended keys are not counted. */
  lemma {:induction false} EventsCounted(st: Decoder, scans: seq<Scan>)
    ensures DecodeState(st, scans).events == st.events + KnownCount(DecodeEvents(st, scans))
    decreases |scans|
  {
    hide Decode, Known;
    if scans != [] {
      var (st1, ev) := Decode(st, scans[0].byte, scans[0].tick);
      StepCounted(st, scans[0].byte, scans[0].tick);
      EventsCounted(st1, scans[1..]);
      if ev.Some? {
        assert DecodeEvents(st, scans)[1..] == DecodeEvents(st1, scans[1..]);
      } else {
        assert DecodeEvents(st, scans) == DecodeEvents(st1, scans[1..]);
      }
    }
  }

  /** An extended code outside the table is reported with its scancode, with no character and every flag as it was. */
  lemma UnknownKey(st: Decoder, idx: nat, pressed: bool, t0: nat, t1: nat)
    requires PrefixFree(st) && idx < 0x60 && idx != 0x2A && LookupE0(idx).NoKey?
    ensures var scans := [Scan(0xE0, t0), Scan(WireByte(idx, pressed), t1)];
            && DecodeState(st, scans) == st.(unknown := st.unknown + 1)
            && DecodeEvents(st, scans) == [KeyEvent(Unknown(idx + 0x80), pressed, st.shift, st.ctrl, st.alt, t1, None)]
  {
    hide BaseCode, LookupE0, Emit, DecodeState, DecodeEvents;
    AfterPrefix(st, t0, Scan(WireByte(idx, pressed), t1));
    assert st.(extended := true).(extended := false) == st;
  }

  // Draining the ring.

  /** Bytes with the ticks a clock gives them, the first at count `d`. */
  function Stamp(bytes: seq<byte>, clock: nat -> nat, d: nat): (scans: seq<Scan>)
    ensures |scans| == |bytes|
    decreases |bytes|
  {
    if bytes == [] then [] else [Scan(bytes[0], clock(d))] + Stamp(bytes[1..], clock, d + 1)
  }

  lemma {:induction false} StampConcat(a: seq<byte>, b: seq<byte>, clock: nat -> nat, d: nat)
    ensures Stamp(a + b, clock, d) == Stamp(a, clock, d) + Stamp(b, clock, d + |a|)
    decreases |a|
  {
    if a == [] {
      assert a + b == b;
    } else {
      assert (a + b)[1..] == a[1..] + b;
      StampConcat(a[1..], b, clock, d + 1);
    }
  }

  /** How many of the arriving bytes a ring with `n` bytes still takes. */
  function Fit(n: nat, arrived: seq<byte>): (k: nat)
    ensures k <= |arrived|
  {
    if n + |arrived| < Ring.RING_CAP then |arrived| else if n < Ring.RING_CAP then Ring.RING_CAP - 1 - n else 0
  }

  /** Bytes taken out, bytes taken in, bytes left in the ring, bytes dropped, and polls made by one drain. */
  datatype Drained = Drained(popped: seq<byte>, accepted: seq<byte>, waiting: seq<byte>, dropped: nat, polls: nat)

  /**
   One `drain` with `room` slots over a ring that holds `waiting`: the handler pushes `arrivals[k]` before poll `k`. The
   drain ends when its buffer is full, a poll finds the ring empty, or a byte yields no event.
   */
  function DrainSpec(st: Decoder, waiting: seq<byte>, clock: nat -> nat, d: nat, room: nat, arrivals: seq<seq<byte>>): Drained
    decreases room
  {
    if room == 0 then Drained([], [], waiting, 0, 0) else
    var arrived := if arrivals == [] then [] else arrivals[0];
    var k := Fit(|waiting|, arrived);
    var ring := waiting + arrived[..k];
    if ring == [] then Drained([], arrived[..k], ring, |arrived| - k, 1) else
    var (st1, ev) := Decode(st, ring[0], clock(d));
    if ev.None? then Drained([ring[0]], arrived[..k], ring[1..], |arrived| - k, 1) else
    var r := DrainSpec(st1, ring[1..], clock, d + 1, room - 1, if arrivals == [] then [] else arrivals[1..]);
    Drained([ring[0]] + r.popped, arrived[..k] + r.accepted, r.waiting, |arrived| - k + r.dropped, 1 + r.polls)
  }

  /** How many bytes arrive before the first `n` polls. */
  function ArrivedBy(arrivals: seq<seq<byte>>, n: nat): nat {
    if n == 0 || arrivals == [] then 0 else |arrivals[0]| + ArrivedBy(arrivals[1..], n - 1)
  }

  /** The bytes in the ring at the first poll, and how many arrivals were lost before it. */
  function FirstRing(waiting: seq<byte>, arrivals: seq<seq<byte>>): seq<byte> {
    var arrived := FirstArrivals(arrivals);
    waiting + arrived[..Fit(|waiting|, arrived)]
  }

  function FirstArrivals(arrivals: seq<seq<byte>>): seq<byte> {
    if arrivals == [] then [] else arrivals[0]
  }

  function RestArrivals(arrivals: seq<seq<byte>>): seq<seq<byte>> {
    if arrivals == [] then [] else arrivals[1..]
  }

  /**
   One drain, whatever arrives while it runs: the bytes it popped followed by the ring are what the ring held and what it
   accepted; every byte that arrived was accepted or counted as dropped; and with a slot and a byte in the ring at least
   one byte is taken.
   */
  lemma {:induction false} DrainConserves(st: Decoder, waiting: seq<byte>, clock: nat -> nat, d: nat, room: nat, arrivals: seq<seq<byte>>)
    requires |waiting| < Ring.RING_CAP
    ensures var r := DrainSpec(st, waiting, clock, d, room, arrivals);
            && r.popped + r.waiting == waiting + r.accepted && |r.waiting| <= 255
            && |r.accepted| + r.dropped == ArrivedBy(arrivals, r.polls)
            && (room > 0 && waiting != [] ==> r.popped != [])
    decreases room
  {
    hide Decode, Fit;
    if room > 0 {
      var arrived := FirstArrivals(arrivals);
      var k := Fit(|waiting|, arrived);
      var ring := FirstRing(waiting, arrivals);
      FitBound(|waiting|, arrived);
      if ring != [] {
        var (st1, ev) := Decode(st, ring[0], clock(d));
        if ev.Some? {
          var rest := RestArrivals(arrivals);
          DrainConserves(st1, ring[1..], clock, d + 1, room - 1, rest);
          var r := DrainSpec(st1, ring[1..], clock, d + 1, room - 1, rest);
          FrontPopped(waiting, arrived[..k], r.popped, r.waiting, r.accepted);
        } else {
          FrontPopped(waiting, arrived[..k], [], ring[1..], []);
        }
      }
    }
  }

  lemma FrontPopped(waiting: seq<byte>, taken: seq<byte>, popped: seq<byte>, left: seq<byte>, accepted: seq<byte>)
    requires waiting + taken != [] && popped + left == (waiting + taken)[1..] + accepted
    ensures [(waiting + taken)[0]] + popped + left == waiting + (taken + accepted)
    ensures accepted == [] ==> taken + accepted == taken
    ensures popped == [] ==> [(waiting + taken)[0]] + popped == [(waiting + taken)[0]]
  {
    var ring := waiting + taken;
    assert [ring[0]] + popped + left == [ring[0]] + (ring[1..] + accepted) == ring + accepted;
  }

  /** And it writes no more events than its buffer holds. */
  lemma {:induction false} DrainFits(st: Decoder, waiting: seq<byte>, clock: nat -> nat, d: nat, room: nat, arrivals: seq<seq<byte>>)
    ensures |DecodeEvents(st, Stamp(DrainSpec(st, waiting, clock, d, room, arrivals).popped, clock, d))| <= room
    decreases room
  {
    hide Decode, Fit, DecodeEvents, Stamp;
    NoEvents(st, clock, d);
    if room > 0 {
      var ring := FirstRing(waiting, arrivals);
      if ring != [] {
        var (st1, ev) := Decode(st, ring[0], clock(d));
        if ev.Some? {
          DrainFits(st1, ring[1..], clock, d + 1, room - 1, RestArrivals(arrivals));
          FrontEvents(st, ring[0], DrainSpec(st1, ring[1..], clock, d + 1, room - 1, RestArrivals(arrivals)).popped, clock, d);
        } else {
          OneEvent(st, ring[0], clock, d);
        }
      }
    }
  }

  lemma FrontEvents(st: Decoder, b: byte, popped: seq<byte>, clock: nat -> nat, d: nat)
    ensures var (st1, ev) := Decode(st, b, clock(d));
            |DecodeEvents(st, Stamp([b] + popped, clock, d))| <= 1 + |DecodeEvents(st1, Stamp(popped, clock, d + 1))|
  {
    hide Decode;
    assert ([b] + popped)[1..] == popped;
    var scans := Stamp(popped, clock, d + 1);
    assert ([Scan(b, clock(d))] + scans)[1..] == scans;
  }

  lemma FitBound(n: nat, arrived: seq<byte>)
    requires n < Ring.RING_CAP
    ensures n + Fit(n, arrived) <= 255 && (Fit(n, arrived) < |arrived| ==> n + Fit(n, arrived) == 255)
  {
  }

  lemma NoEvents(st: Decoder, clock: nat -> nat, d: nat)
    ensures DecodeEvents(st, Stamp([], clock, d)) == []
  {
  }

  lemma OneEvent(st: Decoder, b: byte, clock: nat -> nat, d: nat)
    ensures |DecodeEvents(st, Stamp([b], clock, d))| <= 1
  {
    hide Decode;
    assert Stamp([b], clock, d) == [Scan(b, clock(d))];
    DecodeOne(st, Scan(b, clock(d)));
  }

  lemma {:induction false} EventsBound(st: Decoder, scans: seq<Scan>)
    ensures |DecodeEvents(st, scans)| <= |scans|
    decreases |scans|
  {
    hide Decode;
    if scans != [] {
      EventsBound(Decode(st, scans[0].byte, scans[0].tick).0, scans[1..]);
    }
  }

  /**
   A drain during which nothing arrives does not always empty the ring it has room for: it does so exactly when the buffer
   has a slot per byte and every byte before the last yields an event.
   */
  lemma {:induction false} DrainEmpties(st: Decoder, waiting: seq<byte>, clock: nat -> nat, d: nat, room: nat)
    requires waiting != []
    ensures DrainSpec(st, waiting, clock, d, room, []).waiting == [] <==>
              && |waiting| <= room
              && |DecodeEvents(st, Stamp(waiting[..|waiting| - 1], clock, d))| == |waiting| - 1
    decreases room
  {
    hide Decode;
    if room > 0 {
      var n := |waiting| - 1;
      var (st1, ev) := Decode(st, waiting[0], clock(d));
      assert waiting + [][..0] == waiting;
      if n > 0 {
        var front := waiting[..n];
        assert front[1..] == waiting[1..][..n - 1];
        var scans := Stamp(front, clock, d);
        assert scans[0] == Scan(waiting[0], clock(d)) && scans[1..] == Stamp(front[1..], clock, d + 1);
        EventsBound(st1, scans[1..]);
        if ev.Some? {
          DrainEmpties(st1, waiting[1..], clock, d + 1, room - 1);
        }
      } else if ev.Some? {
        EmptyDrain(st1, clock, d + 1, room - 1);
        assert waiting[1..] == [] && waiting[..0] == [];
      }
    }
  }

  /** Up arrow waits as E0 48: a drain with two slots stops after the prefix and leaves the key in the ring. */
  lemma DrainLeavesKey(st: Decoder, clock: nat -> nat, d: nat)
    ensures var r := DrainSpec(st, [0xE0, 0x48], clock, d, 2, []); r.popped == [0xE0] && r.waiting == [0x48]
  {
    hide LookupE0, BaseCode, Emit;
    assert [0xE0, 0x48] + [] == [0xE0, 0x48];
    assert [0xE0, 0x48][1..] == [0x48];
  }

  lemma EmptyDrain(st: Decoder, clock: nat -> nat, d: nat, room: nat)
    ensures DrainSpec(st, [], clock, d, room, []).waiting == []
  {
  }

  /** One drain of the main loop, and what arrives before and during it. */
  datatype Round = Round(room: nat, arrivals: seq<seq<byte>>)

  /** Decoder, ring, and everything that has been popped, accepted, dropped, has arrived, and has been handed out. */
  datatype Loop = Loop(st: Decoder, waiting: seq<byte>, popped: seq<byte>, accepted: seq<byte>, dropped: nat, arrived: nat, out: seq<KeyEvent>)

  function DrainRound(l: Loop, clock: nat -> nat, r: Round): Loop {
    var d := |l.popped|;
    var x := DrainSpec(l.st, l.waiting, clock, d, r.room, r.arrivals);
    var scans := Stamp(x.popped, clock, d);
    Loop(DecodeState(l.st, scans), x.waiting, l.popped + x.popped, l.accepted + x.accepted, l.dropped + x.dropped,
         l.arrived + ArrivedBy(r.arrivals, x.polls), l.out + DecodeEvents(l.st, scans))
  }

  function DrainRounds(st: Decoder, clock: nat -> nat, rs: seq<Round>): Loop
    decreases |rs|
  {
    if rs == [] then Loop(st, [], [], [], 0, 0, []) else DrainRound(DrainRounds(st, clock, rs[..|rs| - 1]), clock, rs[|rs| - 1])
  }

  /**
   Over any series of drains with any buffer sizes and any arrivals: the events handed out are the decoder applied to the
   bytes popped, the bytes popped followed by the ring are the bytes accepted, and every byte that arrived was accepted or
   counted as dropped.
   */
  lemma {:induction false} DrainLosesNothing(st: Decoder, clock: nat -> nat, rs: seq<Round>)
    ensures var l := DrainRounds(st, clock, rs);
            && l.out == DecodeEvents(st, Stamp(l.popped, clock, 0)) && l.st == DecodeState(st, Stamp(l.popped, clock, 0))
            && l.popped + l.waiting == l.accepted && |l.waiting| <= 255
            && |l.accepted| + l.dropped == l.arrived
    decreases |rs|
  {
    hide Decode, DrainSpec, DecodeEvents, DecodeState, ArrivedBy, Stamp;
    if rs == [] {
      NothingDecoded(st, clock);
    } else {
      var n := |rs| - 1;
      DrainLosesNothing(st, clock, rs[..n]);
      var l := DrainRounds(st, clock, rs[..n]);
      var d := |l.popped|;
      var x := DrainSpec(l.st, l.waiting, clock, d, rs[n].room, rs[n].arrivals);
      DrainConserves(l.st, l.waiting, clock, d, rs[n].room, rs[n].arrivals);
      StampConcat(l.popped, x.popped, clock, 0);
      DecodeConcat(st, Stamp(l.popped, clock, 0), Stamp(x.popped, clock, d));
      assert l.popped + x.popped + x.waiting == l.popped + (l.waiting + x.accepted) == l.accepted + x.accepted;
    }
  }

  lemma NothingDecoded(st: Decoder, clock: nat -> nat)
    ensures DecodeEvents(st, Stamp([], clock, 0)) == [] && DecodeState(st, Stamp([], clock, 0)) == st
  {
  }

  /** The cell `k` places after `tail`. */
  function Slot(tail: nat, k: nat): (r: nat)
    ensures r < Ring.RING_CAP
  {
    (tail + k) % Ring.RING_CAP
  }

  /** The cell after the last byte held is none of the cells in use; the one after it is the tail only in a full ring. */
  lemma SlotsApart(tail: nat, n: nat)
    requires tail < Ring.RING_CAP && n < Ring.RING_CAP
    ensures forall k: nat | k < n :: Slot(tail, k) != Slot(tail, n)
    ensures Slot(Slot(tail, n), 1) == Slot(tail, n + 1)
    ensures Slot(tail, n + 1) == tail <==> n == Ring.RING_CAP - 1
  {
    forall k: nat | k < n ensures Slot(tail, k) != Slot(tail, n) {
      SlotsDiffer(tail, k, n);
    }
  }

  lemma SlotsDiffer(tail: nat, j: nat, k: nat)
    requires tail < Ring.RING_CAP && j < k < Ring.RING_CAP
    ensures Slot(tail, j) != Slot(tail, k)
  {
  }

  lemma SlotsShift(tail: nat, n: nat)
    requires tail < Ring.RING_CAP && n < Ring.RING_CAP
    ensures forall k: nat :: Slot(Slot(tail, 1), k) == Slot(tail, k + 1)
    ensures Slot(tail, 0) == tail && (Slot(tail, n) == tail <==> n == 0)
  {
    forall k: nat ensures Slot(Slot(tail, 1), k) == Slot(tail, k + 1) {
      SlotMoves(tail, k);
    }
  }

  lemma SlotMoves(tail: nat, k: nat)
    requires tail < Ring.RING_CAP
    ensures Slot(Slot(tail, 1), k) == Slot(tail, k + 1)
  {
  }

  /** The sequential face of the ring: what `ring_push` and `ring_pop` do when nothing interrupts them. */
  class ScanRing {
    const cells: array<byte>
    var head: nat
    var tail: nat
    var dropped: nat
    ghost var contents: seq<byte>

    ghost predicate Valid()
      reads this, cells
    {
      && cells.Length == Ring.RING_CAP && head < Ring.RING_CAP && tail < Ring.RING_CAP
      && |contents| < Ring.RING_CAP && head == Slot(tail, |contents|)
      && forall k: nat | k < |contents| :: cells[Slot(tail, k)] == contents[k]
    }

    constructor ()
      ensures Valid() && contents == [] && dropped == 0 && fresh(cells)
    {
      cells := new byte[Ring.RING_CAP](_ => 0);
      head, tail, dropped, contents := 0, 0, 0, [];
    }

    method Push(b: byte)
      requires Valid()
      modifies this, cells
      ensures Valid()
      ensures if |old(contents)| < 255 then contents == old(contents) + [b] && dropped == old(dropped)
              else contents == old(contents) && dropped == old(dropped) + 1
    {
      hide Slot;
      SlotsApart(tail, |contents|);
      var next := Slot(head, 1);
      if next == tail {
        dropped := dropped + 1;
        return;
      }
      cells[head] := b;
      head := next;
      contents := contents + [b];
    }

    method Pop() returns (r: Option<byte>)
      requires Valid()
      modifies this
      ensures Valid() && dropped == old(dropped)
      ensures if old(contents) == [] then r == None && contents == []
              else r == Some(old(contents)[0]) && contents == old(contents)[1..]
    {
      hide Slot;
      SlotsShift(tail, |contents|);
      if tail == head {
        return None;
      }
      var b := cells[tail];
      tail := Slot(tail, 1);
      contents := contents[1..];
      return Some(b);
    }
  }

  /** The driver: its ring, its decoder state and a clock that stamps the `k`-th byte decoded. */
  class Driver {
    const ring: ScanRing
    const clock: nat -> nat
    var st: Decoder
    var decoded: nat

    ghost predicate Valid()
      reads this, ring, ring.cells
    {
      ring.Valid()
    }

    constructor (clock: nat -> nat)
      ensures Valid() && fresh(ring) && fresh(ring.cells) && ring.contents == [] && ring.dropped == 0 && decoded == 0
      ensures !st.shift && !st.ctrl && !st.alt && PrefixFree(st) && this.clock == clock
    {
      ring := new ScanRing();
      this.clock, decoded := clock, 0;
      st := Decoder(false, false, false, false, false, 0, 0);
    }

    /** `translate`: the state fields are updated in place. */
    method Translate(byte: byte) returns (r: Option<KeyEvent>)
      modifies this
      ensures (st, r) == Decode(old(st), byte, clock(old(decoded))) && decoded == old(decoded) + 1
    {
      hide BaseCode, LookupE0, CharFor, Emit;
      var tick := clock(decoded);
      decoded := decoded + 1;
      if byte == 0xE0 {
        st := st.(extended := true);
        return None;
      }
      if byte == 0xE1 {
        st := st.(pausePrefix := true);
        return None;
      }
      if st.pausePrefix {
        st := st.(pausePrefix := false);
        return Some(KeyEvent(Pause, true, st.shift, st.ctrl, st.alt, tick, None));
      }
      var released := byte >= 0x80;
      var idx := byte % 0x80;
      if idx >= 0x60 {
        st := st.(unknown := st.unknown + 1);
        return None;
      }
      var code;
      if st.extended {
        st := st.(extended := false);
        if idx == 0x2A {
          return None;
        }
        code := ScanE0(idx);
        if code == NoKey {
          st := st.(unknown := st.unknown + 1);
          return Some(KeyEvent(Unknown(idx + 0x80), !released, st.shift, st.ctrl, st.alt, tick, None));
        }
      } else {
        code := BaseCode(idx);
      }
      if code == NoKey {
        return None;
      }
      var ev := Stroke(code, !released, tick);
      return Some(ev);
    }

    /** The end of `translate`: the modifier flags, the count and the event of a key. */
    method Stroke(code: KeyCode, pressed: bool, tick: nat) returns (ev: KeyEvent)
      modifies this`st
      ensures (st, Some(ev)) == Emit(old(st), code, pressed, tick)
    {
      hide CharFor, IsShift, IsCtrl, IsAlt;
      if IsShift(code) {
        st := st.(shift := pressed);
      } else if IsCtrl(code) {
        st := st.(ctrl := pressed);
      } else if IsAlt(code) {
        st := st.(alt := pressed);
      }
      st := st.(events := st.events + 1);
      return KeyEvent(code, pressed, st.shift, st.ctrl, st.alt, tick, CharFor(code, st.shift));
    }

    /** `poll`: decode the next pending byte; `took` tells an empty ring from a byte without an event. */
    method Poll() returns (r: Option<KeyEvent>, ghost took: bool)
      requires Valid()
      modifies this, ring
      ensures Valid() && took == (old(ring.contents) != []) && ring.dropped == old(ring.dropped)
      ensures var w := old(ring.contents);
              if took then
                (st, r) == Decode(old(st), w[0], clock(old(decoded))) && ring.contents == w[1..] && decoded == old(decoded) + 1
              else r == None && st == old(st) && ring.contents == w && decoded == old(decoded)
    {
      hide Decode;
      var byte := ring.Pop();
      if byte.None? {
        return None, false;
      }
      r := Translate(byte.value);
      took := true;
    }

    /** The handler pushes bytes while the main loop is interrupted. */
    method Receive(bytes: seq<byte>)
      requires Valid()
      modifies ring, ring.cells
      ensures Valid()
      ensures var k := Fit(|old(ring.contents)|, bytes);
              ring.contents == old(ring.contents) + bytes[..k] && ring.dropped == old(ring.dropped) + |bytes| - k
    {
      var i := 0;
      while i < |bytes|
        invariant 0 <= i <= |bytes| && Valid()
        invariant var k := Fit(|old(ring.contents)|, bytes[..i]);
                  ring.contents == old(ring.contents) + bytes[..k] && ring.dropped == old(ring.dropped) + i - k
      {
        ring.Push(bytes[i]);
        i := i + 1;
      }
      assert bytes[..|bytes|] == bytes;
    }

    /** Bytes arrive, then one poll; `taken` is the byte it takes, if any. */
    method PollAfter(arrived: seq<byte>) returns (ev: Option<KeyEvent>, ghost taken: seq<byte>)
      requires Valid()
      modifies this, ring, ring.cells
      ensures Valid() && decoded == old(decoded) + |taken|
      ensures var k := Fit(|old(ring.contents)|, arrived);
              var q := old(ring.contents) + arrived[..k];
              && ring.dropped == old(ring.dropped) + |arrived| - k
              && (if q == [] then taken == [] && ev == None && st == old(st) && ring.contents == q
                  else taken == [q[0]] && (st, ev) == Decode(old(st), q[0], clock(old(decoded))) && ring.contents == q[1..])
    {
      hide Decode, Fit, ScanRing.Valid;
      Receive(arrived);
      ghost var q := ring.contents;
      ghost var took;
      ev, took := Poll();
      taken := if took then [q[0]] else [];
    }

    /**
     Decode pending bytes into `out`, up to its capacity, stopping at the first byte without an event. Bytes arrive between
     its polls.
     */
    method Drain(out: array<KeyEvent>, arrivals: seq<seq<byte>>) returns (n: nat)
      requires Valid()
      modifies this, ring, ring.cells, out
      ensures Valid()
      ensures var r := DrainSpec(old(st), old(ring.contents), clock, old(decoded), out.Length, arrivals);
              && ring.contents == r.waiting && ring.dropped == old(ring.dropped) + r.dropped
              && n <= out.Length && out[..n] == DecodeEvents(old(st), Stamp(r.popped, clock, old(decoded)))
              && st == DecodeState(old(st), Stamp(r.popped, clock, old(decoded))) && decoded == old(decoded) + |r.popped|
    {
      hide Decode, Stamp, DecodeState, DecodeEvents, DrainSpec, Fit, ScanRing.Valid, SoFar;
      ghost var st0, d0, drops := st, decoded, ring.dropped;
      ghost var all := DrainSpec(st, ring.contents, clock, decoded, out.Length, arrivals);
      ghost var popped: seq<byte> := [];
      var left := arrivals;
      n := 0;
      StartDrain(st, ring.contents, clock, decoded, out.Length, arrivals);
      while n < out.Length
        invariant 0 <= n <= out.Length && Valid() && decoded == d0 + |popped| && ring.dropped >= drops
        invariant SoFar(all, st0, clock, d0, popped, ring.dropped - drops, st, ring.contents, out.Length - n, left, out[..n])
        decreases out.Length - n
      {
        var arrived := if left == [] then [] else left[0];
        DrainStep(all, st0, clock, d0, popped, ring.dropped - drops, st, ring.contents, out.Length - n, left, out[..n]);
        var ev;
        ghost var taken;
        ev, taken := PollAfter(arrived);
        popped := popped + taken;
        if ev.None? {
          return;
        }
        left := if left == [] then [] else left[1..];
        out[n] := ev.value;
        n := n + 1;
        assert out[..n] == out[..n - 1] + [ev.value];
      }
      DrainFull(all, st0, clock, d0, popped, ring.dropped - drops, st, ring.contents, left, out[..n]);
    }
  }

  /** A drain that already popped some bytes and dropped others. */
  ghost function Prepend(popped: seq<byte>, dropped: nat, r: Drained): Drained {
    r.(popped := popped + r.popped, dropped := dropped + r.dropped)
  }

  /** The same bytes popped, the same ring left, the same number dropped. */
  ghost predicate SameEnd(a: Drained, b: Drained) {
    a.popped == b.popped && a.waiting == b.waiting && a.dropped == b.dropped
  }

  /** Part of the drain `all`: `popped` bytes are decoded into `out`, `dropped` are lost, and the rest is still to come. */
  ghost predicate SoFar(all: Drained, st0: Decoder, clock: nat -> nat, d0: nat, popped: seq<byte>, dropped: nat,
                        st: Decoder, waiting: seq<byte>, room: nat, left: seq<seq<byte>>, out: seq<KeyEvent>)
  {
    && out == DecodeEvents(st0, Stamp(popped, clock, d0)) && st == DecodeState(st0, Stamp(popped, clock, d0))
    && SameEnd(all, Prepend(popped, dropped, DrainSpec(st, waiting, clock, d0 + |popped|, room, left)))
  }

  /** All of it. */
  ghost predicate Finished(all: Drained, st0: Decoder, clock: nat -> nat, d0: nat, popped: seq<byte>, dropped: nat,
                           st: Decoder, waiting: seq<byte>, out: seq<KeyEvent>)
  {
    && all.popped == popped && all.waiting == waiting && all.dropped == dropped
    && out == DecodeEvents(st0, Stamp(popped, clock, d0)) && st == DecodeState(st0, Stamp(popped, clock, d0))
  }

  lemma StartDrain(st: Decoder, waiting: seq<byte>, clock: nat -> nat, d: nat, room: nat, arrivals: seq<seq<byte>>)
    ensures SoFar(DrainSpec(st, waiting, clock, d, room, arrivals), st, clock, d, [], 0, st, waiting, room, arrivals, [])
  {
    hide DrainSpec;
    var r := DrainSpec(st, waiting, clock, d, room, arrivals);
    assert [] + r.popped == r.popped;
  }

  lemma DrainFull(all: Drained, st0: Decoder, clock: nat -> nat, d0: nat, popped: seq<byte>, dropped: nat,
                  st: Decoder, waiting: seq<byte>, left: seq<seq<byte>>, out: seq<KeyEvent>)
    requires SoFar(all, st0, clock, d0, popped, dropped, st, waiting, 0, left, out)
    ensures Finished(all, st0, clock, d0, popped, dropped, st, waiting, out)
  {
    assert popped + [] == popped;
  }

  /** One poll more: either the drain is finished or it goes on with one slot less. */
  lemma DrainStep(all: Drained, st0: Decoder, clock: nat -> nat, d0: nat, popped: seq<byte>, dropped: nat,
                  st: Decoder, waiting: seq<byte>, room: nat, left: seq<seq<byte>>, out: seq<KeyEvent>)
    requires room > 0 && SoFar(all, st0, clock, d0, popped, dropped, st, waiting, room, left, out)
    ensures var arrived := if left == [] then [] else left[0];
            var k := Fit(|waiting|, arrived);
            var q := waiting + arrived[..k];
            if q == [] then Finished(all, st0, clock, d0, popped + [], dropped + |arrived| - k, st, q, out)
            else
              var (st1, ev) := Decode(st, q[0], clock(d0 + |popped|));
              if ev.None? then Finished(all, st0, clock, d0, popped + [q[0]], dropped + |arrived| - k, st1, q[1..], out)
              else
                SoFar(all, st0, clock, d0, popped + [q[0]], dropped + |arrived| - k, st1, q[1..], room - 1,
                      if left == [] then [] else left[1..], out + [ev.value])
  {
    hide Decode, Fit, DecodeEvents, DecodeState, Stamp;
    var arrived := if left == [] then [] else left[0];
    var k := Fit(|waiting|, arrived);
    var q := waiting + arrived[..k];
    assert popped + [] == popped;
    if q != [] {
      OneMore(st0, popped, q[0], clock, d0);
      var (st1, ev) := Decode(st, q[0], clock(d0 + |popped|));
      if ev.Some? {
        var r := DrainSpec(st1, q[1..], clock, d0 + |popped| + 1, room - 1, if left == [] then [] else left[1..]);
        assert popped + ([q[0]] + r.popped) == popped + [q[0]] + r.popped;
      }
    }
  }

  lemma OneMore(st: Decoder, popped: seq<byte>, b: byte, clock: nat -> nat, d: nat)
    ensures var st1 := DecodeState(st, Stamp(popped, clock, d));
            var (st2, ev) := Decode(st1, b, clock(d + |popped|));
            var scans := Stamp(popped + [b], clock, d);
            && DecodeState(st, scans) == st2
            && DecodeEvents(st, scans) == DecodeEvents(st, Stamp(popped, clock, d)) + if ev.Some? then [ev.value] else []
  {
    hide Decode, DecodeState, DecodeEvents;
    StampConcat(popped, [b], clock, d);
    assert Stamp([b], clock, d + |popped|) == [Scan(b, clock(d + |popped|))];
    DecodeConcat(st, Stamp(popped, clock, d), [Scan(b, clock(d + |popped|))]);
    DecodeOne(DecodeState(st, Stamp(popped, clock, d)), Scan(b, clock(d + |popped|)));
  }
}
