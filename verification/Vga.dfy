/**
 The text console. The reference is an endless roll of 80-column lines of which the screen shows the last 25;
 the writer keeps only the screen and scrolls it in place.
 */
module Vga {
  import opened BootData

  const WIDTH: nat := 80
  const HEIGHT: nat := 25
  const SPACE: byte := 0x20

  /** All lines so far, oldest first, and the cursor; a column of 80 is a wrap that has not happened yet. */
  datatype Roll = Roll(lines: seq<seq<byte>>, line: nat, col: nat)

  predicate Fits(p: Roll) {
    && HEIGHT <= |p.lines| && |p.lines| - HEIGHT <= p.line < |p.lines| && p.col <= WIDTH
    && forall l | l in p.lines :: |l| == WIDTH
  }

  function BlankLine(): (l: seq<byte>)
    ensures |l| == WIDTH
  {
    seq(WIDTH, _ => SPACE)
  }

  function EmptyRoll(): (p: Roll)
    ensures Fits(p)
  {
    Roll(seq(HEIGHT, _ => BlankLine()), 0, 0)
  }

  function Advance(p: Roll): (q: Roll)
    requires Fits(p)
    ensures Fits(q)
  {
    if p.line + 1 < |p.lines| then Roll(p.lines, p.line + 1, 0) else Roll(p.lines + [BlankLine()], p.line + 1, 0)
  }

  /** The roll with one glyph replaced. */
  function Mark(p: Roll, col: nat, ch: byte): (lines: seq<seq<byte>>)
    requires Fits(p) && col < WIDTH
    ensures Fits(p.(lines := lines)) && |lines| == |p.lines|
  {
    var l: seq<byte> := p.lines[p.line];
    p.lines[p.line := l[col := ch]]
  }

  function Print(p: Roll, ch: byte): (q: Roll)
    requires Fits(p)
    ensures Fits(q)
  {
    var w := if p.col >= WIDTH then Advance(p) else p;
    Roll(Mark(w, w.col, ch), w.line, w.col + 1)
  }

  /** Back one place and blank it; the cursor does not leave the screen upwards. */
  function Erase(p: Roll): (q: Roll)
    requires Fits(p)
    ensures Fits(q)
  {
    if p.col > 0 then Roll(Mark(p, p.col - 1, SPACE), p.line, p.col - 1)
    else if p.line > |p.lines| - HEIGHT then
      var up := p.(line := p.line - 1);
      Roll(Mark(up, WIDTH - 1, SPACE), up.line, WIDTH - 1)
    else p
  }

  predicate Printable(b: byte) {
    0x20 <= b && b != 0x7F
  }

  function Write(p: Roll, b: byte): (q: Roll)
    requires Fits(p)
    ensures Fits(q)
  {
    if b == 0x0A then Advance(p)
    else if b == 0x0D then p.(col := 0)
    else if b == 0x08 then Erase(p)
    else if b == 0x09 then var next := (p.col + 8) / 8 * 8; p.(col := if next < WIDTH then next else WIDTH - 1)
    else if !Printable(b) then Print(Print(p, 0x5E), b + 0x40)
    else Print(p, b)
  }

  function WriteAll(p: Roll, s: seq<byte>): (q: Roll)
    requires Fits(p)
    ensures Fits(q)
  {
    if s == [] then p else Write(WriteAll(p, s[..|s| - 1]), s[|s| - 1])
  }

  /** The lines above the screen of `p` are the same in `q`. */
  ghost predicate KeepsPast(p: Roll, q: Roll) {
    |p.lines| <= |q.lines| && forall k: nat | k + HEIGHT < |p.lines| :: q.lines[k] == p.lines[k]
  }

  /** A line that has left the screen never changes again, whatever is written. */
  lemma {:induction false} PastKept(p: Roll, s: seq<byte>)
    requires Fits(p)
    ensures KeepsPast(p, WriteAll(p, s))
  {
    hide Fits, Write;
    if s != [] {
      PastKept(p, s[..|s| - 1]);
      WriteKeepsPast(WriteAll(p, s[..|s| - 1]), s[|s| - 1]);
    }
  }

  lemma WriteKeepsPast(p: Roll, b: byte)
    requires Fits(p)
    ensures KeepsPast(p, Write(p, b))
  {
    hide Print;
    PrintKeepsPast(p, 0x5E);
    PrintKeepsPast(p, b);
    if b < 0x20 || b == 0x7F {
      PrintKeepsPast(Print(p, 0x5E), b + 0x40);
    }
  }

  lemma PrintKeepsPast(p: Roll, ch: byte)
    requires Fits(p)
    ensures KeepsPast(p, Print(p, ch))
  {
  }

  /** Place of the cursor when the lines are laid end to end. */
  function Position(p: Roll): nat {
    p.line * WIDTH + p.col
  }

  /** The glyph at a place of the lines laid end to end. */
  function Glyph(p: Roll, i: nat): byte
    requires Fits(p) && i / WIDTH < |p.lines|
  {
    p.lines[i / WIDTH][i % WIDTH]
  }

  /** Printable text is laid end to end from the cursor, over as many line ends and scrolls as it takes. */
  lemma {:induction false} TextLaidOut(p: Roll, s: seq<byte>, i: nat)
    requires Fits(p) && forall b | b in s :: Printable(b)
    ensures var q := WriteAll(p, s);
            && Position(q) == Position(p) + |s|
            && (i < Position(q) ==> i / WIDTH < |q.lines|)
            && (i < Position(p) ==> i / WIDTH < |p.lines| && Glyph(q, i) == Glyph(p, i))
            && (Position(p) <= i < Position(q) ==> Glyph(q, i) == s[i - Position(p)])
    decreases |s|
  {
    hide Fits, Print;
    if s != [] {
      var n := |s| - 1;
      var m := WriteAll(p, s[..n]);
      TextLaidOut(p, s[..n], i);
      assert s[n] in s && WriteAll(p, s) == Print(m, s[n]);
      PrintLaidOut(m, s[n], i);
    } else {
      PlaceInRoll(p, i);
    }
  }

  lemma PlaceInRoll(p: Roll, i: nat)
    requires Fits(p)
    ensures i < Position(p) ==> i / WIDTH < |p.lines|
  {
  }

  lemma PrintLaidOut(p: Roll, ch: byte, i: nat)
    requires Fits(p)
    ensures var q := Print(p, ch);
            && Position(q) == Position(p) + 1
            && (i < Position(q) ==> i / WIDTH < |q.lines|)
            && (i < Position(p) ==> i / WIDTH < |p.lines| && Glyph(q, i) == Glyph(p, i))
            && (i == Position(p) ==> Glyph(q, i) == ch)
  {
    PlaceInRoll(p, i);
    var w := if p.col >= WIDTH then Advance(p) else p;
    assert Position(w) == Position(p);
    assert i == w.line * WIDTH + w.col ==> i / WIDTH == w.line && i % WIDTH == w.col;
    assert i < Position(w) && i / WIDTH == w.line ==> i % WIDTH < w.col;
  }

  /** The glyphs of `p` are the glyphs of `q`, except perhaps at place `at`. */
  ghost predicate SameGlyphs(p: Roll, q: Roll, at: nat)
    requires Fits(p) && Fits(q)
  {
    |p.lines| <= |q.lines| && forall i: nat | i / WIDTH < |p.lines| && i != at :: Glyph(q, i) == Glyph(p, i)
  }

  /** Newline goes to the start of the next line, also from a line that is just full; carriage return to the start of this one. */
  lemma LineEnds(p: Roll)
    requires Fits(p)
    ensures var q := Write(p, 0x0A);
            && Position(q) == (p.line + 1) * 80 && p.lines <= q.lines
            && (forall i: nat | |p.lines| * 80 <= i < |q.lines| * 80 :: i / WIDTH < |q.lines| && Glyph(q, i) == 0x20)
    ensures Write(p, 0x0D) == p.(col := 0) && Position(Write(p, 0x0D)) == p.line * 80
  {
    hide Fits;
  }

  /** Tab moves to the next column that is a multiple of eight, or to the last column when there is none, and writes nothing. */
  lemma TabStops(p: Roll)
    requires Fits(p)
    ensures var q := Write(p, 0x09);
            && q.lines == p.lines && q.line == p.line && q.col < 80
            && (p.col < 72 ==> q.col % 8 == 0 && p.col < q.col <= p.col + 8)
            && (p.col >= 72 ==> q.col == 79)
  {
  }

  /** Another control byte shows as a caret and the byte 64 above it. */
  lemma CaretPair(p: Roll, b: byte, i: nat)
    requires Fits(p) && (b < 0x20 || b == 0x7F) && b != 0x0A && b != 0x0D && b != 0x08 && b != 0x09
    ensures var q := Write(p, b);
            && Position(q) == Position(p) + 2
            && (i < Position(q) ==> i / WIDTH < |q.lines|)
            && (i < Position(p) ==> i / WIDTH < |p.lines| && Glyph(q, i) == Glyph(p, i))
            && (i == Position(p) ==> Glyph(q, i) == 0x5E) && (i == Position(p) + 1 ==> Glyph(q, i) == b + 64)
  {
    hide Fits, Print;
    PrintLaidOut(p, 0x5E, i);
    PrintLaidOut(Print(p, 0x5E), b + 0x40, i);
  }

  /** Backspace moves back one place and blanks it, across line starts, unless the cursor is at the top left of the screen. */
  lemma BackspaceLaw(p: Roll)
    requires Fits(p)
    ensures var q, top := Write(p, 0x08), (|p.lines| - 25) * 80;
            && (Position(p) == top ==> q == p)
            && (Position(p) > top ==>
                  && Position(q) == Position(p) - 1 && |q.lines| == |p.lines|
                  && Position(q) / WIDTH < |q.lines| && Glyph(q, Position(q)) == 0x20 && SameGlyphs(p, q, Position(q)))
  {
  }

  function Backspaces(n: nat): (s: seq<byte>)
    ensures |s| == n
  {
    seq(n, _ => 0x08)
  }

  /** `n` backspaces blank the `n` places before the cursor, as far as the top of the screen, and no other. */
  lemma {:induction false} BackspaceRun(p: Roll, n: nat, i: nat)
    requires Fits(p)
    ensures var q, top := WriteAll(p, Backspaces(n)), (|p.lines| - 25) * 80;
            && Position(q) == (if Position(p) >= top + n then Position(p) - n else top) && |q.lines| == |p.lines|
            && (i / WIDTH < |p.lines| ==> Glyph(q, i) == if Position(q) <= i < Position(p) then 0x20 else Glyph(p, i))
  {
    hide Fits, Write;
    if n > 0 {
      BackspaceRun(p, n - 1, i);
      assert Backspaces(n)[..n - 1] == Backspaces(n - 1);
      BackspaceLaw(WriteAll(p, Backspaces(n - 1)));
    } else {
      AboveTop(p);
    }
  }

  lemma AboveTop(p: Roll)
    requires Fits(p)
    ensures Position(p) >= (|p.lines| - 25) * 80
  {
  }

  /**
   Typing printable text and erasing it again brings the cursor back if and only if the place where it began is still on the
   screen; what stood before the text and is not erased stays.
   */
  lemma TypeThenErase(p: Roll, s: seq<byte>, i: nat)
    requires Fits(p) && forall b | b in s :: Printable(b)
    ensures var typed := WriteAll(p, s);
            var q := WriteAll(typed, Backspaces(|s|));
            && (Position(q) == Position(p) <==> Position(p) >= (|typed.lines| - 25) * 80)
            && (i < Position(p) ==> i / WIDTH < |p.lines| && i / WIDTH < |q.lines| && Glyph(q, i) == Glyph(p, i))
            && (Position(q) <= i < Position(p) + |s| ==> i / WIDTH < |q.lines| && Glyph(q, i) == 0x20)
  {
    hide Fits, Write, Printable;
    TextLaidOut(p, s, i);
    BackspaceRun(WriteAll(p, s), |s|, i);
  }

  // The screen.

  function Cell(row: nat, col: nat): nat {
    row * WIDTH + col
  }

  /** The screen shows the last 25 lines of the roll. */
  ghost predicate Shows(cells: seq<byte>, lines: seq<seq<byte>>) {
    && |cells| == WIDTH * HEIGHT && HEIGHT <= |lines|
    && forall r: nat, c: nat | r < HEIGHT && c < WIDTH ::
         |lines[|lines| - HEIGHT + r]| == WIDTH && cells[Cell(r, c)] == lines[|lines| - HEIGHT + r][c]
  }

  lemma MarkShows(cells: seq<byte>, p: Roll, row: nat, col: nat, ch: byte)
    requires Fits(p) && Shows(cells, p.lines) && row < HEIGHT && col < WIDTH && row + |p.lines| == p.line + HEIGHT
    ensures Shows(cells[Cell(row, col) := ch], Mark(p, col, ch))
  {
  }

  lemma ScrolledShows(cells: seq<byte>, cells': seq<byte>, p: Roll)
    requires Fits(p) && Shows(cells, p.lines) && |cells'| == WIDTH * HEIGHT
    requires forall i: nat | i < WIDTH * HEIGHT ::
               cells'[i] == if i < Cell(HEIGHT - 1, 0) then cells[i + WIDTH] else SPACE
    ensures Shows(cells', p.lines + [BlankLine()])
  {
    var next := p.lines + [BlankLine()];
    forall r: nat, c: nat | r < HEIGHT && c < WIDTH
      ensures |next[|next| - HEIGHT + r]| == WIDTH && cells'[Cell(r, c)] == next[|next| - HEIGHT + r][c]
    {
      if r < HEIGHT - 1 {
        assert Cell(r + 1, c) == Cell(r, c) + WIDTH;
        assert cells[Cell(r + 1, c)] == p.lines[|p.lines| - HEIGHT + (r + 1)][c];
      } else {
        assert next[|next| - HEIGHT + r] == BlankLine();
      }
    }
  }

  class VgaWriter {
    const cells: array<byte>
    var row: nat
    var column: nat
    ghost var roll: Roll

    ghost predicate Valid()
      reads this, cells
    {
      && Fits(roll) && Shows(cells[..], roll.lines)
      && row + |roll.lines| == roll.line + HEIGHT && column == roll.col
    }

    constructor ()
      ensures Valid() && fresh(cells) && roll == EmptyRoll()
    {
      cells := new byte[WIDTH * HEIGHT](_ => SPACE);
      row, column, roll := 0, 0, EmptyRoll();
    }

    method ClearLine(r: nat)
      requires cells.Length == WIDTH * HEIGHT
      modifies cells
      ensures forall i: nat | i < cells.Length ::
                cells[i] == if r < HEIGHT && Cell(r, 0) <= i < Cell(r + 1, 0) then SPACE else old(cells[i])
    {
      if r >= HEIGHT {
        return;
      }
      for c := 0 to WIDTH
        invariant forall i: nat | i < cells.Length ::
                    cells[i] == if Cell(r, 0) <= i < Cell(r, c) then SPACE else old(cells[i])
      {
        cells[Cell(r, c)] := SPACE;
      }
    }

    /** One row of the scroll: row `r` is copied over the row above it. */
    method CopyUp(r: nat)
      requires cells.Length == WIDTH * HEIGHT && 0 < r < HEIGHT
      modifies cells
      ensures forall i: nat | i < cells.Length ::
                cells[i] == if Cell(r - 1, 0) <= i < Cell(r, 0) then old(cells[i + WIDTH]) else old(cells[i])
    {
      for c := 0 to WIDTH
        invariant forall i: nat | i < cells.Length ::
                    cells[i] == if Cell(r - 1, 0) <= i < Cell(r - 1, c) then old(cells[i + WIDTH]) else old(cells[i])
      {
        cells[Cell(r - 1, c)] := cells[Cell(r, c)];
      }
    }

    /** Every line moves up one, the top one is lost and the bottom one is blank. */
    method ScrollUp()
      requires cells.Length == WIDTH * HEIGHT
      modifies cells
      ensures forall i: nat | i < cells.Length ::
                cells[i] == if i < Cell(HEIGHT - 1, 0) then old(cells[i + WIDTH]) else SPACE
    {
      var r := 1;
      while r < HEIGHT
        invariant 1 <= r <= HEIGHT
        invariant forall i: nat | i < cells.Length ::
                    cells[i] == if i < Cell(r - 1, 0) then old(cells[i + WIDTH]) else old(cells[i])
      {
        CopyUp(r);
        r := r + 1;
      }
      ClearLine(HEIGHT - 1);
    }

    method NewLine()
      requires Valid()
      modifies this, cells
      ensures Valid() && roll == Advance(old(roll))
    {
      column := 0;
      if row < HEIGHT - 1 {
        row := row + 1;
      } else {
        ghost var before := cells[..];
        ScrollUp();
        ScrolledShows(before, cells[..], roll);
      }
      roll := Advance(roll);
    }

    method Put(ch: byte)
      requires Valid()
      modifies this, cells
      ensures Valid() && roll == Print(old(roll), ch)
    {
      hide Shows;
      if column >= WIDTH {
        NewLine();
      }
      Set(column, ch);
      column := column + 1;
      roll := roll.(col := roll.col + 1);
    }

    /** One cell of the current row. */
    method Set(col: nat, ch: byte)
      requires Valid() && col < WIDTH
      modifies cells, this`roll
      ensures Valid() && roll == old(roll).(lines := Mark(old(roll), col, ch))
    {
      hide Mark;
      MarkShows(cells[..], roll, row, col, ch);
      RowInScreen(cells[..], roll.lines);
      cells[Cell(row, col)] := ch;
      assert cells[..] == old(cells[..])[Cell(row, col) := ch];
      roll := roll.(lines := Mark(roll, col, ch));
    }

    method Backspace()
      requires Valid()
      modifies this, cells
      ensures Valid() && roll == Erase(old(roll))
    {
      hide Shows;
      if column > 0 {
        column, roll := column - 1, roll.(col := roll.col - 1);
      } else if row > 0 {
        row, column, roll := row - 1, WIDTH - 1, roll.(line := roll.line - 1, col := WIDTH - 1);
      } else {
        return;
      }
      Set(column, SPACE);
    }

    method WriteByte(b: byte)
      requires Valid()
      modifies this, cells
      ensures Valid() && roll == Write(old(roll), b)
    {
      hide Shows, Print, Advance, Erase;
      if b == 0x0A {
        NewLine();
      } else if b == 0x0D {
        column, roll := 0, roll.(col := 0);
      } else if b == 0x08 {
        Backspace();
      } else if b == 0x09 {
        var next := (column + 8) / 8 * 8;
        column := if next < WIDTH - 1 then next else WIDTH - 1;
        roll := roll.(col := column);
      } else if b < 0x20 || b == 0x7F {
        Put(0x5E);
        Put(b + 0x40);
      } else {
        Put(b);
      }
    }

    /** Text with every byte that is not ASCII shown as a question mark. */
    method WriteStr(s: seq<byte>)
      requires Valid()
      modifies this, cells
      ensures Valid() && roll == WriteAll(old(roll), Ascii(s))
    {
      hide Shows, Write, Fits;
      for i := 0 to |s|
        invariant Valid() && Fits(roll) && roll == WriteAll(old(roll), Ascii(s)[..i])
      {
        assert Ascii(s)[..i + 1][..i] == Ascii(s)[..i];
        WriteByte(if s[i] < 0x80 then s[i] else 0x3F);
      }
      assert Ascii(s)[..|s|] == Ascii(s);
    }
  }

  lemma RowInScreen(cells: seq<byte>, lines: seq<seq<byte>>)
    requires Shows(cells, lines)
    ensures |cells| == WIDTH * HEIGHT
  {
  }

  function Ascii(s: seq<byte>): (t: seq<byte>)
    ensures |t| == |s|
  {
    seq(|s|, i requires 0 <= i < |s| => if s[i] < 0x80 then s[i] else 0x3F)
  }
}
