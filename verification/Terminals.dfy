/** The VGA terminal: a fixed buffer, scrolled in place, that shows the end of an unbounded log. */
module Terminals {
  import opened Bits
  import opened Screen

  const CELLS: nat := WIDTH * HEIGHT
  const NEWLINE: nat := 10
  /** VGA_COLOR_LIGHT_GREEN on VGA_COLOR_BLACK: fg | bg << 4 */
  const DEFAULT_COLOR: nat := 10

  /** make_vga_char: the character in the low byte, the colour in the high one. */
  function MakeVgaChar(c: nat): Cell { Or(c, DEFAULT_COLOR * 256) }

  /** Light green on black for every character. */
  lemma CharCell(c: nat)
    requires c < 256
    ensures MakeVgaChar(c) == 0x0a00 + c
  {
    assert Pow2(8) == 256;
    ShiftSix(10, 8);
    ShiftTwo(10);
    OrAboveBelow(10, c, 8);
    OrCommutes(c, 2560);
  }

  lemma BlankCell()
    ensures MakeVgaChar(32) == BLANK
  {
    CharCell(32);
  }

  lemma ShiftTwo(x: nat)
    ensures Shl(x, 2) == 4 * x
  {
    assert Shl(x, 2) == 2 * Shl(x, 1) && Shl(x, 1) == 2 * Shl(x, 0);
  }

  lemma {:induction false} OrCommutes(a: nat, b: nat)
    ensures Or(a, b) == Or(b, a)
  {
    if a != 0 && b != 0 {
      OrCommutes(a / 2, b / 2);
    }
  }

  /** The cell of a buffer at column x of row y. */
  function At(s: seq<Cell>, x: nat, y: nat): Cell
    requires |s| == CELLS && x < WIDTH && y < HEIGHT
  {
    s[x + y * WIDTH]
  }

  lemma CellsDiffer(x: nat, y: nat, u: nat, v: nat)
    requires x < WIDTH && u < WIDTH && x + y * WIDTH == u + v * WIDTH
    ensures x == u && y == v
  {
    assert (x + y * 80) / 80 == y && (u + v * 80) / 80 == v;
  }

  lemma UpdateAt(s: seq<Cell>, x: nat, y: nat, c: Cell)
    requires |s| == CELLS && x < WIDTH && y < HEIGHT
    ensures forall u: nat, v: nat {:trigger At(s[x + y * WIDTH := c], u, v)} :: u < WIDTH && v < HEIGHT ==>
              At(s[x + y * WIDTH := c], u, v) == if u == x && v == y then c else At(s, u, v)
  {
    forall u: nat, v: nat | u < WIDTH && v < HEIGHT
      ensures At(s[x + y * WIDTH := c], u, v) == if u == x && v == y then c else At(s, u, v)
    {
      if x + y * WIDTH == u + v * WIDTH {
        CellsDiffer(x, y, u, v);
      }
    }
  }

  // ------------------------------------------------------ the screen, on lines

  /** The row the cursor is on. */
  function CursorRow(lines: seq<seq<Cell>>): int {
    (if |lines| < HEIGHT then |lines| else HEIGHT) - 1
  }

  lemma ShownAfterPut(lines: seq<seq<Cell>>, c: Cell, x: nat, y: nat)
    requires lines != [] && |Last(lines)| < WIDTH && x < WIDTH && y < HEIGHT
    ensures Shown(lines[|lines| - 1 := Last(lines) + [c]], x, y)
         == if x == |Last(lines)| && y == CursorRow(lines) then c else Shown(lines, x, y)
  {
  }

  lemma ShownAfterNewLine(lines: seq<seq<Cell>>, x: nat, y: nat)
    requires lines != [] && x < WIDTH && y < HEIGHT
    ensures |lines| < HEIGHT ==> Shown(lines + [[]], x, y) == Shown(lines, x, y)
    ensures |lines| >= HEIGHT ==>
              Shown(lines + [[]], x, y) == if y < HEIGHT - 1 then Shown(lines, x, y + 1) else BLANK
  {
  }

  class Terminal {
    /** The column within the line; the source calls it row. */
    var row: nat
    /** The line on the screen; the source calls it col. */
    var col: nat
    const buffer: array<Cell>
    /** Everything printed since the terminal was cleared. */
    ghost var log: seq<Event>

    /** The buffer and the line counter show these lines. */
    ghost predicate Shows(lines: seq<seq<Cell>>)
      reads this`col, buffer
    {
      && buffer.Length == CELLS && lines != [] && (forall i :: 0 <= i < |lines| ==> |lines[i]| <= WIDTH)
      && col == CursorRow(lines)
      && (forall x: nat, y: nat :: x < WIDTH && y < HEIGHT ==> At(buffer[..], x, y) == Shown(lines, x, y))
    }

    /** The screen shows the end of the log, and the cursor is at the end of its last line. */
    ghost predicate Valid()
      reads this, buffer
    {
      Shows(Lines(log)) && row == |Last(Lines(log))| < WIDTH
    }

    /** init_terminal, before its greeting. */
    constructor ()
      ensures Valid() && fresh(buffer) && log == []
    {
      row, col := 0, 0;
      buffer := new Cell[CELLS];
      log := [];
      new;
      ClearTerminal();
    }

    /** terminal_put_char_at */
    method PutCharAt(c: Cell, x: nat, y: nat)
      requires buffer.Length == CELLS && x < WIDTH && y < HEIGHT
      modifies buffer
      ensures forall u: nat, v: nat {:trigger At(buffer[..], u, v)} :: u < WIDTH && v < HEIGHT ==>
                At(buffer[..], u, v) == if u == x && v == y then c else At(old(buffer[..]), u, v)
    {
      ghost var s := buffer[..];
      UpdateAt(s, x, y, c);
      buffer[x + y * WIDTH] := c;
      assert buffer[..] == s[x + y * WIDTH := c];
    }

    method ClearTerminal()
      requires buffer.Length == CELLS
      modifies buffer
      ensures forall x: nat, y: nat :: x < WIDTH && y < HEIGHT ==> At(buffer[..], x, y) == BLANK
    {
      BlankCell();
      for x := 0 to WIDTH
        invariant forall u, v :: 0 <= u < x && 0 <= v < HEIGHT ==> At(buffer[..], u, v) == BLANK
      {
        for y := 0 to HEIGHT
          invariant forall u, v :: 0 <= u < x && 0 <= v < HEIGHT ==> At(buffer[..], u, v) == BLANK
          invariant forall v :: 0 <= v < y ==> At(buffer[..], x, v) == BLANK
        {
          PutCharAt(MakeVgaChar(32), x, y);
        }
      }
    }

    /** The columns left of x, and the rows above y of column x, have moved up by one. */
    ghost predicate Scrolled(s: seq<Cell>, x: nat, y: nat)
      requires |s| == CELLS && buffer.Length == CELLS
      reads buffer
    {
      forall u: nat, v: nat {:trigger At(buffer[..], u, v)} :: u < WIDTH && v < HEIGHT ==>
        At(buffer[..], u, v) ==
          if v < HEIGHT - 1 && (u < x || (u == x && v < y)) then At(s, u, v + 1) else At(s, u, v)
    }

    /** Moves every row up by one, column by column in place, and blanks the last row. */
    method ScrollTerminal()
      requires buffer.Length == CELLS
      modifies buffer
      ensures forall x: nat, y: nat {:trigger At(buffer[..], x, y)} :: x < WIDTH && y < HEIGHT ==>
                At(buffer[..], x, y) == if y < HEIGHT - 1 then At(old(buffer[..]), x, y + 1) else BLANK
    {
      ghost var s := buffer[..];
      for x := 0 to WIDTH
        invariant Scrolled(s, x, 0)
      {
        for y := 0 to HEIGHT - 1
          invariant Scrolled(s, x, y)
        {
          MoveUp(s, x, y);
        }
        assert Scrolled(s, x + 1, 0);
      }
      BlankCell();
      for x := 0 to WIDTH
        invariant forall u: nat, v: nat {:trigger At(buffer[..], u, v)} :: u < WIDTH && v < HEIGHT ==>
                    At(buffer[..], u, v) ==
                      if v < HEIGHT - 1 then At(s, u, v + 1) else if u < x then BLANK else At(s, u, v)
      {
        PutCharAt(MakeVgaChar(32), x, HEIGHT - 1);
      }
    }

    /** terminal.buffer[x + y * row_max] = terminal.buffer[x + (1+y) * row_max] */
    method MoveUp(ghost s: seq<Cell>, x: nat, y: nat)
      requires |s| == CELLS && buffer.Length == CELLS && x < WIDTH && y < HEIGHT - 1 && Scrolled(s, x, y)
      modifies buffer
      ensures Scrolled(s, x, y + 1)
    {
      var c := buffer[x + (1 + y) * WIDTH];
      assert c == At(buffer[..], x, y + 1) == At(s, x, y + 1);
      PutCharAt(c, x, y);
    }

    /** The cursor goes to the start of the next line; the screen scrolls if there is none. */
    method NextLine(ghost lines: seq<seq<Cell>>)
      requires Shows(lines)
      modifies this`row, this`col, buffer
      ensures Shows(lines + [[]]) && row == 0
    {
      row := 0;
      col := col + 1;
      if col == HEIGHT {
        ScrollTerminal();
        col := col - 1;
      }
      forall x: nat, y: nat | x < WIDTH && y < HEIGHT
        ensures At(buffer[..], x, y) == Shown(lines + [[]], x, y)
      {
        ShownAfterNewLine(lines, x, y);
      }
    }

    /** print_newline */
    method PrintNewline()
      requires Valid()
      modifies this, buffer
      ensures Valid() && log == old(log) + [NewLine]
    {
      Extend(log, NewLine);
      NextLine(Lines(log));
      log := log + [NewLine];
    }

    /** terminal_put_char: wraps as soon as the line is full. */
    method TerminalPutChar(c: Cell)
      requires Valid()
      modifies this, buffer
      ensures Valid() && log == old(log) + [Put(c)]
    {
      Extend(log, Put(c));
      PutOnScreen(c, Lines(log));
      log := log + [Put(c)];
    }

    method PutOnScreen(c: Cell, ghost lines: seq<seq<Cell>>)
      requires Shows(lines) && row == |Last(lines)| < WIDTH
      modifies this`row, this`col, buffer
      ensures Shows(PutCell(lines, c)) && row == |Last(PutCell(lines, c))| < WIDTH
    {
      ghost var grown := lines[|lines| - 1 := Last(lines) + [c]];
      PutCharAt(c, row, col);
      row := row + 1;
      forall x: nat, y: nat | x < WIDTH && y < HEIGHT
        ensures At(buffer[..], x, y) == Shown(grown, x, y)
      {
        ShownAfterPut(lines, c, x, y);
      }
      if row == WIDTH {
        row := 0;
        NextLine(grown);
      }
    }

    /** print_tab */
    method PrintTab()
      requires Valid()
      modifies this, buffer
      ensures Valid() && log == old(log) + [Tab]
    {
      hide Shows;
      ghost var lines := Lines(log);
      Extend(log, Tab);
      var curCol := row;
      var spacesNeeded := TAB - curCol % TAB;
      if spacesNeeded + curCol >= WIDTH {
        NextLine(lines);
      } else {
        BlankCell();
        for i := 0 to spacesNeeded
          invariant log == old(log)
          invariant Shows(PutCells(lines, BLANK, i)) && row == |Last(PutCells(lines, BLANK, i))| < WIDTH
        {
          PutOnScreen(MakeVgaChar(32), PutCells(lines, BLANK, i));
        }
      }
      log := log + [Tab];
    }

    /** print_text */
    method PrintText(text: seq<nat>)
      requires Valid()
      modifies this, buffer
      ensures Valid() && log == old(log) + TextEvents(text)
    {
      for i := 0 to |text|
        invariant Valid() && log == old(log) + TextEvents(text[..i])
      {
        assert text[..i + 1][..i] == text[..i];
        if text[i] == NEWLINE {
          PrintNewline();
        } else {
          TerminalPutChar(MakeVgaChar(text[i]));
        }
      }
      assert text[..|text|] == text;
    }
  }

  function TextEvents(text: seq<nat>): seq<Event> {
    if text == [] then []
    else
      var c := text[|text| - 1];
      TextEvents(text[..|text| - 1]) + [if c == NEWLINE then NewLine else Put(MakeVgaChar(c))]
  }

  lemma Extend(log: seq<Event>, e: Event)
    ensures Lines(log + [e]) == Apply(Lines(log), e)
  {
    assert (log + [e])[..|log|] == log;
  }

  /** A text is its characters in order: character 10 a newline, every other one a cell. */
  lemma {:induction false} TextIs(text: seq<nat>)
    requires forall i :: 0 <= i < |text| ==> text[i] < 256
    ensures |TextEvents(text)| == |text|
    ensures forall i :: 0 <= i < |text| ==>
              TextEvents(text)[i] == if text[i] == 10 then NewLine else Put(0x0a00 + text[i])
  {
    hide MakeVgaChar;
    if text != [] {
      TextIs(text[..|text| - 1]);
      CharCell(text[|text| - 1]);
    }
  }

  /** The buffer in figures: 80 times 25 cells that show the last 25 lines of the log, padded with
      blanks, and the cursor at the end of its last line. */
  lemma ScreenIs(t: Terminal, x: nat, y: nat)
    requires t.Valid() && x < 80 && y < 25
    ensures var lines := Lines(t.log);
      var n := |lines|;
      var i := (if n > 25 then n - 25 else 0) + y;
      && t.buffer.Length == 2000 && n > 0
      && t.buffer[x + 80 * y] == (if i < n && x < |lines[i]| then lines[i][x] else 0x0a20)
      && t.row == |lines[n - 1]| < 80 && t.col == (if n < 25 then n else 25) - 1
  {
    assert At(t.buffer[..], x, y) == Shown(Lines(t.log), x, y);
  }
}
