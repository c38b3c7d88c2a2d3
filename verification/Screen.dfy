/** What the terminal shows: an unbounded log of output, broken into lines of 80 cells, of which
    the screen holds the last 25. */
module Screen {

  const WIDTH: nat := 80
  const HEIGHT: nat := 25
  const TAB: nat := 4
  /** make_vga_char(' ', light green on black) */
  const BLANK: nat := 0x0a20

  type Cell = nat

  datatype Event = Put(c: Cell) | NewLine | Tab

  // ------------------------------------------------------------------- lines

  function Last(lines: seq<seq<Cell>>): seq<Cell>
    requires lines != []
  {
    lines[|lines| - 1]
  }

  /** A cell joins the last line; a line that becomes full is followed by a new one. */
  function PutCell(lines: seq<seq<Cell>>, c: Cell): (r: seq<seq<Cell>>)
    requires lines != []
    ensures r != []
  {
    var full := lines[|lines| - 1 := Last(lines) + [c]];
    if |Last(lines)| + 1 == WIDTH then full + [[]] else full
  }

  function PutCells(lines: seq<seq<Cell>>, c: Cell, n: nat): (r: seq<seq<Cell>>)
    requires lines != []
    ensures r != []
  {
    if n == 0 then lines else PutCell(PutCells(lines, c, n - 1), c)
  }

  /** A tab goes to the next multiple of four, or to a new line if that is not on the line. */
  function PutTab(lines: seq<seq<Cell>>): (r: seq<seq<Cell>>)
    requires lines != []
    ensures r != []
  {
    var column := |Last(lines)|;
    var spaces := TAB - column % TAB;
    if spaces + column >= WIDTH then lines + [[]] else PutCells(lines, BLANK, spaces)
  }

  function Apply(lines: seq<seq<Cell>>, e: Event): (r: seq<seq<Cell>>)
    requires lines != []
    ensures r != []
  {
    match e
    case Put(c) => PutCell(lines, c)
    case NewLine => lines + [[]]
    case Tab => PutTab(lines)
  }

  /** The lines of everything printed since the screen was cleared. */
  function Lines(log: seq<Event>): (r: seq<seq<Cell>>)
    ensures r != []
  {
    if log == [] then [[]] else Apply(Lines(log[..|log| - 1]), log[|log| - 1])
  }

  /** No line is longer than the screen is wide, and there is room on the last one. */
  ghost predicate Wrapped(lines: seq<seq<Cell>>) {
    lines != [] && (forall i :: 0 <= i < |lines| ==> |lines[i]| <= WIDTH) && |Last(lines)| < WIDTH
  }

  lemma {:induction false} PutCellsOnLine(lines: seq<seq<Cell>>, c: Cell, n: nat)
    requires Wrapped(lines) && |Last(lines)| + n < WIDTH
    ensures var r := PutCells(lines, c, n); Wrapped(r) && |r| == |lines| && |Last(r)| == |Last(lines)| + n
  {
    if n > 0 {
      PutCellsOnLine(lines, c, n - 1);
    }
  }

  lemma ApplyKeepsWrapped(lines: seq<seq<Cell>>, e: Event)
    requires Wrapped(lines)
    ensures Wrapped(Apply(lines, e))
  {
    if e.Tab? {
      var column := |Last(lines)|;
      if TAB - column % TAB + column < WIDTH {
        PutCellsOnLine(lines, BLANK, TAB - column % TAB);
      }
    }
  }

  lemma {:induction false} LinesAreWrapped(log: seq<Event>)
    ensures Wrapped(Lines(log))
  {
    if log != [] {
      LinesAreWrapped(log[..|log| - 1]);
      ApplyKeepsWrapped(Lines(log[..|log| - 1]), log[|log| - 1]);
    }
  }

  /** After a tab the column is a multiple of four. */
  lemma TabAligns(log: seq<Event>)
    ensures |Last(Lines(log + [Tab]))| % 4 == 0
  {
    var lines := Lines(log);
    assert (log + [Tab])[..|log|] == log;
    LinesAreWrapped(log);
    var column := |Last(lines)|;
    if TAB - column % TAB + column < WIDTH {
      PutCellsOnLine(lines, BLANK, TAB - column % TAB);
    }
  }

  function Blanks(n: nat): seq<Cell> {
    seq(n, _ => 0x0a20)
  }

  lemma {:induction false} PutBlanks(lines: seq<seq<Cell>>, n: nat)
    requires lines != [] && |Last(lines)| + n < WIDTH
    ensures PutCells(lines, BLANK, n) == lines[|lines| - 1 := Last(lines) + Blanks(n)]
  {
    if n > 0 {
      PutBlanks(lines, n - 1);
      assert Blanks(n) == Blanks(n - 1) + [BLANK];
      assert Last(lines) + Blanks(n) == Last(lines) + Blanks(n - 1) + [BLANK];
    } else {
      assert Last(lines) + Blanks(0) == Last(lines);
    }
  }

  lemma TabOnLines(lines: seq<seq<Cell>>, c: nat)
    requires lines != [] && c == |lines[|lines| - 1]|
    ensures PutTab(lines) == if c < 76 then lines[|lines| - 1 := lines[|lines| - 1] + Blanks((c / 4 + 1) * 4 - c)]
                             else lines + [[]]
  {
    hide PutCells, Blanks;
    if c < 76 {
      PutBlanks(lines, 4 - c % 4);
    }
  }

  lemma LinesAfter(log: seq<Event>, e: Event)
    ensures Lines(log + [e]) == Apply(Lines(log), e)
  {
    assert (log + [e])[..|log|] == log;
  }

  /** What a tab does to the lines: before column 76 it adds no line, and fills the last one with
      blank cells up to the next multiple of four; from there on it adds an empty line. */
  lemma TabLines(log: seq<Event>)
    ensures var lines := Lines(log);
      var last := lines[|lines| - 1];
      var c := |last|;
      Lines(log + [Tab]) == if c < 76 then lines[|lines| - 1 := last + seq((c / 4 + 1) * 4 - c, _ => 0x0a20)]
                            else lines + [[]]
  {
    hide Lines, PutTab;
    var lines := Lines(log);
    var c := |lines[|lines| - 1]|;
    LinesAfter(log, Tab);
    TabOnLines(lines, c);
    if c < 76 {
      assert Blanks((c / 4 + 1) * 4 - c) == seq((c / 4 + 1) * 4 - c, _ => 0x0a20);
    }
  }

  // --------------------------------------------- what wrapping and newlines mean

  function Puts(text: seq<Cell>): seq<Event> {
    seq(|text|, i requires 0 <= i < |text| => Put(text[i]))
  }

  /** Text without newlines is cut into lines of exactly 80 cells, eagerly: the last line is
      what is left over, and is empty when nothing is. */
  lemma {:induction false} WrapIsChunking(text: seq<Cell>)
    ensures var lines, n := Lines(Puts(text)), |text| / 80;
      && |lines| == n + 1 && lines[n] == text[80 * n..]
      && (forall i :: 0 <= i < n ==> lines[i] == text[80 * i..80 * i + 80])
  {
    if text != [] {
      var m := |text| - 1;
      var before, c := text[..m], text[m];
      WrapIsChunking(before);
      assert Puts(text)[..m] == Puts(before) && Puts(text)[m] == Put(c);
      var lines, k := Lines(Puts(before)), m / WIDTH;
      var grown := lines[k := lines[k] + [c]];
      assert Lines(Puts(text)) == PutCell(lines, c);
      assert lines[k] + [c] == text[WIDTH * k..];
      ChunksOfPrefix(text, lines, k);
      if |lines[k]| + 1 == WIDTH {
        assert |text| / WIDTH == k + 1 && text[WIDTH * (k + 1)..] == [];
        assert text[WIDTH * k..] == text[WIDTH * k..WIDTH * k + WIDTH];
      } else {
        assert |text| / WIDTH == k;
      }
    }
  }

  lemma ChunksOfPrefix(text: seq<Cell>, lines: seq<seq<Cell>>, k: nat)
    requires text != [] && k == (|text| - 1) / WIDTH && |lines| == k + 1
    requires forall i :: 0 <= i < k ==> lines[i] == text[..|text| - 1][WIDTH * i..WIDTH * i + WIDTH]
    ensures forall i :: 0 <= i < k ==> lines[i] == text[WIDTH * i..WIDTH * i + WIDTH]
  {
    forall i | 0 <= i < k
      ensures lines[i] == text[WIDTH * i..WIDTH * i + WIDTH]
    {
      assert WIDTH * i + WIDTH <= |text| - 1;
      assert text[..|text| - 1][WIDTH * i..WIDTH * i + WIDTH] == text[WIDTH * i..WIDTH * i + WIDTH];
    }
  }

  lemma ApplyAfter(a: seq<seq<Cell>>, b: seq<seq<Cell>>, e: Event)
    requires b != []
    ensures Apply(a + b, e) == a + Apply(b, e)
  {
    match e
    case Put(c) => PutAfter(a, b, c);
    case NewLine => assert (a + b) + [[]] == a + (b + [[]]);
    case Tab =>
      assert Last(a + b) == Last(b);
      assert (a + b) + [[]] == a + (b + [[]]);
      PutsAfter(a, b, BLANK, TAB - |Last(b)| % TAB);
  }

  lemma PutAfter(a: seq<seq<Cell>>, b: seq<seq<Cell>>, c: Cell)
    requires b != []
    ensures PutCell(a + b, c) == a + PutCell(b, c)
  {
    assert Last(a + b) == Last(b);
    var n := |b| - 1;
    assert (a + b)[|a + b| - 1 := Last(b) + [c]] == a + b[n := Last(b) + [c]];
    assert (a + b[n := Last(b) + [c]]) + [[]] == a + (b[n := Last(b) + [c]] + [[]]);
  }

  lemma {:induction false} PutsAfter(a: seq<seq<Cell>>, b: seq<seq<Cell>>, c: Cell, n: nat)
    requires b != []
    ensures PutCells(a + b, c, n) == a + PutCells(b, c, n)
  {
    if n > 0 {
      PutsAfter(a, b, c, n - 1);
      PutAfter(a, PutCells(b, c, n - 1), c);
    }
  }

  /** A newline separates: what comes after it is laid out as on a fresh screen. */
  lemma {:induction false} NewLineSeparates(a: seq<Event>, b: seq<Event>)
    ensures Lines(a + [NewLine] + b) == Lines(a) + Lines(b)
  {
    var all := a + [NewLine] + b;
    if b == [] {
      assert all[..|a|] == a && all == a + [NewLine];
    } else {
      var n := |b| - 1;
      assert all[..|all| - 1] == a + [NewLine] + b[..n] && all[|all| - 1] == b[n];
      NewLineSeparates(a, b[..n]);
      ApplyAfter(Lines(a), Lines(b[..n]), b[n]);
    }
  }

  // ------------------------------------------------------------------ screen

  /** The first line on the screen. */
  function First(lines: seq<seq<Cell>>): nat {
    if |lines| > HEIGHT then |lines| - HEIGHT else 0
  }

  /** The cell at column x of row y: from the last 25 lines, padded with blanks. */
  function Shown(lines: seq<seq<Cell>>, x: nat, y: nat): Cell {
    var i := First(lines) + y;
    if i < |lines| && x < |lines[i]| then lines[i][x] else BLANK
  }
}
