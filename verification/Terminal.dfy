/** An unbounded 80-column terminal, of which the screen shows 25 rows. Everything at and behind the
    cursor is blank, so the terminal is the stack of cells before the cursor, and the top visible row. */
module Terminal {

  const WIDTH: int := 80
  const HEIGHT: int := 25
  const CELLS: int := 2000

  /** A C `char`, which is signed on the target. */
  type Char = x: int | -128 <= x < 128

  /** A character cell: attribute byte and character byte. */
  type Cell = x: int | 0 <= x < 65536

  const BLANK: Cell := 0x0F20
  const NEWLINE: Char := 10
  const BACKSPACE: Char := 8
  const SPACE: Char := 32

  datatype Screen = Screen(text: seq<Cell>, top: nat)

  /** The cursor is on one of the visible rows. */
  predicate Visible(t: Screen) {
    WIDTH * t.top <= |t.text| < WIDTH * t.top + CELLS
  }

  predicate Printable(c: Char) {
    c >= SPACE
  }

  function CellOf(c: Char): Cell {
    0x0F00 + c % 256
  }

  function Cells(cs: seq<Char>): (r: seq<Cell>)
    ensures |r| == |cs|
  {
    seq<Cell>(|cs|, i requires 0 <= i < |cs| => CellOf(cs[i]))
  }

  function Blanks(n: nat): (r: seq<Cell>)
    ensures |r| == n
  {
    seq<Cell>(n, _ => BLANK)
  }

  /** Fill the last row up and start a new one. */
  function NewRow(text: seq<Cell>): seq<Cell> {
    text + Blanks(WIDTH - |text| % WIDTH)
  }

  /** Move the top row down just far enough to show the cursor. */
  function Follow(top: nat, length: nat): nat {
    if length / WIDTH >= top + HEIGHT then length / WIDTH - (HEIGHT - 1) else top
  }

  /** One character: a newline starts a row, a backspace removes a cell unless the cursor is at the top left
      of the screen, a printable character adds a cell, and anything else does nothing. */
  function Put(t: Screen, c: Char): Screen {
    var text :=
      if c == NEWLINE then NewRow(t.text)
      else if c == BACKSPACE then if |t.text| > WIDTH * t.top then t.text[..|t.text| - 1] else t.text
      else if Printable(c) then t.text + [CellOf(c)]
      else t.text;
    Screen(text, Follow(t.top, |text|))
  }

  function Type(t: Screen, cs: seq<Char>): Screen
    decreases cs
  {
    if cs == [] then t else Type(Put(t, cs[0]), cs[1..])
  }

  function CellAt(text: seq<Cell>, k: nat): Cell {
    if k < |text| then text[k] else BLANK
  }

  /** What the 25 visible rows show. */
  function Window(t: Screen): (w: seq<Cell>)
    ensures |w| == CELLS && forall i :: 0 <= i < CELLS ==> w[i] == CellAt(t.text, WIDTH * t.top + i)
  {
    seq<Cell>(CELLS, i requires 0 <= i < CELLS => CellAt(t.text, WIDTH * t.top + i))
  }

  lemma PutVisible(t: Screen, c: Char)
    requires Visible(t)
    ensures Visible(Put(t, c)) && Put(t, c).top >= t.top
  {
  }

  /** In every run the cursor stays visible, every cell at or behind it is blank, and the window only
      moves down. */
  lemma {:induction false} TypeVisible(t: Screen, cs: seq<Char>)
    requires Visible(t)
    ensures var r := Type(t, cs);
            && Visible(r) && r.top >= t.top
            && forall i :: |r.text| - WIDTH * r.top <= i < CELLS ==> Window(r)[i] == BLANK
    decreases cs
  {
    if cs == [] {
      BlankBehindCursor(t);
    } else {
      PutVisible(t, cs[0]);
      TypeVisible(Put(t, cs[0]), cs[1..]);
    }
  }

  lemma BlankBehindCursor(t: Screen)
    requires Visible(t)
    ensures forall i :: |t.text| - WIDTH * t.top <= i < CELLS ==> Window(t)[i] == BLANK
  {
    forall i | |t.text| - WIDTH * t.top <= i < CELLS ensures Window(t)[i] == BLANK {
      assert WIDTH * t.top + i >= |t.text|;
    }
  }

  lemma {:induction false} TypeConcat(t: Screen, a: seq<Char>, b: seq<Char>)
    ensures Type(t, a + b) == Type(Type(t, a), b)
    decreases a
  {
    if a == [] {
      assert a + b == b;
    } else {
      assert (a + b)[1..] == a[1..] + b;
      TypeConcat(Put(t, a[0]), a[1..], b);
    }
  }

  lemma TypeOne(t: Screen, c: Char)
    ensures Type(t, [c]) == Put(t, c)
  {
    assert [c][1..] == [];
  }

  // ----- the characters by their codes

  /** A character from 32 on is drawn at the cursor: its code below the attribute 0x0F. Code 10 leaves a row
      started and what was written as it was; code 8 blanks the cell before the cursor unless the cursor is at
      the top left of the screen; any other code does nothing. */
  lemma PutCodes(t: Screen, c: Char)
    requires Visible(t)
    ensures var (n, u) := (|t.text|, Put(t, c).text);
            && (c >= 32 ==> u == t.text + [0x0F00 + c])
            && (c == 10 ==>
                  && |u| == 80 * (n / 80 + 1) && u[..n] == t.text
                  && forall k :: n <= k < |u| ==> u[k] == 0x0F20)
            && (c == 8 ==> u == if n == 80 * t.top then t.text else t.text[..n - 1])
            && (c < 32 && c != 10 && c != 8 ==> u == t.text)
  {
    RowSplit(|t.text| / 80, |t.text| % 80);
  }

  // ----- how the window changes

  lemma WindowPush(t: Screen, cell: Cell)
    requires Visible(t)
    ensures Window(t.(text := t.text + [cell])) == Window(t)[|t.text| - WIDTH * t.top := cell]
  {
  }

  lemma WindowPop(t: Screen)
    requires Visible(t) && |t.text| > WIDTH * t.top
    ensures Window(t.(text := t.text[..|t.text| - 1])) == Window(t)[|t.text| - 1 - WIDTH * t.top := BLANK]
  {
  }

  lemma WindowNewRow(t: Screen)
    ensures Window(t.(text := NewRow(t.text))) == Window(t)
  {
  }

  /** A newline moves the cursor to the start of the next row. */
  lemma NewRowLength(text: seq<Cell>, row: nat, col: nat)
    requires |text| == WIDTH * row + col && col < WIDTH
    ensures |NewRow(text)| == WIDTH * (row + 1)
  {
    RowSplit(row, col);
  }

  lemma WindowScroll(t: Screen)
    requires |t.text| <= WIDTH * t.top + CELLS
    ensures Window(t.(top := t.top + 1)) == Window(t)[WIDTH..] + Blanks(WIDTH)
  {
  }

  // ----- the layout of a text

  /** The characters of the lines, with a newline between one and the next. */
  function Join(lines: seq<seq<Char>>): seq<Char>
    requires lines != []
  {
    if |lines| == 1 then lines[0] else lines[0] + [10] + Join(lines[1..])
  }

  /** Rows of 80 cells: every line but the last takes its full rows and one more, blank-padded. */
  function Layout(lines: seq<seq<Char>>): seq<Cell>
    requires lines != []
  {
    if |lines| == 1 then Cells(lines[0]) else Rows(lines[0]) + Layout(lines[1..])
  }

  predicate AllPrintable(cs: seq<Char>) {
    forall c :: c in cs ==> c >= 32
  }

  lemma FollowTwice(top: nat, a: nat, b: nat)
    requires a <= b
    ensures Follow(Follow(top, a), b) == Follow(top, b)
  {
  }

  /** The screen after text of the given cells went on from `t`. */
  function Extended(t: Screen, cells: seq<Cell>): Screen {
    Screen(t.text + cells, Follow(t.top, |t.text| + |cells|))
  }

  lemma ExtendedTwice(t: Screen, a: seq<Cell>, b: seq<Cell>)
    ensures Extended(Extended(t, a), b) == Extended(t, a + b)
  {
    assert t.text + a + b == t.text + (a + b);
    FollowTwice(t.top, |t.text| + |a|, |t.text| + |a| + |b|);
  }

  lemma {:induction false} TypeLine(t: Screen, cs: seq<Char>)
    requires Visible(t) && AllPrintable(cs)
    ensures Type(t, cs) == Extended(t, Cells(cs))
    decreases cs
  {
    if cs == [] {
      assert t.text + Cells(cs) == t.text;
    } else {
      assert cs[0] in cs;
      PutVisible(t, cs[0]);
      assert forall c :: c in cs[1..] ==> c in cs;
      TypeLine(Put(t, cs[0]), cs[1..]);
      assert Put(t, cs[0]) == Extended(t, [CellOf(cs[0])]);
      assert Cells(cs) == [CellOf(cs[0])] + Cells(cs[1..]);
      ExtendedTwice(t, [CellOf(cs[0])], Cells(cs[1..]));
    }
  }

  lemma RowLength(base: nat, n: nat)
    requires base % WIDTH == 0
    ensures WIDTH - (base + n) % WIDTH == (n / WIDTH + 1) * WIDTH - n
    ensures (base + (n / WIDTH + 1) * WIDTH) % WIDTH == 0
  {
    var b, q, r := base / WIDTH, n / WIDTH, n % WIDTH;
    RowSplit(b + q, r);
    RowSplit(b + q + 1, 0);
    assert base + n == WIDTH * (b + q) + r;
    assert base + (q + 1) * WIDTH == WIDTH * (b + q + 1);
  }

  lemma RowSplit(q: nat, r: nat)
    requires r < WIDTH
    ensures (WIDTH * q + r) / WIDTH == q && (WIDTH * q + r) % WIDTH == r
  {
  }

  /** The blank-padded rows of a line. */
  function Rows(line: seq<Char>): (r: seq<Cell>)
    ensures |r| == (|line| / WIDTH + 1) * WIDTH
  {
    Cells(line) + Blanks((|line| / WIDTH + 1) * WIDTH - |line|)
  }

  lemma NewRowOf(base: seq<Cell>, line: seq<Char>)
    requires |base| % WIDTH == 0
    ensures NewRow(base + Cells(line)) == base + Rows(line)
    ensures |base + Rows(line)| % WIDTH == 0
  {
    RowLength(|base|, |line|);
    assert NewRow(base + Cells(line)) == base + Cells(line) + Blanks(WIDTH - |base + Cells(line)| % WIDTH);
  }

  lemma PutNewline(t: Screen, line: seq<Char>)
    requires |t.text| % WIDTH == 0
    ensures Put(Extended(t, Cells(line)), NEWLINE) == Extended(t, Rows(line))
  {
    NewRowOf(t.text, line);
    FollowTwice(t.top, |t.text| + |line|, |t.text + Rows(line)|);
  }

  /** A line and its newline fill whole rows. */
  lemma TypeRow(t: Screen, line: seq<Char>)
    requires Visible(t) && |t.text| % WIDTH == 0 && AllPrintable(line)
    ensures Type(t, line + [NEWLINE]) == Extended(t, Rows(line))
    ensures Visible(Extended(t, Rows(line))) && |t.text + Rows(line)| % WIDTH == 0
  {
    TypeLine(t, line);
    TypeConcat(t, line, [NEWLINE]);
    TypeOne(Extended(t, Cells(line)), NEWLINE);
    PutNewline(t, line);
    TypeVisible(t, line + [NEWLINE]);
    NewRowOf(t.text, line);
  }

  lemma TypeRowThen(t: Screen, line: seq<Char>, rest: seq<Char>)
    requires Visible(t) && |t.text| % WIDTH == 0 && AllPrintable(line)
    ensures Type(t, line + [NEWLINE] + rest) == Type(Extended(t, Rows(line)), rest)
    ensures Visible(Extended(t, Rows(line))) && |t.text + Rows(line)| % WIDTH == 0
  {
    TypeRow(t, line);
    TypeConcat(t, line + [NEWLINE], rest);
  }

  lemma {:induction false} TypeLayout(t: Screen, lines: seq<seq<Char>>)
    requires Visible(t) && |t.text| % WIDTH == 0 && lines != [] && forall l :: l in lines ==> AllPrintable(l)
    ensures Type(t, Join(lines)) == Extended(t, Layout(lines))
    decreases lines
  {
    assert lines[0] in lines;
    if |lines| == 1 {
      TypeLine(t, lines[0]);
    } else {
      TypeRowThen(t, lines[0], Join(lines[1..]));
      TypeLayout(Extended(t, Rows(lines[0])), lines[1..]);
      ExtendedTwice(t, Rows(lines[0]), Layout(lines[1..]));
    }
  }

  /** The last 25 rows of a text, counting the row after its last full one. */
  function LastRows(all: seq<Cell>): (w: seq<Cell>)
    ensures |w| == CELLS
  {
    var first := if |all| / WIDTH < HEIGHT then 0 else |all| / WIDTH + 1 - HEIGHT;
    seq<Cell>(CELLS, i requires 0 <= i => CellAt(all, first * WIDTH + i))
  }

  /** On a cleared screen, a text of printable characters and newlines shows as the last 25 rows of its
      layout, counting the cursor's row, blank-padded. */
  lemma TextShown(t: Screen, lines: seq<seq<Char>>)
    requires t.text == [] && t.top == 0 && lines != [] && forall l :: l in lines ==> AllPrintable(l)
    ensures Window(Type(t, Join(lines))) == LastRows(Layout(lines))
  {
    TypeLayout(t, lines);
    ExtendedFromNothing(t, Layout(lines));
  }

  /** Rows the lines take on an 80-column screen, counting the one the cursor is left on. */
  function RowCount(lines: seq<seq<Char>>): nat
    requires lines != []
  {
    |lines[0]| / 80 + 1 + if |lines| == 1 then 0 else RowCount(lines[1..])
  }

  /** The character code at column `col` of row `row` when every line starts a row of its own; a space behind
      the end of a line. */
  function CodeAt(lines: seq<seq<Char>>, row: nat, col: nat): int
    requires lines != []
    decreases lines
  {
    var rows := |lines[0]| / 80 + 1;
    if row < rows || |lines| == 1 then
      if 80 * row + col < |lines[0]| then lines[0][80 * row + col] else 32
    else CodeAt(lines[1..], row - rows, col)
  }

  lemma {:induction false} LayoutCodes(lines: seq<seq<Char>>, row: nat, col: nat)
    requires lines != [] && (forall l :: l in lines ==> AllPrintable(l)) && col < 80
    ensures |Layout(lines)| / 80 + 1 == RowCount(lines)
    ensures CellAt(Layout(lines), 80 * row + col) == 0x0F00 + CodeAt(lines, row, col)
    decreases lines
  {
    assert lines[0] in lines;
    if |lines| == 1 {
      LineCode(lines[0], 80 * row + col);
    } else {
      var rows := |lines[0]| / 80 + 1;
      var rest := Layout(lines[1..]);
      assert forall l :: l in lines[1..] ==> l in lines;
      LayoutCodes(lines[1..], if row < rows then 0 else row - rows, col);
      RowsBefore(rows, |rest|);
      assert Layout(lines) == Rows(lines[0]) + rest;
      if row < rows {
        assert 80 * row + col < |Rows(lines[0])|;
        LineCode(lines[0], 80 * row + col);
      } else {
        assert 80 * row + col - |Rows(lines[0])| == 80 * (row - rows) + col;
      }
    }
  }

  lemma LineCode(line: seq<Char>, k: nat)
    requires AllPrintable(line)
    ensures CellAt(Cells(line), k) as int == 0x0F00 + (if k < |line| then line[k] as int else 32)
    ensures k < |Rows(line)| ==> Rows(line)[k] == CellAt(Cells(line), k)
  {
    if k < |line| { assert line[k] in line; }
  }

  lemma RowsBefore(rows: nat, n: nat)
    ensures (80 * rows + n) / 80 == rows + n / 80
  {
  }

  /** What is seen: on a cleared screen, row `r` and column `c` of the 25x80 characters show the text's last 25
      rows, character for character, in the attribute 0x0F. */
  lemma TextCodes(t: Screen, lines: seq<seq<Char>>, r: nat, c: nat)
    requires t.text == [] && t.top == 0 && lines != [] && forall l :: l in lines ==> AllPrintable(l)
    requires r < 25 && c < 80
    ensures var first := if RowCount(lines) <= 25 then 0 else RowCount(lines) - 25;
            var cell := Window(Type(t, Join(lines)))[80 * r + c];
            cell / 256 == 0x0F && cell % 256 == CodeAt(lines, first + r, c)
  {
    TextShown(t, lines);
    LastRowsCodes(lines, r, c);
  }

  lemma LastRowsCodes(lines: seq<seq<Char>>, r: nat, c: nat)
    requires lines != [] && (forall l :: l in lines ==> AllPrintable(l)) && r < 25 && c < 80
    ensures var first := if RowCount(lines) <= 25 then 0 else RowCount(lines) - 25;
            var cell := LastRows(Layout(lines))[80 * r + c];
            cell / 256 == 0x0F && cell % 256 == CodeAt(lines, first + r, c)
  {
    var first := if RowCount(lines) <= 25 then 0 else RowCount(lines) - 25;
    LayoutCodes(lines, first + r, c);
    LastRowsAt(Layout(lines), r, c);
    CodeBounds(lines, first + r, c);
    CellParts(CodeAt(lines, first + r, c));
  }

  lemma LastRowsAt(all: seq<Cell>, r: nat, c: nat)
    requires r < 25 && c < 80
    ensures var first := if |all| / 80 + 1 <= 25 then 0 else |all| / 80 + 1 - 25;
            LastRows(all)[80 * r + c] == CellAt(all, 80 * (first + r) + c)
  {
  }

  lemma CellParts(code: nat)
    requires code < 256
    ensures (0x0F00 + code) / 256 == 0x0F && (0x0F00 + code) % 256 == code
  {
  }

  lemma {:induction false} CodeBounds(lines: seq<seq<Char>>, row: nat, col: nat)
    requires lines != [] && forall l :: l in lines ==> AllPrintable(l)
    ensures 32 <= CodeAt(lines, row, col) < 128
    decreases lines
  {
    var rows := |lines[0]| / 80 + 1;
    assert lines[0] in lines;
    if row < rows || |lines| == 1 {
      if 80 * row + col < |lines[0]| { assert lines[0][80 * row + col] in lines[0]; }
    } else {
      CodeBounds(lines[1..], row - rows, col);
    }
  }

  lemma ExtendedFromNothing(t: Screen, all: seq<Cell>)
    requires t.text == [] && t.top == 0
    ensures Window(Extended(t, all)) == LastRows(all)
  {
    assert t.text + all == all;
    assert Extended(t, all) == Screen(all, Follow(0, |all|));
    WindowOfRows(all);
  }

  lemma WindowOfRows(all: seq<Cell>)
    ensures Window(Screen(all, Follow(0, |all|))) == LastRows(all)
  {
    var first := if |all| / WIDTH < HEIGHT then 0 else |all| / WIDTH + 1 - HEIGHT;
    assert Follow(0, |all|) == first;
  }
}
