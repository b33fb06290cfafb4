/**
 The graphics console's OutputString over a grid of text cells.  Characters are drawn in runs, with wrap, scroll,
 backspace and wide characters handled by nested calls; the reference is a terminal that takes one character at a time.
 */
module TextConsole {

  const BACKSPACE: char := '\U{0008}'
  const LINEFEED: char := '\n'
  const CARRIAGE_RETURN: char := '\r'
  const NARROW_CHAR: char := '\U{FFF0}'
  const WIDE_CHAR: char := '\U{FFF1}'

  const SPACE_STR: string := [NARROW_CHAR, ' ']
  const CRLF_STR: string := [CARRIAGE_RETURN, LINEFEED]

  predicate IsControl(ch: char) {
    ch == BACKSPACE || ch == LINEFEED || ch == CARRIAGE_RETURN || ch == WIDE_CHAR || ch == NARROW_CHAR
  }

  /** A wide character covers two cells. */
  datatype Cell = Blank | Narrow(c: char) | WideLeft(c: char) | WideRight(c: char)

  // ---------- The reference terminal ----------

  function CellsOf(ch: char, wide: bool): (cells: seq<Cell>)
    ensures |cells| == if wide then 2 else 1
  {
    if wide then [WideLeft(ch), WideRight(ch)] else [Narrow(ch)]
  }

  datatype Screen = Screen(columns: nat, rows: nat, grid: seq<seq<Cell>>, column: int, row: int, wide: bool)
  {
    predicate Shaped() {
      2 <= columns && 1 <= rows && |grid| == rows && forall r :: 0 <= r < rows ==> |grid[r]| == columns
    }

    predicate InRange() {
      Shaped() && 0 <= column < columns && 0 <= row < rows
    }

    /** Down one row; on the last row everything moves up instead. */
    function Feed(): (t: Screen)
      requires Shaped() && 0 <= row < rows
      ensures t.Shaped() && t.columns == columns && t.rows == rows && 0 <= t.row < rows
    {
      if row == rows - 1 then this.(grid := grid[1..] + [seq(columns, _ => Blank)]) else this.(row := row + 1)
    }

    function Wrap(): (t: Screen)
      requires Shaped() && 0 <= row < rows
      ensures t.InRange() && t.columns == columns && t.rows == rows && t.column == 0 && t.wide == wide
    {
      this.(column := 0).Feed()
    }

    /** Overwrites the cells from the cursor on. */
    function Draw(cells: seq<Cell>): (t: Screen)
      requires Shaped() && 0 <= row < rows && 0 <= column && column + |cells| <= columns
      ensures t.Shaped() && t == this.(grid := t.grid)
    {
      this.(grid := grid[row := grid[row][..column] + cells + grid[row][column + |cells|..]])
    }

    /** Draws, moves right, and wraps at the end of the line. */
    function Place(cells: seq<Cell>): (t: Screen)
      requires InRange() && column + |cells| <= columns
      ensures t.InRange() && t.columns == columns && t.rows == rows && t.wide == wide
    {
      var t := Draw(cells);
      if column + |cells| == columns then t.Wrap() else t.(column := column + |cells|)
    }

    /** Fills the last column when a wide character does not fit there. */
    function Pad(): (t: Screen)
      requires InRange()
      ensures t.InRange() && t.columns == columns && t.rows == rows && t.wide == wide
      ensures wide ==> t.column + 2 <= columns
    {
      if wide && column == columns - 1 then Place([Narrow(' ')]) else this
    }

    function Print(ch: char): (t: Screen)
      requires InRange()
      ensures t.InRange() && t.columns == columns && t.rows == rows && t.wide == wide
    {
      Pad().Place(CellsOf(ch, wide))
    }

    /** Back one cell, across the line start too, blanking the cell reached. */
    function Back(): (t: Screen)
      requires InRange()
      ensures t.InRange() && t.columns == columns && t.rows == rows && t.wide == wide
    {
      if column > 0 then this.(column := column - 1).Draw([Narrow(' ')])
      else if row > 0 then this.(row := row - 1, column := columns - 1).Draw([Narrow(' ')])
      else this
    }

    function Type(ch: char): (t: Screen)
      requires Shaped() && 0 <= row < rows && 0 <= column && (column < columns || ch == CARRIAGE_RETURN)
      ensures t.InRange() && t.columns == columns && t.rows == rows
    {
      if ch == BACKSPACE then Back()
      else if ch == LINEFEED then Feed()
      else if ch == CARRIAGE_RETURN then this.(column := 0)
      else if ch == WIDE_CHAR then this.(wide := true)
      else if ch == NARROW_CHAR then this.(wide := false)
      else Print(ch)
    }

    /** In range, or just past the end of the line with a carriage return coming. */
    predicate Ready(s: string) {
      && Shaped() && 0 <= row < rows && 0 <= column
      && (column < columns || (s != [] && s[0] == CARRIAGE_RETURN))
    }

    function Run(s: string): (t: Screen)
      requires Ready(s)
      ensures t.InRange() && t.columns == columns && t.rows == rows
      decreases |s|
    {
      if s == [] then this else Type(s[0]).Run(s[1..])
    }

    /** A whole OutputString call: the attribute is put back at the end. */
    function Output(s: string): (t: Screen)
      requires Ready(s)
      ensures t.InRange() && t.columns == columns && t.rows == rows
    {
      Run(s).(wide := wide)
    }
  }

  // ---------- Laws of the reference terminal ----------

  lemma {:induction false} RunConcat(t: Screen, a: string, b: string)
    requires t.InRange()
    ensures t.Run(a + b) == t.Run(a).Run(b)
    decreases |a|
  {
    if a == [] {
      assert a + b == b;
    } else {
      RunConcat(t.Type(a[0]), a[1..], b);
      assert (a + b)[0] == a[0] && (a + b)[1..] == a[1..] + b;
    }
  }

  /** What a string leaves of the width attribute depends on its last width control only. */
  function WidthAfter(s: string, wide: bool): bool {
    if s == [] then wide
    else WidthAfter(s[1..], if s[0] == WIDE_CHAR then true else if s[0] == NARROW_CHAR then false else wide)
  }

  predicate NoWidthControls(s: string) {
    forall i :: 0 <= i < |s| ==> s[i] != WIDE_CHAR && s[i] != NARROW_CHAR
  }

  lemma {:induction false} WidthKept(s: string, wide: bool)
    requires NoWidthControls(s)
    ensures WidthAfter(s, wide) == wide
  {
    if s == [] {
    } else {
      WidthKept(s[1..], wide);
    }
  }

  lemma {:induction false} RunWidth(t: Screen, s: string)
    requires t.InRange()
    ensures t.Run(s).wide == WidthAfter(s, t.wide)
    decreases |s|
  {
    if s == [] {
    } else {
      RunWidth(t.Type(s[0]), s[1..]);
    }
  }

  lemma OneCharacter(t: Screen)
    requires t.InRange()
    ensures var c := t.Run([CARRIAGE_RETURN, 'x']).column; if t.wide then c != 1 else c == 1
  {
    var u := t.(column := 0);
    assert [CARRIAGE_RETURN, 'x'][1..] == ['x'];
    assert ['x'][1..] == [];
    assert t.Run([CARRIAGE_RETURN, 'x']) == u.Run(['x']) == u.Print('x');
  }

  /**
   Printing `a` and then `b` is printing `a + b`, for every `b`, exactly when `a` leaves the width attribute as it
   found it.
   */
  lemma OutputConcatExactly(t: Screen, a: string)
    requires t.InRange()
    ensures (forall b :: t.Output(a).Output(b) == t.Output(a + b)) <==> WidthAfter(a, t.wide) == t.wide
  {
    RunWidth(t, a);
    if WidthAfter(a, t.wide) == t.wide {
      forall b ensures t.Output(a).Output(b) == t.Output(a + b) {
        RunConcat(t, a, b);
      }
    } else {
      var b := [CARRIAGE_RETURN, 'x'];
      RunConcat(t, a, b);
      OneCharacter(t.Output(a));
      OneCharacter(t.Run(a));
      assert t.Output(a).Output(b) != t.Output(a + b);
    }
  }

  // ---------- Runs of characters ----------

  function RunCells(chars: string, wide: bool): (cells: seq<Cell>)
    ensures |cells| == if wide then 2 * |chars| else |chars|
  {
    if chars == [] then [] else CellsOf(chars[0], wide) + RunCells(chars[1..], wide)
  }

  predicate Printable(chars: string) {
    forall i :: 0 <= i < |chars| ==> !IsControl(chars[i])
  }

  lemma DrawConcat(t: Screen, a: seq<Cell>, b: seq<Cell>)
    requires t.Shaped() && 0 <= t.row < t.rows && 0 <= t.column && t.column + |a| + |b| <= t.columns
    ensures t.Draw(a).(column := t.column + |a|).Draw(b).(column := t.column) == t.Draw(a + b)
  {
    var row := t.grid[t.row];
    var c := t.column;
    var one := row[..c] + a + row[c + |a|..];
    assert one[..c + |a|] == row[..c] + a;
    assert one[c + |a| + |b|..] == row[c + |a| + |b|..];
    assert one[..c + |a|] + b + one[c + |a| + |b|..] == row[..c] + (a + b) + row[c + |a + b|..];
    assert t.grid[t.row := one][t.row := row[..c] + (a + b) + row[c + |a + b|..]]
        == t.grid[t.row := row[..c] + (a + b) + row[c + |a + b|..]];
  }

  /** Characters that fit on the line may be drawn at once. */
  lemma {:induction false} RunFits(t: Screen, chars: string)
    requires t.InRange() && chars != [] && Printable(chars)
    requires t.column + |RunCells(chars, t.wide)| <= t.columns
    ensures t.Run(chars) == t.Place(RunCells(chars, t.wide))
    decreases |chars|
  {
    var head, rest := CellsOf(chars[0], t.wide), chars[1..];
    assert t.Type(chars[0]) == t.Place(head);
    if rest != [] {
      var u := t.Place(head);
      assert u == t.Draw(head).(column := t.column + |head|);
      RunFits(u, rest);
      DrawConcat(t, head, RunCells(rest, t.wide));
    } else {
      assert RunCells(rest, t.wide) == [];
      assert RunCells(chars, t.wide) == head;
    }
  }

  // ---------- What is on the screen, cell by cell ----------

  /** These cells of one row, and no others, are overwritten. */
  ghost predicate OnlyAt(t: Screen, u: Screen, row: int, from: int, cells: seq<Cell>)
    requires t.Shaped() && u.Shaped() && u.rows == t.rows && u.columns == t.columns
  {
    forall r, c :: 0 <= r < t.rows && 0 <= c < t.columns ==>
      u.grid[r][c] == if r == row && from <= c < from + |cells| then cells[c - from] else t.grid[r][c]
  }

  /** One row down; on the last row every row moves up, the first is lost and the last is blank. */
  ghost predicate LineFed(t: Screen, u: Screen)
    requires t.Shaped() && u.Shaped() && u.rows == t.rows && u.columns == t.columns
  {
    if t.row < t.rows - 1 then u.row == t.row + 1 && u.grid == t.grid
    else
      && u.row == t.row
      && forall r, c :: 0 <= r < t.rows && 0 <= c < t.columns ==>
           u.grid[r][c] == if r < t.rows - 1 then t.grid[r + 1][c] else Blank
  }

  ghost predicate SameShape(t: Screen, u: Screen) {
    t.Shaped() && u.Shaped() && u.rows == t.rows && u.columns == t.columns
  }

  /** These cells appear from the cursor on; the cursor moves behind them, to the next line when this one is full. */
  ghost predicate Showing(t: Screen, u: Screen, cells: seq<Cell>) {
    exists m: Screen ::
      && SameShape(t, m) && SameShape(m, u)
      && OnlyAt(t, m, t.row, t.column, cells) && m.row == t.row && m.wide == t.wide == u.wide
      && if t.column + |cells| < t.columns then u.grid == m.grid && u.row == t.row && u.column == t.column + |cells|
         else LineFed(m, u) && u.column == 0
  }

  /** One cell back, over the start of the line too, leaving a space. */
  ghost predicate SteppedBack(t: Screen, u: Screen)
    requires SameShape(t, u)
  {
    && u.wide == t.wide
    && if 0 < t.column then u.row == t.row && u.column == t.column - 1 && OnlyAt(t, u, t.row, t.column - 1, [Narrow(' ')])
       else if 0 < t.row then
         u.row == t.row - 1 && u.column == t.columns - 1 && OnlyAt(t, u, t.row - 1, t.columns - 1, [Narrow(' ')])
       else u == t
  }

  /** The character's cells at the cursor; a wide one that the line's last column is too small for comes after a space. */
  ghost predicate Printed(t: Screen, u: Screen, ch: char) {
    if !t.wide then Showing(t, u, [Narrow(ch)])
    else if t.column < t.columns - 1 then Showing(t, u, [WideLeft(ch), WideRight(ch)])
    else exists p: Screen :: Showing(t, p, [Narrow(' ')]) && Showing(p, u, [WideLeft(ch), WideRight(ch)])
  }

  /** What one character does, without the reference terminal. */
  ghost predicate Typed(t: Screen, u: Screen, ch: char) {
    SameShape(t, u) &&
    if ch == '\U{0008}' then SteppedBack(t, u)
    else if ch == '\n' then u.wide == t.wide && u.column == t.column && LineFed(t, u)
    else if ch == '\r' then u.wide == t.wide && u.column == 0 && u.row == t.row && u.grid == t.grid
    else if ch == '\U{FFF1}' then u.wide && u.column == t.column && u.row == t.row && u.grid == t.grid
    else if ch == '\U{FFF0}' then !u.wide && u.column == t.column && u.row == t.row && u.grid == t.grid
    else Printed(t, u, ch)
  }

  lemma DrawnCells(t: Screen, cells: seq<Cell>)
    requires t.Shaped() && 0 <= t.row < t.rows && 0 <= t.column && t.column + |cells| <= t.columns
    ensures OnlyAt(t, t.Draw(cells), t.row, t.column, cells)
  {
  }

  lemma FedRows(t: Screen)
    requires t.Shaped() && 0 <= t.row < t.rows
    ensures LineFed(t, t.Feed())
  {
  }

  lemma PlacedShows(t: Screen, cells: seq<Cell>)
    requires t.InRange() && t.column + |cells| <= t.columns
    ensures Showing(t, t.Place(cells), cells)
  {
    var m := t.Draw(cells);
    DrawnCells(t, cells);
    FedRows(m.(column := 0));
    assert SameShape(t, m) && SameShape(m, t.Place(cells));
  }

  lemma BackShows(t: Screen)
    requires t.InRange()
    ensures SameShape(t, t.Back()) && SteppedBack(t, t.Back())
  {
    if 0 < t.column {
      DrawnCells(t.(column := t.column - 1), [Narrow(' ')]);
    } else if 0 < t.row {
      DrawnCells(t.(row := t.row - 1, column := t.columns - 1), [Narrow(' ')]);
    }
  }

  lemma PrintShows(t: Screen, ch: char)
    requires t.InRange()
    ensures Printed(t, t.Print(ch), ch)
  {
    if t.wide && t.column == t.columns - 1 {
      PlacedShows(t, [Narrow(' ')]);
    }
    PlacedShows(t.Pad(), CellsOf(ch, t.wide));
  }

  /** The reference terminal does to every cell what the character says. */
  lemma TypeShows(t: Screen, ch: char)
    requires t.Ready([ch])
    ensures Typed(t, t.Type(ch), ch)
  {
    if ch == BACKSPACE {
      BackShows(t);
    } else if ch == LINEFEED {
      FedRows(t);
    } else if !IsControl(ch) {
      PrintShows(t, ch);
    }
  }

  /** Screen by screen, what a whole string does; the width attribute is put back at the end. */
  ghost predicate Typing(trace: seq<Screen>, t: Screen, u: Screen, s: string) {
    && |trace| == |s| + 1 && trace[0] == t
    && (forall i :: 0 <= i < |s| ==> Typed(trace[i], trace[i + 1], s[i]))
    && u == trace[|s|].(wide := t.wide)
  }

  /** Every call of the reference terminal is such a sequence of screens. */
  lemma {:induction false} RunTypes(t: Screen, s: string) returns (trace: seq<Screen>)
    requires t.Ready(s)
    ensures |trace| == |s| + 1 && trace[0] == t && trace[|s|] == t.Run(s)
    ensures forall i :: 0 <= i < |s| ==> Typed(trace[i], trace[i + 1], s[i])
    decreases |s|
  {
    if s == [] {
      trace := [t];
    } else {
      TypeShows(t, s[0]);
      var rest := RunTypes(t.Type(s[0]), s[1..]);
      trace := [t] + rest;
      forall i | 0 <= i < |s| ensures Typed(trace[i], trace[i + 1], s[i]) {
        if 0 < i {
          assert trace[i] == rest[i - 1] && trace[i + 1] == rest[i] && s[i] == s[1..][i - 1];
        }
      }
    }
  }

  const CONTROLS: set<char> := {'\U{0008}', '\n', '\r', '\U{FFF0}', '\U{FFF1}'}

  predicate Plain(s: string) {
    forall i :: 0 <= i < |s| ==> s[i] !in CONTROLS
  }

  function NarrowCells(s: string): (cells: seq<Cell>)
    ensures |cells| == |s| && forall i :: 0 <= i < |s| ==> cells[i] == Narrow(s[i])
  {
    seq(|s|, i requires 0 <= i < |s| => Narrow(s[i]))
  }

  function WideCells(s: string): (cells: seq<Cell>)
    ensures |cells| == 2 * |s|
    ensures forall i :: 0 <= i < |s| ==> cells[2 * i] == WideLeft(s[i]) && cells[2 * i + 1] == WideRight(s[i])
  {
    seq(2 * |s|, k requires 0 <= k < 2 * |s| => if k % 2 == 0 then WideLeft(s[k / 2]) else WideRight(s[k / 2]))
  }

  lemma {:induction false} RunCellAt(s: string, wide: bool, k: nat)
    requires k < |s|
    ensures !wide ==> RunCells(s, wide)[k] == Narrow(s[k])
    ensures wide ==> RunCells(s, wide)[2 * k] == WideLeft(s[k]) && RunCells(s, wide)[2 * k + 1] == WideRight(s[k])
  {
    if k == 0 {
    } else {
      RunCellAt(s[1..], wide, k - 1);
    }
  }

  lemma NarrowRun(s: string)
    ensures RunCells(s, false) == NarrowCells(s)
  {
    forall k | 0 <= k < |s| ensures RunCells(s, false)[k] == NarrowCells(s)[k] {
      RunCellAt(s, false, k);
    }
  }

  lemma WideRun(s: string)
    ensures RunCells(s, true) == WideCells(s)
  {
    var cells, wanted := RunCells(s, true), WideCells(s);
    forall k | 0 <= k < 2 * |s| ensures cells[k] == wanted[k] {
      RunCellAt(s, true, k / 2);
      assert k == 2 * (k / 2) || k == 2 * (k / 2) + 1;
    }
  }

  /** Characters that fit on the line appear in order from the cursor on, one or two cells each, and nowhere else. */
  ghost predicate Fitting(t: Screen, u: Screen, s: string) {
    && (!t.wide && t.column + |s| <= t.columns ==> Showing(t, u, NarrowCells(s)))
    && (t.wide && t.column + 2 * |s| <= t.columns ==> Showing(t, u, WideCells(s)))
  }

  lemma FittingShows(t: Screen, s: string)
    requires t.InRange() && s != [] && Plain(s)
    ensures Fitting(t, t.Output(s), s)
  {
    NarrowRun(s);
    WideRun(s);
    if t.column + |RunCells(s, t.wide)| <= t.columns {
      RunFits(t, s);
      PlacedShows(t, RunCells(s, t.wide));
    }
  }

  lemma OutputShows(t: Screen, s: string)
    requires t.Ready(s)
    ensures exists trace :: Typing(trace, t, t.Output(s), s)
    ensures s != [] && Plain(s) && t.InRange() ==> Fitting(t, t.Output(s), s)
  {
    var trace := RunTypes(t, s);
    assert Typing(trace, t, t.Output(s), s);
    if s != [] && Plain(s) && t.InRange() {
      FittingShows(t, s);
    }
  }

  /** With a wide character next, the last column is padded at once rather than when the character comes. */
  function Settle(t: Screen, rest: string): (u: Screen)
    requires t.InRange()
    ensures u.InRange() && u.columns == t.columns && u.rows == t.rows && u.wide == t.wide
  {
    if rest != [] && !IsControl(rest[0]) then t.Pad() else t
  }

  /** What measuring a run promises: it fits, and stops for a reason. */
  ghost predicate Measured(t: Screen, run: string, rest: string, index: nat)
    requires t.InRange()
  {
    var w, more := |RunCells(run, t.wide)|, rest != [] && !IsControl(rest[0]);
    && Printable(run) && t.column + w <= t.columns
    && (if t.wide && t.column + w == t.columns - 1 && more then index == w + 2
        else index == w && (t.column + w == t.columns || !more))
  }

  /** The line end: a cursor one column too far pads the last column first. */
  function Ended(t: Screen): (u: Screen)
    requires t.Shaped() && 0 <= t.row < t.rows && 0 <= t.column <= t.columns + 1
    ensures u.InRange() && u.wide == t.wide
  {
    if t.column > t.columns then t.(column := t.column - 2).Place([Narrow(' ')])
    else if t.column == t.columns then t.Wrap()
    else t
  }

  /** Same but for the grid; same grid too if `exact`. */
  ghost predicate Like(t: Screen, u: Screen, exact: bool) {
    t.(grid := u.grid) == u && (exact ==> t == u)
  }

  lemma PlaceLike(t: Screen, u: Screen, cells: seq<Cell>, exact: bool)
    requires Like(t, u, exact) && t.InRange() && u.Shaped() && t.column + |cells| <= t.columns
    ensures Like(t.Place(cells), u.Place(cells), exact)
  {
  }

  lemma EndedLike(t: Screen, u: Screen, exact: bool)
    requires Like(t, u, exact) && u.Shaped() && t.Shaped() && 0 <= t.row < t.rows && 0 <= t.column <= t.columns + 1
    ensures Like(Ended(t), Ended(u), exact)
  {
    if t.column > t.columns {
      PlaceLike(t.(column := t.column - 2), u.(column := u.column - 2), [Narrow(' ')], exact);
    }
  }

  /** The screen after drawing a measured run at once and advancing by `index`. */
  function Drawn(t: Screen, run: string, index: nat): (u: Screen)
    requires t.InRange() && t.column + |RunCells(run, t.wide)| <= t.columns
    ensures u.Shaped() && u.wide == t.wide
  {
    t.Draw(RunCells(run, t.wide)).(column := t.column + index)
  }

  lemma DrawNothing(t: Screen)
    requires t.InRange()
    ensures t.Draw([]) == t
  {
    assert t.grid[t.row][..t.column] + [] + t.grid[t.row][t.column..] == t.grid[t.row];
  }

  /** Drawing a measured run at once is printing its characters one by one. */
  lemma DrawnIsRun(t: Screen, run: string, rest: string, index: nat)
    requires t.InRange() && Measured(t, run, rest, index) && (run != [] || (rest != [] && !IsControl(rest[0])))
    ensures t.column + index <= t.columns + 1
    ensures Ended(Drawn(t, run, index)) == Settle(t.Run(run), rest)
    ensures run == [] ==> t.column + index == t.columns + 1
  {
    if run == [] {
      DrawNothing(t);
    } else {
      RunFits(t, run);
    }
  }

  lemma SettleThenRun(t: Screen, rest: string)
    requires t.InRange()
    ensures Settle(t, rest).Run(rest) == t.Run(rest)
  {
  }

  lemma SpaceOutput(t: Screen)
    requires t.InRange()
    ensures t.Output(SPACE_STR) == t.Place([Narrow(' ')])
  {
    var u := t.(wide := false);
    assert SPACE_STR[1..] == [' '];
    assert [' '][1..] == [];
    assert t.Run(SPACE_STR) == u.Run([' ']) == u.Place([Narrow(' ')]);
  }

  lemma CrLfOutput(t: Screen)
    requires t.Ready(CRLF_STR)
    ensures t.Output(CRLF_STR) == t.Wrap()
  {
    var u := t.(column := 0);
    assert CRLF_STR[1..] == [LINEFEED];
    assert [LINEFEED][1..] == [];
    assert t.Run(CRLF_STR) == u.Run([LINEFEED]) == u.Feed();
  }

  // ---------- Equal cursors, and equal screens when every glyph is there ----------

  lemma PrintLike(t: Screen, u: Screen, ch: char, exact: bool)
    requires Like(t, u, exact) && t.InRange() && u.Shaped()
    ensures Like(t.Pad(), u.Pad(), exact) && Like(t.Print(ch), u.Print(ch), exact)
  {
    if t.wide && t.column == t.columns - 1 {
      PlaceLike(t, u, [Narrow(' ')], exact);
    }
    PlaceLike(t.Pad(), u.Pad(), CellsOf(ch, t.wide), exact);
  }

  lemma TypeLike(t: Screen, u: Screen, ch: char, exact: bool)
    requires Like(t, u, exact) && t.Ready([ch]) && u.Shaped()
    ensures Like(t.Type(ch), u.Type(ch), exact)
  {
    if !IsControl(ch) {
      PrintLike(t, u, ch, exact);
    }
  }

  lemma {:induction false} RunLike(t: Screen, u: Screen, s: string, exact: bool)
    requires Like(t, u, exact) && t.Ready(s) && u.Shaped()
    ensures Like(t.Run(s), u.Run(s), exact)
    decreases |s|
  {
    if s == [] {
    } else {
      TypeLike(t, u, s[0], exact);
      RunLike(t.Type(s[0]), u.Type(s[0]), s[1..], exact);
    }
  }

  // ---------- The console ----------

  /** Nested calls print less and less: any string, then a space, then a line end. */
  function Rank(s: string): nat {
    if s == CRLF_STR then 0 else if s == SPACE_STR then 1 else 2
  }

  lemma AfterControl(s: Screen, s': Screen, ws: string, p: nat, exact: bool)
    requires p < |ws| && s.Ready(ws[p..]) && s'.InRange() && Like(s', s.Type(ws[p]), exact)
    ensures s'.Ready(ws[p + 1..]) && Like(s'.Run(ws[p + 1..]), s.Run(ws[p..]), exact)
  {
    assert ws[p..][1..] == ws[p + 1..];
    RunLike(s', s.Type(ws[p]), ws[p + 1..], exact);
  }

  lemma AfterRun(s: Screen, s': Screen, ws: string, p: nat, count: nat, exact: bool)
    requires p + count <= |ws| && s.InRange() && s'.InRange()
    requires Like(s', Settle(s.Run(ws[p..p + count]), ws[p + count..]), exact)
    ensures Like(s'.Run(ws[p + count..]), s.Run(ws[p..]), exact)
  {
    var run, rest := ws[p..p + count], ws[p + count..];
    assert ws[p..] == run + rest;
    RunConcat(s, run, rest);
    SettleThenRun(s.Run(run), rest);
    RunLike(s', Settle(s.Run(run), rest), rest, exact);
  }

  class Console {
    const columns: nat
    const rows: nat
    const glyph: char -> bool         // which characters the font can draw
    var grid: seq<seq<Cell>>
    var column: int
    var row: int
    var wide: bool

    constructor (columns: nat, rows: nat, glyph: char -> bool)
      requires 2 <= columns && 1 <= rows
      ensures State() == Screen(columns, rows, seq(rows, _ => seq(columns, _ => Blank)), 0, 0, false)
      ensures State().InRange() && this.glyph == glyph
    {
      this.columns, this.rows, this.glyph := columns, rows, glyph;
      grid := seq(rows, _ => seq(columns, _ => Blank));
      column, row, wide := 0, 0, false;
    }

    ghost function State(): Screen
      reads this
    {
      Screen(columns, rows, grid, column, row, wide)
    }

    ghost predicate Drawable(s: string) {
      forall i :: 0 <= i < |s| && !IsControl(s[i]) ==> glyph(s[i])
    }

    function WithGlyph(s: string): (d: string)
      ensures |d| <= |s|
      ensures (forall i :: 0 <= i < |s| ==> glyph(s[i])) ==> d == s
    {
      if s == [] then [] else (if glyph(s[0]) then [s[0]] else []) + WithGlyph(s[1..])
    }

    /** Draws a run at the cursor; characters without a glyph are left out. */
    method DrawRun(run: string)
      requires State().InRange() && column + |RunCells(run, wide)| <= columns
      modifies this`grid
      ensures Like(State(), old(State()).Draw(RunCells(run, wide)), forall i :: 0 <= i < |run| ==> glyph(run[i]))
      ensures State().InRange()
    {
      var cells := RunCells(WithGlyph(run), wide);
      grid := grid[row := grid[row][..column] + cells + grid[row][column + |cells|..]];
    }

    /**
     Measures the run of printable characters from `p` on that fits on the line: `count` characters, and the columns
     to advance; one column too many says that a wide character did not fit.
     */
    method MeasureRun(ws: string, p: nat) returns (count: nat, index: nat)
      requires State().InRange() && p < |ws|
      ensures p + count <= |ws| && Printable(ws[p..p + count])
      ensures var w := if wide then 2 * count else count;
              var more := p + count < |ws| && !IsControl(ws[p + count]);
              && column + w <= columns
              && (if wide && column + w == columns - 1 && more then index == w + 2
                  else index == w && (column + w == columns || !more))
    {
      count, index := 0, 0;
      while column + index < columns && p + count < |ws| && !IsControl(ws[p + count])
        invariant p + count <= |ws| && column + index <= columns
        invariant index == if wide then 2 * count else count
        invariant forall i :: p <= i < p + count ==> !IsControl(ws[i])
        decreases |ws| - p - count
      {
        if wide {
          index := index + 1;
          if column + index + 1 > columns {
            index := index + 1;
            return;
          }
        }
        count, index := count + 1, index + 1;
      }
    }

    /** Every character has a glyph, and so has the space that blanks cells. */
    ghost predicate Exact(ws: string) {
      Drawable(ws) && glyph(' ')
    }

    /** Ends the line when the cursor has moved past it. */
    method EndLine()
      requires State().Shaped() && 0 <= row < rows && 0 <= column <= columns + 1
      modifies this
      ensures State().InRange() && Like(State(), Ended(old(State())), glyph(' '))
      decreases if column > columns then 2 else 1, 0
    {
      if column > columns {
        column := column - 2;
        SpaceOutput(State());
        OutputString(SPACE_STR);
      }
      if column >= columns {
        CrLfOutput(State());
        OutputString(CRLF_STR);
      }
    }

    /** Prints the run that starts at `p`, and ends the line when it is full. */
    method PrintRun(ws: string, p: nat, ghost exact: bool) returns (count: nat)
      requires State().InRange() && p < |ws| && !IsControl(ws[p])
      requires ws != CRLF_STR && (ws == SPACE_STR ==> !wide) && (exact ==> Exact(ws))
      modifies this
      ensures State().InRange() && wide == old(wide) && p + count <= |ws|
      ensures count == 0 ==> wide && old(column) == columns - 1 && column == 0
      ensures Like(State(), Settle(old(State()).Run(ws[p..p + count]), ws[p + count..]), exact)
      decreases Rank(ws), 1
    {
      var index;
      count, index := MeasureRun(ws, p);
      ghost var s := State();
      DrawnIsRun(s, ws[p..p + count], ws[p + count..], index);
      DrawRun(ws[p..p + count]);
      column := column + index;
      EndedLike(State(), Drawn(s, ws[p..p + count], index), exact);
      EndLine();
    }

    /** Moves back one cell and blanks it. */
    method StepBack()
      requires State().InRange()
      modifies this
      ensures State().InRange() && Like(State(), old(State()).Back(), glyph(' '))
      decreases 2, 0
    {
      if column == 0 && row > 0 {
        row := row - 1;
        column := columns - 1;
        SpaceOutput(State());
        OutputString(SPACE_STR);
        row := row - 1;
        column := columns - 1;
      } else if column > 0 {
        column := column - 1;
        SpaceOutput(State());
        OutputString(SPACE_STR);
        column := column - 1;
      }
    }

    /** Acts on one control character. */
    method TypeControl(ch: char)
      requires IsControl(ch) && State().Ready([ch])
      modifies this
      ensures State().InRange() && Like(State(), old(State()).Type(ch), glyph(' '))
      decreases if ch == BACKSPACE then 2 else 0, 1
    {
      if ch == BACKSPACE {
        StepBack();
      } else if ch == LINEFEED {
        if row == rows - 1 {
          grid := grid[1..] + [seq(columns, _ => Blank)];
        } else {
          row := row + 1;
        }
      } else if ch == CARRIAGE_RETURN {
        column := 0;
      } else if ch == WIDE_CHAR {
        wide := true;
      } else {
        wide := false;
      }
    }

    /** One pass of OutputString: a control character, or a run. */
    method Pass(ws: string, p: nat, ghost final: Screen, ghost exact: bool) returns (next: nat)
      requires p < |ws| && State().Ready(ws[p..]) && Like(State().Run(ws[p..]), final, exact)
      requires (ws == SPACE_STR && p == 1 ==> !wide) && (exact ==> Exact(ws))
      modifies this
      ensures p <= next <= |ws| && State().Ready(ws[next..]) && Like(State().Run(ws[next..]), final, exact)
      ensures ws == SPACE_STR && next == 1 ==> !wide
      ensures next == p ==> old(wide && column == columns - 1) && column == 0
      decreases Rank(ws), 2
    {
      ghost var s := State();
      if IsControl(ws[p]) {
        TypeControl(ws[p]);
        AfterControl(s, State(), ws, p, exact);
        next := p + 1;
      } else {
        var count := PrintRun(ws, p, exact);
        AfterRun(s, State(), ws, p, count, exact);
        next := p + count;
      }
    }

    /** Prints `ws`, the characters of the string before its terminator. */
    method OutputString(ws: string)
      requires State().Ready(ws)
      modifies this
      ensures State().InRange()
      ensures Like(State(), old(State()).Output(ws), Exact(ws))
      ensures (glyph(' ') && (forall i :: 0 <= i < |ws| ==> ws[i] in CONTROLS || glyph(ws[i])) ==>
                && (exists trace :: Typing(trace, old(State()), State(), ws))
                && (ws != [] && Plain(ws) && old(State()).InRange() ==> Fitting(old(State()), State(), ws)))
      decreases Rank(ws), 3
    {
      ghost var start := State();
      var origin := wide;
      var p: nat := 0;
      ghost var final := State().Run(ws);
      assert ws[0..] == ws;
      while p < |ws|
        invariant p <= |ws| && State().Ready(ws[p..]) && Like(State().Run(ws[p..]), final, Exact(ws))
        invariant ws == SPACE_STR && p == 1 ==> !wide
        decreases |ws| - p, if wide && column == columns - 1 then 1 else 0
      {
        p := Pass(ws, p, final, Exact(ws));
      }
      wide := origin;
      if Exact(ws) {
        OutputShows(start, ws);
      }
    }
  }

  /** Printing a string without width controls and then another leaves the screen of printing both in one call. */
  method OutputBoth(console: Console, a: string, b: string)
    requires console.State().InRange() && NoWidthControls(a) && console.Exact(a) && console.Exact(b)
    modifies console
    ensures console.State() == old(console.State()).Output(a + b)
  {
    ghost var start := console.State();
    WidthKept(a, start.wide);
    OutputConcatExactly(start, a);
    console.OutputString(a);
    console.OutputString(b);
  }
}
