/**
 * What the reference terminal makes of text, said in rows, columns and character
 * codes: where each character ends up, and what the control characters do.
 */
module TerminalText {
  import opened Basics
  import opened ConsoleTypes
  import opened Matrix
  import opened ConsoleBuffers
  import opened Terminal

  // An item that fills one cell: it is not full-width, nor a control character that
  // is processed.
  predicate IsNarrow(st: Style, sm: Sequence, k: nat)
    requires k < sm.Length()
  {
    sm.WriteStr? ==>
      !st.classes.isFullWidth(sm.str[k]) && (st.processed ==> sm.str[k] !in {7, 8, 9, 10, 13})
  }

  // A string overwrites a cell; a fill of characters keeps its attributes, and a fill
  // of attributes its characters.
  predicate IsFilled(st: Style, sm: Sequence, k: nat, was: CharInfo, now: CharInfo)
    requires k < sm.Length()
  {
    match sm
    case WriteStr(s) => now.text == [s[k]] && now.attr == st.attributes
    case FillChar(c, _) => now.text == [c] && now.attr == was.attr
    case FillAttr(a, _) => now.text == was.text && now.attr == a
  }

  // A cell of the unbounded terminal; lines that are not there yet are blank.
  ghost function CellAt(st: Style, t: Term, row: nat, col: nat): CharInfo
    requires ValidTerm(st, t) && col < st.width
  {
    if row < |t.lines| then t.lines[row][col] else CharInfo([32], st.attributes)
  }

  // How many cells lie from the cursor to a cell, line after line.
  function Distance(width: nat, t: Term, row: int, col: int): int { (row - t.y) * width + col - t.x }

  // The cells that n items from item i on go into, and that nothing else changes.
  ghost predicate FillsCells(st: Style, t: Term, r: Term, sm: Sequence, i: nat, n: nat)
    requires ValidTerm(st, t) && ValidTerm(st, r) && i + n <= sm.Length()
  {
    && |r.lines| == Max(|t.lines|, r.y + 1)
    && forall row, col :: 0 <= row < |r.lines| && 0 <= col < st.width ==>
         FillsCell(st, sm, i, n, Distance(st.width, t, row, col), CellAt(st, t, row, col), r.lines[row][col])
  }

  predicate FillsCell(st: Style, sm: Sequence, i: nat, n: nat, distance: int, was: CharInfo, now: CharInfo)
    requires i + n <= sm.Length()
  {
    if 0 <= distance < n then IsFilled(st, sm, i + distance, was, now) else now == was
  }

  // One item: in the cell of the cursor, or in the first of the next line.
  lemma OneItem(st: Style, t: Term, sm: Sequence, i: nat)
    requires ValidTerm(st, t) && 8 <= st.width && t.x <= st.width && i < sm.Length() && IsNarrow(st, sm, i)
    requires sm.WriteStr? ==> st.wrap || t.x < st.width
    ensures var u := Step(st, t, sm, i);
            && u.y == (if t.x < st.width then t.y else t.y + 1) && u.x == (if t.x < st.width then t.x else 0) + 1
            && FillsCells(st, t, u, sm, i, 1)
  {
    assert !st.IsControl(sm, i, 7) && !st.IsControl(sm, i, 8) && !st.IsControl(sm, i, 9);
    assert !st.IsControl(sm, i, 10) && !st.IsControl(sm, i, 13);
    var u := Step(st, t, sm, i);
    hide Distance, Style.IsControl, IsNarrow;
    forall row, col | 0 <= row < |u.lines| && 0 <= col < st.width
      ensures FillsCell(st, sm, i, 1, Distance(st.width, t, row, col), CellAt(st, t, row, col), u.lines[row][col])
    {
      DistanceStep(st.width, t, u, row, col);
    }
  }

  // The cursor is at distance 0, and a cell further on is a distance less away.
  lemma DistanceStep(width: nat, t: Term, u: Term, row: int, col: int)
    requires 8 <= width && 0 <= col < width && 0 <= t.x <= width
    requires u.y == (if t.x < width then t.y else t.y + 1) && u.x == (if t.x < width then t.x else 0) + 1
    ensures Distance(width, u, row, col) == Distance(width, t, row, col) - 1
    ensures Distance(width, t, row, col) == 0 <==> row == u.y && col == u.x - 1
  {
    var d := row - u.y;
    assert t.x == width ==> (row - t.y) * width == d * width + width;
    assert d >= 1 ==> d * width >= width;
    assert d <= -1 ==> d * width + width <= 0;
  }

  // Where the k-th cell is, counted from the beginning of a line.
  function RowOf(width: nat, k: int): int
    requires width > 0
  {
    k / width
  }

  function ColumnOf(width: nat, k: int): int
    requires width > 0
  {
    k % width
  }

  // Where the cursor is after n items: behind the last of them.
  predicate Advances(width: nat, t: Term, r: Term, n: nat)
    requires width > 0
  {
    && (n == 0 ==> r == t)
    && (n > 0 ==> r.y == t.y + RowOf(width, t.x + n - 1) && r.x == ColumnOf(width, t.x + n - 1) + 1)
  }

  lemma AdvancesMore(width: nat, t: Term, u: Term, r: Term, n: nat)
    requires 8 <= width && 0 <= t.x <= width && 1 <= n
    requires u.y == (if t.x < width then t.y else t.y + 1) && u.x == (if t.x < width then t.x else 0) + 1
    requires Advances(width, u, r, n - 1)
    ensures Advances(width, t, r, n) && u.y <= r.y
  {
    CellsOfLine(width, if t.x < width then t.x else 0);
    NextLineOn(width, n - 1);
    if n > 1 { RowsBelow(width, u.x + (n - 1) - 1); }
    hide RowOf, ColumnOf;
    assert t.x == width ==> t.x + n - 1 == width + (n - 1);
  }

  lemma CellsOfLine(width: nat, x: int)
    requires 0 <= x < width
    ensures RowOf(width, x) == 0 && ColumnOf(width, x) == x
    ensures RowOf(width, 0) == 0 && ColumnOf(width, 0) == 0
  {
    DivModIs(x, width, 0, x);
    DivModIs(0, width, 0, 0);
  }

  lemma RowsBelow(width: nat, k: nat)
    requires width > 0
    ensures RowOf(width, k) >= 0
  {
  }

  lemma NextLineOn(width: nat, k: nat)
    requires width > 0
    ensures RowOf(width, width + k) == RowOf(width, k) + 1 && ColumnOf(width, width + k) == ColumnOf(width, k)
  {
    assert width + k == (k / width + 1) * width + k % width;
    DivModIs(width + k, width, k / width + 1, k % width);
  }

  lemma DivModIs(n: int, w: nat, q: int, r: int)
    requires w > 0 && n == q * w + r && 0 <= r < w
    ensures n / w == q && n % w == r
  {
    var d := n / w - q;
    assert d * w == n / w * w - q * w;
    assert n / w * w == n - n % w;
    assert d >= 1 ==> d * w >= w;
    assert d <= -1 ==> d * w + w <= 0;
  }

  // Text of narrow characters that wraps, and every fill: the k-th item goes into the
  // k-th cell from the cursor on, counting line after line, and nothing else changes.
  lemma {:induction false} ItemsFillCells(st: Style, t: Term, sm: Sequence, i: nat)
    requires ValidTerm(st, t) && 8 <= st.width && t.x <= st.width && i <= sm.Length()
    requires (sm.WriteStr? ==> st.wrap) && forall k :: i <= k < sm.Length() ==> IsNarrow(st, sm, k)
    ensures TabsEnd(st, sm, i, t.x, true)
    ensures var r, n := Run(st, t, sm, i), sm.Length() - i;
            && Advances(st.width, t, r, n)
            && FillsCells(st, t, r, sm, i, n)
    decreases sm.Length() - i
  {
    TabsAlwaysEnd(st, sm, i, t.x, true);
    if i < sm.Length() {
      OneItem(st, t, sm, i);
      var u, n := Step(st, t, sm, i), sm.Length() - i;
      ItemsFillCells(st, u, sm, i + 1);
      OneStepEnds(st, sm, i, t.x);
      hide Step, TabsEnd, FillsCells, Advances;
      AdvancesMore(st.width, t, u, Run(st, t, sm, i), n);
      FillsMore(st, t, u, Run(st, t, sm, i), sm, i, n);
    } else {
      hide FillsCell;
      assert FillsCells(st, t, t, sm, i, 0) by { FillsNone(st, t, sm, i); }
    }
  }

  lemma FillsNone(st: Style, t: Term, sm: Sequence, i: nat)
    requires ValidTerm(st, t) && i <= sm.Length()
    ensures FillsCells(st, t, t, sm, i, 0)
  {
  }

  lemma FillsMore(st: Style, t: Term, u: Term, r: Term, sm: Sequence, i: nat, n: nat)
    requires ValidTerm(st, t) && ValidTerm(st, u) && ValidTerm(st, r) && 8 <= st.width && t.x <= st.width
    requires 1 <= n && i + n <= sm.Length() && u.y <= r.y
    requires u.y == (if t.x < st.width then t.y else t.y + 1) && u.x == (if t.x < st.width then t.x else 0) + 1
    requires FillsCells(st, t, u, sm, i, 1) && FillsCells(st, u, r, sm, i + 1, n - 1)
    ensures FillsCells(st, t, r, sm, i, n)
  {
    hide Distance, IsFilled;
    forall row, col | 0 <= row < |r.lines| && 0 <= col < st.width
      ensures FillsCell(st, sm, i, n, Distance(st.width, t, row, col), CellAt(st, t, row, col), r.lines[row][col])
    {
      DistanceStep(st.width, t, u, row, col);
      var k := Distance(st.width, t, row, col);
      assert FillsCell(st, sm, i + 1, n - 1, k - 1, CellAt(st, u, row, col), r.lines[row][col]);
      if row < |u.lines| {
        assert FillsCell(st, sm, i, 1, k, CellAt(st, t, row, col), u.lines[row][col]);
      }
    }
  }

  // Wrapped narrow text from column x on: character k in row (x + k) / width and
  // column (x + k) % width, the cursor behind the last.
  lemma TextFillsRows(st: Style, t: Term, s: seq<Wchar>, k: nat)
    requires ValidTerm(st, t) && 8 <= st.width && t.x <= st.width && st.wrap && k < |s|
    requires forall i :: 0 <= i < |s| ==> !st.classes.isFullWidth(s[i]) && s[i] !in {7, 8, 9, 10, 13}
    ensures TabsEnd(st, WriteStr(s), 0, t.x, true)
    ensures var r, row, col := Run(st, t, WriteStr(s), 0), t.y + (t.x + k) / st.width, (t.x + k) % st.width;
            && row <= r.y < |r.lines| && r.lines[row][col] == CharInfo([s[k]], st.attributes)
            && (k == |s| - 1 ==> r.y == row && r.x == col + 1)
  {
    var n := |s|;
    ItemsFillCells(st, t, WriteStr(s), 0);
    CharacterAt(st, t, Run(st, t, WriteStr(s), 0), s, k);
    hide Run, TabsEnd, FillsCells, Advances;
  }

  lemma CharacterAt(st: Style, t: Term, r: Term, s: seq<Wchar>, k: nat)
    requires ValidTerm(st, t) && ValidTerm(st, r) && 8 <= st.width && k < |s|
    requires Advances(st.width, t, r, |s|) && FillsCells(st, t, r, WriteStr(s), 0, |s|)
    ensures var row, col := t.y + RowOf(st.width, t.x + k), ColumnOf(st.width, t.x + k);
            && 0 <= row <= r.y < |r.lines| && 0 <= col < st.width
            && r.lines[row][col] == CharInfo([s[k]], st.attributes)
            && (k == |s| - 1 ==> r.y == row && r.x == col + 1)
  {
    var row, col := t.y + RowOf(st.width, t.x + k), ColumnOf(st.width, t.x + k);
    RowsInOrder(st.width, t.x + k, t.x + |s| - 1);
    hide RowOf, ColumnOf, CellAt;
    assert Distance(st.width, t, row, col) == k;
    hide Distance;
    assert FillsCell(st, WriteStr(s), 0, |s|, k, CellAt(st, t, row, col), r.lines[row][col]);
  }

  lemma RowsInOrder(width: nat, k: int, m: int)
    requires width > 0 && 0 <= k <= m
    ensures 0 <= RowOf(width, k) <= RowOf(width, m) && 0 <= ColumnOf(width, k) < width
    ensures k == RowOf(width, k) * width + ColumnOf(width, k)
  {
    var d := k / width - m / width;
    assert k == k / width * width + k % width && m == m / width * width + m % width;
    assert d >= 1 ==> d * width >= width;
    assert d * width == k / width * width - m / width * width;
  }

  // ---------------------------------------------------------------- control characters

  // All lines are as they were, and one more is blank.
  ghost predicate OneLineMore(st: Style, t: Term, r: Term)
    requires ValidTerm(st, t) && ValidTerm(st, r)
  {
    && r.y == t.y + 1 && |r.lines| == Max(|t.lines|, t.y + 2) && r.lines[..|t.lines|] == t.lines
    && forall row, col :: |t.lines| <= row < |r.lines| && 0 <= col < st.width ==>
         r.lines[row][col] == CharInfo([32], st.attributes)
  }

  lemma OneCharacter(st: Style, t: Term, c: Wchar)
    requires ValidTerm(st, t) && 8 <= st.width && (st.processed && c == 9 ==> st.StopAhead(t.x))
    ensures TabsEnd(st, WriteStr([c]), 0, t.x, true)
    ensures Run(st, t, WriteStr([c]), 0) == Step(st, t, WriteStr([c]), 0)
  {
    hide Step;
  }

  // A line feed keeps the column, but for a cursor past the last one, which is pulled
  // back to it whether there is wrap or not.
  lemma LineFeedKeepsColumn(st: Style, t: Term)
    requires ValidTerm(st, t) && 8 <= st.width && st.processed
    ensures TabsEnd(st, WriteStr([10]), 0, t.x, true)
    ensures var r := Run(st, t, WriteStr([10]), 0);
            r.x == Min(t.x, st.width - 1) && OneLineMore(st, t, r)
  {
    OneCharacter(st, t, 10);
    hide Run, TabsEnd;
  }

  // A return goes to the beginning of the same line, from past the last column too.
  lemma ReturnKeepsLine(st: Style, t: Term)
    requires ValidTerm(st, t) && 8 <= st.width && st.processed
    ensures TabsEnd(st, WriteStr([13]), 0, t.x, true)
    ensures Run(st, t, WriteStr([13]), 0) == Term(t.lines, 0, t.y)
  {
    OneCharacter(st, t, 13);
    hide Run, TabsEnd;
  }

  // A backspace goes one column left, if there is one, and stays in its line, except
  // that past the last column wrap comes first, and takes it to the next line.
  lemma BackspaceGoesLeft(st: Style, t: Term)
    requires ValidTerm(st, t) && 8 <= st.width && st.processed
    ensures TabsEnd(st, WriteStr([8]), 0, t.x, true)
    ensures var r := Run(st, t, WriteStr([8]), 0);
            if st.wrap && t.x >= st.width then r.x == 0 && OneLineMore(st, t, r)
            else r == Term(t.lines, Max(Min(t.x, st.width - 1) - 1, 0), t.y)
  {
    OneCharacter(st, t, 8);
    hide Run, TabsEnd;
  }

  lemma BellDoesNothing(st: Style, t: Term)
    requires ValidTerm(st, t) && 8 <= st.width && st.processed
    ensures TabsEnd(st, WriteStr([7]), 0, t.x, true) && Run(st, t, WriteStr([7]), 0) == t
  {
    OneCharacter(st, t, 7);
    hide Run, TabsEnd;
  }

  // Past the last column without wrap a character goes into the last column.
  lemma NoWrapOverwrites(st: Style, t: Term, c: Wchar)
    requires ValidTerm(st, t) && 8 <= st.width && !st.wrap && t.x >= st.width && c !in {7, 8, 9, 10, 13}
    ensures TabsEnd(st, WriteStr([c]), 0, t.x, true)
    ensures var r, w := Run(st, t, WriteStr([c]), 0), st.width;
            && r.lines == t.lines[t.y := t.lines[t.y][w - 1 := CharInfo([c], st.attributes)]] && r.y == t.y
            && r.x == if st.classes.isFullWidth(c) then w + 1 else w
  {
    OneCharacter(st, t, c);
    hide Run, TabsEnd;
    var sm := WriteStr([c]);
    assert sm.str[0] == c;
    var row, ch := t.lines[t.y], CharInfo([c], st.attributes);
    if row[st.width - 1] == ch {
      assert row == row[st.width - 1 := ch];
    }
    assert t.lines[t.y := row] == t.lines;
  }

  // A full-width character takes its cell and leaves a blank half in the next, unless
  // the cell shows it already, or is the last of the line.
  lemma WideTakesTwo(st: Style, t: Term, c: Wchar)
    requires ValidTerm(st, t) && 8 <= st.width && t.x < st.width && st.classes.isFullWidth(c)
    requires c !in {7, 8, 9, 10, 13}
    ensures TabsEnd(st, WriteStr([c]), 0, t.x, true)
    ensures var r, ch := Run(st, t, WriteStr([c]), 0), CharInfo([c], st.attributes);
            && r.y == t.y && r.x == t.x + 2 && |r.lines| == |t.lines| && r.lines[t.y][t.x] == ch
            && forall row, col :: 0 <= row < |r.lines| && 0 <= col < st.width && (row != t.y || col != t.x) ==>
                 r.lines[row][col] == if row == t.y && col == t.x + 1 && t.lines[row][t.x] != ch
                                      then CharInfo([0], st.attributes) else t.lines[row][col]
  {
    OneCharacter(st, t, c);
    hide Run, TabsEnd;
    assert WriteStr([c]).str[0] == c;
  }

  // ---------------------------------------------------------------- tabs

  // The blanks that a tab comes to.
  function BlanksOfTab(st: Style, x: nat): nat
    requires 8 <= st.width
  {
    if x >= st.width then (if st.wrap then 8 else 1)
    else if x / 8 * 8 + 8 <= st.width then 8 - x % 8
    else st.width - x + 8
  }

  // A tab is that many blanks, and ends in a column that is a multiple of 8.
  lemma TabIsBlanks(st: Style, t: Term)
    requires ValidTerm(st, t) && 8 <= st.width && st.processed && st.StopAhead(t.x) && !st.classes.isFullWidth(32)
    ensures var blanks := seq(BlanksOfTab(st, t.x), _ => 32 as Wchar);
            && TabsEnd(st, WriteStr([9]), 0, t.x, true) && TabsEnd(st, WriteStr(blanks), 0, t.x, true)
            && Run(st, t, WriteStr([9]), 0) == Run(st, t, WriteStr(blanks), 0)
            && Run(st, t, WriteStr([9]), 0).x % 8 == 0
  {
    OneCharacter(st, t, 9);
    var blanks := seq(BlanksOfTab(st, t.x), _ => 32 as Wchar);
    BlanksEnd(st, blanks, t.x);
    TabRuns(st, t, WriteStr(blanks), 0, WriteStr([9]), 0);
  }

  lemma BlanksEnd(st: Style, blanks: seq<Wchar>, x: int)
    requires 8 <= st.width && forall i :: 0 <= i < |blanks| ==> blanks[i] == 32
    ensures TabsEnd(st, WriteStr(blanks), 0, x, true)
  {
    TabsAlwaysEnd(st, WriteStr(blanks), 0, x, true);
  }

  lemma {:induction false} TabRuns(st: Style, t: Term, p: Sequence, i: nat, q: Sequence, j: nat)
    requires ValidTerm(st, t) && 8 <= st.width && st.IsControl(q, j, TAB) && st.StopAhead(t.x)
    requires p.WriteStr? && i <= |p.str| && |p.str| - i == BlanksOfTab(st, t.x) && !st.classes.isFullWidth(32)
    requires (forall k :: 0 <= k < |p.str| ==> p.str[k] == 32) && TabsEnd(st, p, i, t.x, true)
    ensures Run(st, t, p, i) == PutTab(st, t, q, j)
    decreases BlanksToTabStop(st.width, t.x)
  {
    OneStepEnds(st, p, i, t.x);
    OneBlank(st, t, p, i, q, j);
    var next := Step(st, t, p, i);
    if next.x % 8 != 0 {
      TabProgress(st, q, j, t.x);
      hide Step;
      TabRuns(st, next, p, i + 1, q, j);
    }
  }

  lemma OneBlank(st: Style, t: Term, p: Sequence, i: nat, q: Sequence, j: nat)
    requires ValidTerm(st, t) && 8 <= st.width && st.IsControl(q, j, TAB) && st.StopAhead(t.x)
    requires p.WriteStr? && i < |p.str| && p.str[i] == 32 && !st.classes.isFullWidth(32)
    ensures Step(st, t, p, i) == PutItem(st, Settle(st, t, q, j), q, j)
    ensures var x := Step(st, t, p, i).x;
            BlanksOfTab(st, t.x) == 1 + if x % 8 == 0 then 0 else BlanksOfTab(st, x)
  {
  }
}
