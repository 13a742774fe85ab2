/**
 * The reference terminal: lines of fixed width, as many as it takes, and a
 * cursor that may rest past the last column.  It has no screen height, no
 * scroll region and nothing is ever lost off the top.  ConsoleOutput is shown
 * to be a window on it.
 */
module Terminal {
  import opened Basics
  import opened ConsoleTypes
  import opened Matrix
  import opened ConsoleBuffers

  const TAB_WIDTH := 8
  const BELL: Wchar := 7
  const BACKSPACE: Wchar := 8
  const TAB: Wchar := 9
  const NEWLINE: Wchar := 10
  const RETURN: Wchar := 13
  const SPACE: Wchar := 32
  const ZERO_WIDTH_JOINER: Wchar := 0x200D
  const VARIATION_SELECTOR_16: Wchar := 0xFE0F

  // Character properties; their tables are not part of this model.
  datatype CharClasses = CharClasses(isPrefix: Wchar -> bool, isSuffix: Wchar -> bool, isFullWidth: Wchar -> bool,
                                     isFullWidthText: seq<Wchar> -> bool)
  {
    predicate Plain(c: Wchar) { !isPrefix(c) && !isSuffix(c) && c != ZERO_WIDTH_JOINER }
  }

  // What an output call writes: a string, or a character or attribute repeated.
  datatype Sequence = WriteStr(str: seq<Wchar>) | FillChar(chr: Wchar, times: nat) | FillAttr(attr: nat, times: nat)
  {
    function Length(): nat { match this case WriteStr(s) => |s| case FillChar(_, n) => n case FillAttr(_, n) => n }

    predicate IsAt(i: nat, c: Wchar) { WriteStr? && i < |str| && str[i] == c }

    predicate PlainText(classes: CharClasses) {
      match this
      case WriteStr(s) => forall i :: 0 <= i < |s| ==> classes.Plain(s[i])
      case FillChar(c, _) => c != ZERO_WIDTH_JOINER
      case FillAttr(_, _) => true
    }

    predicate HasTab() { WriteStr? && TAB in str }
  }

  // The settings in force during one output call.
  datatype Style = Style(width: nat, processed: bool, wrap: bool, attributes: nat, classes: CharClasses)
  {
    // A tab met in column x reaches a tab stop: only without wrap can there be
    // columns after the last stop that it does not get out of.
    predicate StopAhead(x: int)
      requires 8 <= width
    {
      wrap || width % TAB_WIDTH == 0 || x < width - width % TAB_WIDTH
    }

    predicate IsControl(sm: Sequence, i: nat, c: Wchar) { processed && sm.IsAt(i, c) }
  }

  datatype Term = Term(lines: Grid<CharInfo>, x: int, y: int)

  ghost predicate ValidTerm(st: Style, t: Term) {
    && IsGrid(t.lines, st.width, |t.lines|)
    && 0 <= t.y < |t.lines| && 0 <= t.x <= st.width + 1
  }

  ghost function LineFeed(st: Style, t: Term): (r: Term)
    requires ValidTerm(st, t)
    ensures ValidTerm(st, r) && r.x == t.x && r.y == t.y + 1
  {
    if t.y + 1 < |t.lines| then t.(y := t.y + 1)
    else t.(lines := t.lines + [BlankRow(st.width, st.attributes)], y := t.y + 1)
  }

  // Before anything but a bell, a cursor past the last column wraps to the
  // next line or is pulled back.
  ghost function Settle(st: Style, t: Term, sm: Sequence, i: nat): (r: Term)
    requires ValidTerm(st, t) && st.width > 0
    ensures ValidTerm(st, r) && r.x < st.width && r.x == SettledColumn(st, sm, i, t.x)
  {
    if t.x < st.width then t
    else if !sm.WriteStr? || (st.wrap && !st.IsControl(sm, i, RETURN) && !st.IsControl(sm, i, NEWLINE))
    then LineFeed(st, t).(x := 0)
    else t.(x := st.width - 1)
  }

  // A cell is written only if it changes; a full-width character that changes
  // its cell also takes the next one.
  ghost function PutCell(row: seq<CharInfo>, x: nat, ch: CharInfo, wide: bool): (r: seq<CharInfo>)
    requires x < |row|
    ensures |r| == |row|
  {
    if row[x] == ch then row
    else if wide && x + 1 < |row| then row[x := ch][x + 1 := ch.(text := [0])]
    else row[x := ch]
  }

  // The cell item i of the sequence puts in place of 'old'.
  ghost function CellFor(st: Style, sm: Sequence, i: nat, old_: CharInfo): CharInfo
    requires i < sm.Length()
  {
    match sm
    case WriteStr(s) => CharInfo([if st.IsControl(sm, i, TAB) then SPACE else s[i]], st.attributes)
    case FillChar(c, _) => old_.(text := [c])
    case FillAttr(a, _) => old_.(attr := a)
  }

  predicate IsWide(st: Style, sm: Sequence, i: nat)
    requires i < sm.Length()
  {
    sm.WriteStr? && !st.IsControl(sm, i, TAB) && st.classes.isFullWidth(sm.str[i])
  }

  // A row with item i put into column x.
  ghost function PutInRow(st: Style, row: seq<CharInfo>, x: nat, sm: Sequence, i: nat): (r: seq<CharInfo>)
    requires x < |row| && i < sm.Length()
    ensures |r| == |row|
  {
    PutCell(row, x, CellFor(st, sm, i, row[x]), IsWide(st, sm, i))
  }

  ghost function PutItem(st: Style, t: Term, sm: Sequence, i: nat): (r: Term)
    requires ValidTerm(st, t) && t.x < st.width && i < sm.Length()
    ensures ValidTerm(st, r) && r.x == t.x + Columns(st, sm, i)
  {
    Term(t.lines[t.y := PutInRow(st, t.lines[t.y], t.x, sm, i)], t.x + Columns(st, sm, i), t.y)
  }

  // Blanks from the cursor's column to the next multiple of eight, or over the
  // end of the line to the first tab stop of the next.
  ghost function BlanksToTabStop(width: nat, x: int): int {
    if x >= width then 8
    else if x - x % 8 + 8 <= width then 8 - x % 8
    else width - x + 8
  }

  // The column a pass over item i starts from.
  function SettledColumn(st: Style, sm: Sequence, i: nat, x: int): int {
    if x < st.width then x
    else if !sm.WriteStr? || (st.wrap && !st.IsControl(sm, i, RETURN) && !st.IsControl(sm, i, NEWLINE)) then 0
    else st.width - 1
  }

  // A blank before the next stop leaves one column less to it.
  lemma BlankAdvances(width: nat, s: int, next: int)
    requires 8 <= width && s < width && next == s + 1 && next % TAB_WIDTH != 0
    ensures 0 <= BlanksToTabStop(width, next) < BlanksToTabStop(width, s)
  {
    var q, r := s / 8, s % 8;
    assert s == 8 * q + r && next == 8 * q + (r + 1);
    assert next % 8 == r + 1;
  }

  // A tab that has not reached a stop has fewer blanks to go, and still gets there.
  lemma TabProgress(st: Style, sm: Sequence, i: nat, x: int)
    requires 8 <= st.width && st.IsControl(sm, i, TAB) && st.StopAhead(x)
    requires (SettledColumn(st, sm, i, x) + 1) % TAB_WIDTH != 0
    ensures var next := SettledColumn(st, sm, i, x) + 1;
            st.StopAhead(next) && 0 <= BlanksToTabStop(st.width, next) < BlanksToTabStop(st.width, x)
  {
    var s := SettledColumn(st, sm, i, x);
    if x < st.width || st.wrap {
      BlankAdvances(st.width, s, s + 1);
    }
    var w := st.width / 8;
    assert st.width == 8 * w + st.width % 8;
  }

  // The column of the tab stop that a tab in column x comes to.
  function TabStop(st: Style, sm: Sequence, i: nat, x: int): (c: int)
    requires 8 <= st.width && st.IsControl(sm, i, TAB) && st.StopAhead(x)
    ensures c % TAB_WIDTH == 0
    decreases BlanksToTabStop(st.width, x)
  {
    var next := SettledColumn(st, sm, i, x) + 1;
    if next % TAB_WIDTH == 0 then next
    else
      TabProgress(st, sm, i, x);
      TabStop(st, sm, i, next)
  }

  // The column after item i or one blank of a tab, from a settled one.
  function AppliedColumn(st: Style, sm: Sequence, i: nat, s: int, out: int): int {
    if st.IsControl(sm, i, TAB) then s + 1
    else if st.IsControl(sm, i, BACKSPACE) then (if s > 0 then s - 1 else s)
    else if st.IsControl(sm, i, RETURN) then 0
    else if st.IsControl(sm, i, NEWLINE) then s
    else s + out
  }

  // The column after item i, if putting it takes 'out' columns.
  function ColumnAfter(st: Style, sm: Sequence, i: nat, x: int, out: int): int
    requires 8 <= st.width && (st.IsControl(sm, i, TAB) ==> st.StopAhead(x))
  {
    var s := SettledColumn(st, sm, i, x);
    if st.IsControl(sm, i, BELL) then x
    else if st.IsControl(sm, i, TAB) then TabStop(st, sm, i, x)
    else AppliedColumn(st, sm, i, s, out)
  }

  // The column after one pass of the code's loop over item i: a tab puts a single blank.
  function PassColumn(st: Style, sm: Sequence, i: nat, x: int, out: int): int
    requires 8 <= st.width
  {
    AppliedColumn(st, sm, i, SettledColumn(st, sm, i, x), out)
  }

  // How many columns putting item i may take: its width, on a screen without
  // joiners; but prefixes and suffixes, and a character after a joiner, go into
  // another cell.
  predicate Takes(st: Style, sm: Sequence, i: nat, out: int, joinFree: bool)
    requires i < sm.Length()
  {
    if joinFree || !sm.WriteStr? then out == Columns(st, sm, i)
    else if st.classes.isPrefix(sm.str[i]) then out == 0
    else if st.classes.isSuffix(sm.str[i]) then out == 0 || (out == 1 && sm.str[i] == VARIATION_SELECTOR_16)
    else out == 0 || out == Columns(st, sm, i)
  }

  function Columns(st: Style, sm: Sequence, i: nat): int
    requires i < sm.Length()
  {
    if IsWide(st, sm, i) then 2 else 1
  }

  // Every tab from item i on is met before the last stop, if such there are, so
  // that the sequence ends.
  predicate TabsEnd(st: Style, sm: Sequence, i: nat, x: int, joinFree: bool)
    requires 8 <= st.width && i <= sm.Length()
    decreases sm.Length() - i
  {
    i == sm.Length()
    || ((st.IsControl(sm, i, TAB) ==> st.StopAhead(x))
        && forall out :: 0 <= out <= 2 && Takes(st, sm, i, out, joinFree) ==>
             TabsEnd(st, sm, i + 1, ColumnAfter(st, sm, i, x, out), joinFree))
  }

  // Plain text may take its width anyway.
  lemma TakesPlain(st: Style, sm: Sequence, i: nat, out: int, plain: bool, joinFree: bool)
    requires i < sm.Length() && Takes(st, sm, i, out, plain)
    requires (joinFree ==> plain) && (plain ==> sm.PlainText(st.classes))
    ensures Takes(st, sm, i, out, joinFree)
  {
  }

  // A number of columns that item i may take.
  ghost function Taken(st: Style, sm: Sequence, i: nat, joinFree: bool): (out: int)
    requires i < sm.Length()
    ensures 0 <= out <= 2 && Takes(st, sm, i, out, joinFree)
  {
    if joinFree || !sm.WriteStr? then Columns(st, sm, i) else 0
  }

  lemma PassInRange(st: Style, sm: Sequence, i: nat, x: int, out: int)
    requires 8 <= st.width && i < sm.Length() && !st.IsControl(sm, i, BELL) && 0 <= out <= 2
    ensures var next := PassColumn(st, sm, i, x, out); next <= st.width + 1 && (0 <= x ==> 0 <= next)
  {
  }

  lemma OverBell(st: Style, sm: Sequence, i: nat, x: int, joinFree: bool)
    requires 8 <= st.width && i < sm.Length() && TabsEnd(st, sm, i, x, joinFree) && st.IsControl(sm, i, BELL)
    ensures TabsEnd(st, sm, i + 1, x, joinFree)
  {
    assert Takes(st, sm, i, Taken(st, sm, i, joinFree), joinFree);
  }

  // With wrap, on a width of whole tab stops, or without tabs there is nothing to it.
  lemma {:induction false} TabsAlwaysEnd(st: Style, sm: Sequence, i: nat, x: int, joinFree: bool)
    requires 8 <= st.width && i <= sm.Length()
    requires st.wrap || st.width % TAB_WIDTH == 0 || !st.processed || !sm.HasTab()
    ensures TabsEnd(st, sm, i, x, joinFree)
    decreases sm.Length() - i
  {
    if i < sm.Length() {
      forall out | 0 <= out <= 2 && Takes(st, sm, i, out, joinFree)
        ensures TabsEnd(st, sm, i + 1, ColumnAfter(st, sm, i, x, out), joinFree)
      {
        TabsAlwaysEnd(st, sm, i + 1, ColumnAfter(st, sm, i, x, out), joinFree);
      }
    }
  }

  // One pass of the code's loop keeps it so.
  lemma TabsEndAfterPass(st: Style, sm: Sequence, i: nat, x: int, out: int, joinFree: bool)
    requires 8 <= st.width && i < sm.Length() && TabsEnd(st, sm, i, x, joinFree) && !st.IsControl(sm, i, BELL)
    requires 0 <= out <= 2 && Takes(st, sm, i, out, joinFree)
    ensures var next := PassColumn(st, sm, i, x, out);
            if st.IsControl(sm, i, TAB) && next % TAB_WIDTH != 0
            then TabsEnd(st, sm, i, next, joinFree)
                 && 0 <= BlanksToTabStop(st.width, next) < BlanksToTabStop(st.width, x)
            else TabsEnd(st, sm, i + 1, next, joinFree)
  {
    if st.IsControl(sm, i, TAB) && PassColumn(st, sm, i, x, out) % TAB_WIDTH != 0 {
      TabProgress(st, sm, i, x);
    }
  }

  // Text that ends wherever its characters go ends if they go where plain ones do.
  lemma {:induction false} TabsEndJoinFree(st: Style, sm: Sequence, i: nat, x: int)
    requires 8 <= st.width && i <= sm.Length() && sm.PlainText(st.classes) && TabsEnd(st, sm, i, x, false)
    ensures TabsEnd(st, sm, i, x, true)
    decreases sm.Length() - i
  {
    if i < sm.Length() {
      forall out | 0 <= out <= 2 && Takes(st, sm, i, out, true)
        ensures TabsEnd(st, sm, i + 1, ColumnAfter(st, sm, i, x, out), true)
      {
        assert Takes(st, sm, i, out, false);
        TabsEndJoinFree(st, sm, i + 1, ColumnAfter(st, sm, i, x, out));
      }
    }
  }

  ghost function PutTab(st: Style, t: Term, sm: Sequence, i: nat): (r: Term)
    requires ValidTerm(st, t) && 8 <= st.width && st.IsControl(sm, i, TAB) && st.StopAhead(t.x)
    ensures ValidTerm(st, r) && r.x == TabStop(st, sm, i, t.x)
    decreases BlanksToTabStop(st.width, t.x)
  {
    var next := PutItem(st, Settle(st, t, sm, i), sm, i);
    if next.x % TAB_WIDTH == 0 then next
    else
      TabProgress(st, sm, i, t.x);
      PutTab(st, next, sm, i)
  }

  // Item i, or one blank of a tab, from a settled cursor.
  ghost function Apply(st: Style, s: Term, sm: Sequence, i: nat): (r: Term)
    requires ValidTerm(st, s) && s.x < st.width && i < sm.Length()
    ensures ValidTerm(st, r) && r.x == AppliedColumn(st, sm, i, s.x, Columns(st, sm, i))
  {
    if st.IsControl(sm, i, BACKSPACE) then (if s.x > 0 then s.(x := s.x - 1) else s)
    else if st.IsControl(sm, i, RETURN) then s.(x := 0)
    else if st.IsControl(sm, i, NEWLINE) then LineFeed(st, s)
    else PutItem(st, s, sm, i)
  }

  // Item i of the sequence.
  ghost function Step(st: Style, t: Term, sm: Sequence, i: nat): (r: Term)
    requires ValidTerm(st, t) && 8 <= st.width && i < sm.Length()
    requires st.IsControl(sm, i, TAB) ==> st.StopAhead(t.x)
    ensures ValidTerm(st, r) && r.x == ColumnAfter(st, sm, i, t.x, Columns(st, sm, i))
  {
    if st.IsControl(sm, i, BELL) then t
    else if st.IsControl(sm, i, TAB) then PutTab(st, t, sm, i)
    else Apply(st, Settle(st, t, sm, i), sm, i)
  }

  // One pass of the code's loop over item i.
  ghost function StepOnce(st: Style, t: Term, sm: Sequence, i: nat): (r: Term)
    requires ValidTerm(st, t) && 8 <= st.width && i < sm.Length() && !st.IsControl(sm, i, BELL)
    ensures ValidTerm(st, r)
    ensures r.x == PassColumn(st, sm, i, t.x, Columns(st, sm, i))
  {
    Apply(st, Settle(st, t, sm, i), sm, i)
  }

  // The items from i on.
  ghost function Run(st: Style, t: Term, sm: Sequence, i: nat): (r: Term)
    requires ValidTerm(st, t) && 8 <= st.width && i <= sm.Length() && TabsEnd(st, sm, i, t.x, true)
    ensures ValidTerm(st, r)
    decreases sm.Length() - i
  {
    if i == sm.Length() then t else Run(st, Step(st, t, sm, i), sm, i + 1)
  }

  // The loop of the code runs the sequence: a pass either stays on its tab or
  // moves on to the next item.
  lemma RunOnce(st: Style, t: Term, sm: Sequence, i: nat)
    requires ValidTerm(st, t) && 8 <= st.width && i < sm.Length() && TabsEnd(st, sm, i, t.x, true)
    ensures st.IsControl(sm, i, BELL)
            ==> TabsEnd(st, sm, i + 1, t.x, true) && Run(st, t, sm, i) == Run(st, t, sm, i + 1)
    ensures !st.IsControl(sm, i, BELL) ==>
              var u := StepOnce(st, t, sm, i);
              if st.IsControl(sm, i, TAB) && u.x % TAB_WIDTH != 0
              then TabsEnd(st, sm, i, u.x, true) && Run(st, t, sm, i) == Run(st, u, sm, i)
              else TabsEnd(st, sm, i + 1, u.x, true) && Run(st, t, sm, i) == Run(st, u, sm, i + 1)
  {
    hide PutItem, Settle, LineFeed;
    OneStepEnds(st, sm, i, t.x);
    if !st.IsControl(sm, i, BELL) {
      TabsEndAfterPass(st, sm, i, t.x, Columns(st, sm, i), true);
    }
  }

  // How many of the first n items are bells.
  ghost function BellCount(st: Style, sm: Sequence, n: nat): (r: nat)
    requires n <= sm.Length()
    ensures r <= n
  {
    if n == 0 then 0 else BellCount(st, sm, n - 1) + if st.IsControl(sm, n - 1, BELL) then 1 else 0
  }

  lemma BellStep(st: Style, sm: Sequence, n: nat)
    requires n < sm.Length()
    ensures BellCount(st, sm, 0) == 0
    ensures BellCount(st, sm, n + 1) == BellCount(st, sm, n) + if st.IsControl(sm, n, BELL) then 1 else 0
  {
  }

  // ---------------------------------------------------------------- properties

  // Lines above the cursor never change again, and lines are only added: what
  // has left the screen may be handed away.
  ghost predicate Extends(t: Term, r: Term) {
    t.y <= r.y && |t.lines| <= |r.lines| && forall k :: 0 <= k < t.y && k < |t.lines| ==> r.lines[k] == t.lines[k]
  }

  lemma {:induction false} TabExtends(st: Style, t: Term, sm: Sequence, i: nat)
    requires ValidTerm(st, t) && 8 <= st.width && st.IsControl(sm, i, TAB) && st.StopAhead(t.x)
    ensures Extends(t, PutTab(st, t, sm, i))
    decreases BlanksToTabStop(st.width, t.x)
  {
    var next := PutItem(st, Settle(st, t, sm, i), sm, i);
    if next.x % TAB_WIDTH != 0 {
      TabProgress(st, sm, i, t.x);
      TabExtends(st, next, sm, i);
    }
  }

  lemma {:induction false} RunExtends(st: Style, t: Term, sm: Sequence, i: nat)
    requires ValidTerm(st, t) && 8 <= st.width && i <= sm.Length() && TabsEnd(st, sm, i, t.x, true)
    ensures Extends(t, Run(st, t, sm, i))
    decreases sm.Length() - i
  {
    if i < sm.Length() {
      if st.IsControl(sm, i, TAB) {
        TabExtends(st, t, sm, i);
      }
      RunExtends(st, Step(st, t, sm, i), sm, i + 1);
    }
  }

  // Writing two strings one after the other is writing their concatenation.
  lemma {:induction false} RunSplits(st: Style, t: Term, a: seq<Wchar>, b: seq<Wchar>, i: nat)
    requires ValidTerm(st, t) && 8 <= st.width && i <= |a| && TabsEnd(st, WriteStr(a + b), i, t.x, true)
    ensures TabsEnd(st, WriteStr(a), i, t.x, true)
    ensures TabsEnd(st, WriteStr(b), 0, Run(st, t, WriteStr(a), i).x, true)
    ensures Run(st, t, WriteStr(a + b), i) == Run(st, Run(st, t, WriteStr(a), i), WriteStr(b), 0)
    decreases |a| - i
  {
    hide Step, Takes, ColumnAfter, ValidTerm;
    TabsEndPrefix(st, a, b, i, t.x);
    if i == |a| {
      ShiftRun(st, t, a, b, 0);
    } else {
      SameStep(st, t, WriteStr(a + b), i, WriteStr(a), i);
      SameColumn(st, WriteStr(a + b), i, WriteStr(a), i, t.x);
      var r := Step(st, t, WriteStr(a), i);
      OneStepEnds(st, WriteStr(a + b), i, t.x);
      RunSplits(st, r, a, b, i + 1);
    }
  }

  // After a step of a sequence that ends, the rest ends.
  lemma OneStepEnds(st: Style, sm: Sequence, i: nat, x: int)
    requires 8 <= st.width && i < sm.Length() && TabsEnd(st, sm, i, x, true)
    ensures st.IsControl(sm, i, TAB) ==> st.StopAhead(x)
    ensures TabsEnd(st, sm, i + 1, ColumnAfter(st, sm, i, x, Columns(st, sm, i)), true)
  {
    assert Takes(st, sm, i, Columns(st, sm, i), true);
  }

  lemma {:induction false} TabsEndPrefix(st: Style, a: seq<Wchar>, b: seq<Wchar>, i: nat, x: int)
    requires 8 <= st.width && i <= |a| && TabsEnd(st, WriteStr(a + b), i, x, true)
    ensures TabsEnd(st, WriteStr(a), i, x, true)
    decreases |a| - i
  {
    if i < |a| {
      OneStepEnds(st, WriteStr(a + b), i, x);
      SameColumn(st, WriteStr(a + b), i, WriteStr(a), i, x);
      hide ColumnAfter;
      TabsEndPrefix(st, a, b, i + 1, ColumnAfter(st, WriteStr(a), i, x, Columns(st, WriteStr(a), i)));
    }
  }

  // A column depends on its own item only.
  lemma {:induction false} SameStop(st: Style, p: Sequence, i: nat, q: Sequence, j: nat, x: int)
    requires 8 <= st.width && st.IsControl(p, i, TAB) && st.IsControl(q, j, TAB) && st.StopAhead(x)
    ensures TabStop(st, p, i, x) == TabStop(st, q, j, x)
    decreases BlanksToTabStop(st.width, x)
  {
    var next := SettledColumn(st, p, i, x) + 1;
    if next % TAB_WIDTH != 0 {
      TabProgress(st, p, i, x);
      SameStop(st, p, i, q, j, next);
    }
  }

  lemma SameColumn(st: Style, p: Sequence, i: nat, q: Sequence, j: nat, x: int)
    requires 8 <= st.width && p.WriteStr? && q.WriteStr? && i < |p.str| && j < |q.str| && p.str[i] == q.str[j]
    requires st.IsControl(p, i, TAB) ==> st.StopAhead(x)
    ensures Columns(st, p, i) == Columns(st, q, j)
    ensures ColumnAfter(st, p, i, x, Columns(st, p, i)) == ColumnAfter(st, q, j, x, Columns(st, q, j))
  {
    if st.IsControl(p, i, TAB) {
      SameStop(st, p, i, q, j, x);
    }
  }

  // A step depends on its own item only.
  lemma SameBlank(st: Style, t: Term, p: Sequence, i: nat, q: Sequence, j: nat)
    requires ValidTerm(st, t) && 8 <= st.width && st.IsControl(p, i, TAB) && st.IsControl(q, j, TAB)
    ensures Settle(st, t, p, i) == Settle(st, t, q, j)
    ensures PutItem(st, Settle(st, t, p, i), p, i) == PutItem(st, Settle(st, t, q, j), q, j)
    ensures PutItem(st, Settle(st, t, p, i), p, i).x == SettledColumn(st, p, i, t.x) + 1
  {
    hide LineFeed, PutCell;
  }

  lemma {:induction false} SameTab(st: Style, t: Term, p: Sequence, i: nat, q: Sequence, j: nat)
    requires ValidTerm(st, t) && 8 <= st.width && st.IsControl(p, i, TAB) && st.IsControl(q, j, TAB)
             && st.StopAhead(t.x)
    ensures PutTab(st, t, p, i) == PutTab(st, t, q, j)
    decreases BlanksToTabStop(st.width, t.x)
  {
    hide PutItem, Settle;
    SameBlank(st, t, p, i, q, j);
    var next := PutItem(st, Settle(st, t, p, i), p, i);
    if next.x % TAB_WIDTH != 0 {
      TabProgress(st, p, i, t.x);
      SameTab(st, next, p, i, q, j);
    }
  }

  lemma SameStep(st: Style, t: Term, p: Sequence, i: nat, q: Sequence, j: nat)
    requires ValidTerm(st, t) && 8 <= st.width
    requires p.WriteStr? && q.WriteStr? && i < |p.str| && j < |q.str| && p.str[i] == q.str[j]
    requires st.IsControl(p, i, TAB) ==> st.StopAhead(t.x)
    ensures Step(st, t, p, i) == Step(st, t, q, j)
  {
    if st.IsControl(p, i, TAB) {
      SameTab(st, t, p, i, q, j);
    }
  }

  lemma {:induction false} ShiftRun(st: Style, t: Term, a: seq<Wchar>, b: seq<Wchar>, j: nat)
    requires ValidTerm(st, t) && 8 <= st.width && j <= |b| && TabsEnd(st, WriteStr(a + b), |a| + j, t.x, true)
    ensures TabsEnd(st, WriteStr(b), j, t.x, true)
    ensures Run(st, t, WriteStr(a + b), |a| + j) == Run(st, t, WriteStr(b), j)
    decreases |b| - j
  {
    hide Step, ColumnAfter, ValidTerm, IsWide;
    if j < |b| {
      OneStepEnds(st, WriteStr(a + b), |a| + j, t.x);
      SameStep(st, t, WriteStr(a + b), |a| + j, WriteStr(b), j);
      SameColumn(st, WriteStr(a + b), |a| + j, WriteStr(b), j, t.x);
      ShiftRun(st, Step(st, t, WriteStr(b), j), a, b, j + 1);
    }
  }

  // ---------------------------------------------------------------- when the loop ends

  // Where the code's loop stands.
  datatype Progress = Progress(t: Term, i: nat)

  ghost function OnePass(st: Style, sm: Sequence, p: Progress): (r: Progress)
    requires ValidTerm(st, p.t) && 8 <= st.width && p.i < sm.Length()
    ensures ValidTerm(st, r.t) && p.i <= r.i <= p.i + 1
  {
    if st.IsControl(sm, p.i, BELL) then p.(i := p.i + 1)
    else
      var u := StepOnce(st, p.t, sm, p.i);
      Progress(u, if st.IsControl(sm, p.i, TAB) && u.x % TAB_WIDTH != 0 then p.i else p.i + 1)
  }

  // After up to n passes.
  ghost function Passes(st: Style, sm: Sequence, p: Progress, n: nat): (r: Progress)
    requires ValidTerm(st, p.t) && 8 <= st.width && p.i <= sm.Length()
    ensures ValidTerm(st, r.t) && p.i <= r.i <= sm.Length()
    decreases n
  {
    if n == 0 || p.i == sm.Length() then p else Passes(st, sm, OnePass(st, sm, p), n - 1)
  }

  // The loop ends, whatever is on the screen, exactly if every tab is met before
  // the last stop.
  lemma LoopEndsIff(st: Style, sm: Sequence, p: Progress)
    requires ValidTerm(st, p.t) && 8 <= st.width && p.i <= sm.Length()
    ensures (exists n :: Passes(st, sm, p, n).i == sm.Length()) <==> TabsEnd(st, sm, p.i, p.t.x, true)
  {
    if TabsEnd(st, sm, p.i, p.t.x, true) {
      var n := LoopEnds(st, sm, p);
    }
    forall n: nat | Passes(st, sm, p, n).i == sm.Length() ensures TabsEnd(st, sm, p.i, p.t.x, true) {
      EndedLoop(st, sm, p, n);
    }
  }

  // A single tab ends exactly if a stop is ahead: with wrap, on a width of whole
  // tab stops, or in a column before the last stop.
  lemma TabEndsIff(st: Style, t: Term)
    requires ValidTerm(st, t) && 8 <= st.width && st.processed
    ensures (exists n :: Passes(st, WriteStr([TAB]), Progress(t, 0), n).i == 1) <==> st.StopAhead(t.x)
  {
    var sm := WriteStr([TAB]);
    LoopEndsIff(st, sm, Progress(t, 0));
    assert st.IsControl(sm, 0, TAB) && sm.Length() == 1;
    assert Takes(st, sm, 0, Columns(st, sm, 0), true);
  }

  lemma {:induction false} LoopEnds(st: Style, sm: Sequence, p: Progress) returns (n: nat)
    requires ValidTerm(st, p.t) && 8 <= st.width && p.i <= sm.Length() && TabsEnd(st, sm, p.i, p.t.x, true)
    ensures Passes(st, sm, p, n).i == sm.Length()
    decreases sm.Length() - p.i,
              if p.i < sm.Length() && st.IsControl(sm, p.i, TAB) then BlanksToTabStop(st.width, p.t.x) else 0
  {
    n := 0;
    if p.i < sm.Length() {
      OneStepEnds(st, sm, p.i, p.t.x);
      if !st.IsControl(sm, p.i, BELL) {
        TabsEndAfterPass(st, sm, p.i, p.t.x, Columns(st, sm, p.i), true);
      }
      hide StepOnce, ColumnAfter, TabsEnd, Takes;
      n := LoopEnds(st, sm, OnePass(st, sm, p));
      n := n + 1;
    }
  }

  lemma {:induction false} EndedLoop(st: Style, sm: Sequence, p: Progress, n: nat)
    requires ValidTerm(st, p.t) && 8 <= st.width && p.i <= sm.Length() && Passes(st, sm, p, n).i == sm.Length()
    ensures TabsEnd(st, sm, p.i, p.t.x, true)
    decreases n
  {
    if p.i < sm.Length() {
      EndedLoop(st, sm, OnePass(st, sm, p), n - 1);
      hide Passes;
      EndedPass(st, sm, p);
    }
  }

  lemma EndedPass(st: Style, sm: Sequence, p: Progress)
    requires ValidTerm(st, p.t) && 8 <= st.width && p.i < sm.Length()
    requires var r := OnePass(st, sm, p); TabsEnd(st, sm, r.i, r.t.x, true)
    ensures TabsEnd(st, sm, p.i, p.t.x, true)
  {
    hide PutItem, LineFeed;
    var r := OnePass(st, sm, p);
    if st.IsControl(sm, p.i, TAB) {
      StopWasAhead(st, sm, p.i, p.t.x);
    }
  }

  // Who comes to a stop, or nearer to one, was not past the last.
  lemma StopWasAhead(st: Style, sm: Sequence, i: nat, x: int)
    requires 8 <= st.width && st.IsControl(sm, i, TAB)
    requires var next := SettledColumn(st, sm, i, x) + 1; next % TAB_WIDTH == 0 || st.StopAhead(next)
    ensures st.StopAhead(x)
  {
  }

  // ---------------------------------------------------------------- runs of strings

  function Concat(parts: seq<seq<Wchar>>): seq<Wchar> {
    if parts == [] then [] else Concat(parts[..|parts| - 1]) + parts[|parts| - 1]
  }

  lemma ConcatStep(parts: seq<seq<Wchar>>, i: nat)
    requires i < |parts|
    ensures Concat(parts[..i + 1]) == Concat(parts[..i]) + parts[i]
  {
    assert parts[..i + 1][..i] == parts[..i];
  }

  // If all of the strings end, so do the first few.
  lemma {:induction false} FirstPartsEnd(st: Style, parts: seq<seq<Wchar>>, i: nat, x: int)
    requires i <= |parts| && 8 <= st.width && TabsEnd(st, WriteStr(Concat(parts)), 0, x, true)
    ensures TabsEnd(st, WriteStr(Concat(parts[..i])), 0, x, true)
    decreases |parts|
  {
    if i == |parts| {
      assert parts[..i] == parts;
    } else {
      var n := |parts| - 1;
      TabsEndPrefix(st, Concat(parts[..n]), parts[n], 0, x);
      FirstPartsEnd(st, parts[..n], i, x);
      assert parts[..n][..i] == parts[..i];
    }
  }

  lemma {:induction false} PlainPart(parts: seq<seq<Wchar>>, i: nat, classes: CharClasses)
    requires i < |parts| && WriteStr(Concat(parts)).PlainText(classes)
    ensures WriteStr(parts[i]).PlainText(classes)
    decreases |parts|
  {
    var n := |parts| - 1;
    var all, first := Concat(parts), Concat(parts[..n]);
    assert forall k :: 0 <= k < |first| ==> all[k] == first[k];
    assert forall k :: 0 <= k < |parts[n]| ==> all[|first| + k] == parts[n][k];
    if i < n {
      PlainPart(parts[..n], i, classes);
    }
  }
}
