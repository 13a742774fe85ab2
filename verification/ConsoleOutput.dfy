/**
 * The screen engine (ConsoleOutput.cpp): writing and filling with tabs, wrap
 * and scrolling, rectangle writes, scrolling of rectangles, and deferred
 * repaints.  Each public call is one critical section.
 */
module ConsoleOutputs {
  import opened Basics
  import opened ConsoleTypes
  import opened Matrix
  import opened ConsoleBuffers
  import opened Terminal
  import opened Repaints

  // Every cell that differs between the two screens lies in one of the areas.
  ghost predicate Differ(a: Grid<CharInfo>, b: Grid<CharInfo>, areas: seq<Rect>) {
    && |a| == |b|
    && forall x, y {:trigger a[y][x]} {:trigger b[y][x]} ::
         0 <= y < |a| && 0 <= x < |a[y]| && 0 <= x < |b[y]| && a[y][x] != b[y][x] ==> Pending(areas, x, y)
  }

  // The same for a single area.
  ghost predicate Covers(a: Grid<CharInfo>, b: Grid<CharInfo>, area: Rect) {
    && |a| == |b|
    && forall x, y {:trigger a[y][x]} {:trigger b[y][x]} ::
         0 <= y < |a| && 0 <= x < |a[y]| && 0 <= x < |b[y]| && a[y][x] != b[y][x] ==> Within(area, x, y)
  }

  lemma CoversSame(a: Grid<CharInfo>, area: Rect)
    ensures Covers(a, a, area)
  {
  }

  lemma CoversCompose(a: Grid<CharInfo>, b: Grid<CharInfo>, c: Grid<CharInfo>, r: Rect, s: Rect, w: nat, h: nat)
    requires IsGrid(a, w, h) && IsGrid(b, w, h) && IsGrid(c, w, h)
    requires Covers(a, b, r) && Covers(b, c, s) && Grows(r, s)
    ensures Covers(a, c, s)
  {
  }

  lemma CoversIsDiffer(a: Grid<CharInfo>, b: Grid<CharInfo>, area: Rect, areas: seq<Rect>)
    requires Covers(a, b, area) && (area in areas || a == b)
    ensures Differ(a, b, areas)
  {
  }

  lemma DifferSame(a: Grid<CharInfo>, areas: seq<Rect>)
    ensures Differ(a, a, areas)
  {
  }

  // A picture that lags by d, of a screen that then changed by e, lags by both.
  lemma DifferCompose(a: Grid<CharInfo>, b: Grid<CharInfo>, c: Grid<CharInfo>, d: seq<Rect>, e: seq<Rect>,
                      f: seq<Rect>, w: nat, h: nat)
    requires IsGrid(a, w, h) && IsGrid(b, w, h) && IsGrid(c, w, h)
    requires Differ(a, b, d) && Differ(b, c, e)
    requires forall x, y :: Pending(d, x, y) || Pending(e, x, y) ==> Pending(f, x, y)
    ensures Differ(a, c, f)
  {
  }

  lemma DifferNowhere(a: Grid<CharInfo>, b: Grid<CharInfo>, w: nat, h: nat)
    requires IsGrid(a, w, h) && IsGrid(b, w, h) && Differ(a, b, [])
    ensures a == b
  {
    forall y | 0 <= y < h
      ensures a[y] == b[y]
    {
      forall x | 0 <= x < w
        ensures a[y][x] == b[y][x]
      {
        assert !Pending([], x, y);
      }
    }
  }

  // The picture after the areas have been drawn from the cells.
  ghost function Redrawn(shown: Grid<CharInfo>, cells: Grid<CharInfo>, areas: seq<Rect>, w: nat,
                         h: nat): (g: Grid<CharInfo>)
    requires IsGrid(shown, w, h) && IsGrid(cells, w, h)
    ensures IsGrid(g, w, h)
  {
    seq(h, y requires 0 <= y < h =>
      seq(w, x requires 0 <= x < w => if Pending(areas, x, y) then cells[y][x] else shown[y][x]))
  }

  lemma RedrawnNowhere(shown: Grid<CharInfo>, cells: Grid<CharInfo>, w: nat, h: nat)
    requires IsGrid(shown, w, h) && IsGrid(cells, w, h)
    ensures Redrawn(shown, cells, [], w, h) == shown
  {
    var g := Redrawn(shown, cells, [], w, h);
    forall y | 0 <= y < h
      ensures g[y] == shown[y]
    {
      forall x | 0 <= x < w
        ensures g[y][x] == shown[y][x]
      {
        assert !Pending([], x, y);
      }
    }
  }

  lemma RedrawnIsCurrent(shown: Grid<CharInfo>, cells: Grid<CharInfo>, areas: seq<Rect>, w: nat, h: nat)
    requires IsGrid(shown, w, h) && IsGrid(cells, w, h) && Differ(shown, cells, areas)
    ensures Redrawn(shown, cells, areas, w, h) == cells
  {
    var g := Redrawn(shown, cells, areas, w, h);
    forall y | 0 <= y < h
      ensures g[y] == cells[y]
    {
      forall x | 0 <= x < w
        ensures g[y][x] == cells[y][x]
      {
        assert shown[y][x] != cells[y][x] ==> Pending(areas, x, y);
      }
    }
  }

  // A block write changes the reported rectangle only, a cell write its cell.
  lemma WrittenCovers(cells: Grid<CharInfo>, w: nat, h: nat, block: Grid<CharInfo>, size: Coord, pos: Coord, r: Rect)
    requires w <= MAX_SIDE && h <= MAX_SIDE && IsGrid(cells, w, h)
    requires CanCopy(w, h, size, pos, r) ==> IsGrid(block, size.X, size.Y)
    ensures Covers(cells, Written(cells, w, h, block, size, pos, r), CopyRect(w, h, size, pos, r))
  {
  }

  lemma WrittenNothing(cells: Grid<CharInfo>, w: nat, h: nat, block: Grid<CharInfo>, size: Coord, pos: Coord, r: Rect)
    requires w <= MAX_SIDE && h <= MAX_SIDE && IsGrid(cells, w, h) && size.X >= 0 && size.Y >= 0
             && IsGrid(block, size.X, size.Y)
    ensures !CanCopy(w, h, size, pos, r)
            ==> Written(cells, w, h, [], size, pos, r) == Written(cells, w, h, block, size, pos, r)
  {
  }

  lemma PutCovers(cells: Grid<CharInfo>, w: nat, h: nat, pos: Coord, ch: CharInfo, area: Rect)
    requires IsGrid(cells, w, h) && 0 <= pos.X < w && 0 <= pos.Y < h && Within(area, pos.X, pos.Y)
    ensures Covers(cells, cells[pos.Y := cells[pos.Y][pos.X := ch]], area)
  {
  }

  // No cell's text ends in a zero-width joiner.
  ghost predicate NoJoiner(g: Grid<CharInfo>) {
    forall x, y :: 0 <= y < |g| && 0 <= x < |g[y]| ==>
      g[y][x].text != [] && g[y][x].text[|g[y][x].text| - 1] != ZERO_WIDTH_JOINER
  }

  // The screen rows above the scroll edge, after the lines already handed to
  // the scroll callback, are the lines of the reference terminal.
  ghost predicate Shows(lines: Grid<CharInfo>, rows: Grid<CharInfo>, edge: nat, pos: Coord, t: Term) {
    && edge <= |rows|
    && lines + rows[..edge] == t.lines
    && t.x == pos.X && t.y == |lines| + pos.Y && 0 <= pos.Y < edge
  }

  // A cursor on the screen stays there, and one below the region does not move
  // on to another line.
  ghost predicate StaysIn(pos0: Coord, pos: Coord, w: nat, edge: nat) {
    && (pos0.X <= w + 1 ==> pos.X <= w + 1) && (0 <= pos0.X ==> 0 <= pos.X)
    && (pos0.Y < edge ==> pos.Y < edge) && (edge <= pos0.Y < MAXSHORT ==> pos.Y == pos0.Y)
  }

  lemma StaysPut(pos: Coord, w: nat, edge: nat)
    ensures StaysIn(pos, pos, w, edge)
  {
  }

  lemma StaysInOn(pos0: Coord, pos: Coord, next: Coord, w: nat, edge: nat)
    requires StaysIn(pos0, pos, w, edge) && StaysIn(pos, next, w, edge)
    ensures StaysIn(pos0, next, w, edge)
  {
  }

  // Rows after the region from top to edge has scrolled up by one line.
  ghost function Scrolled(rows: Grid<CharInfo>, top: nat, edge: nat, w: nat, attributes: nat): (g: Grid<CharInfo>)
    requires top < edge <= |rows|
    ensures |g| == |rows|
  {
    rows[..top] + rows[top + 1..edge] + [BlankRow(w, attributes)] + rows[edge..]
  }

  // Rows top..edge-2 have taken the contents of the row below them.
  ghost predicate MovedUp(before: Grid<CharInfo>, after: Grid<CharInfo>, top: nat, edge: nat) {
    && |after| == |before| && edge <= |before|
    && forall y {:trigger after[y]} :: 0 <= y < |before| ==>
         after[y] == if top <= y < edge - 1 then before[y + 1] else before[y]
  }

  lemma MovedUpByCopy(before: Grid<CharInfo>, block: Grid<CharInfo>, after: Grid<CharInfo>, top: nat, n: nat)
    requires top + 1 + n <= |before| && block == before[top + 1..top + 1 + n]
    requires after == WithLines(before, block, top)
    ensures MovedUp(before, after, top, top + n + 1)
  {
  }

  // The block's rows in place of the grid's from row top on.
  ghost function WithLines(g: Grid<CharInfo>, block: Grid<CharInfo>, top: nat): Grid<CharInfo>
    requires top + |block| <= |g|
  {
    g[..top] + block + g[top + |block|..]
  }

  lemma ReadIsLines(room: Grid<CharInfo>, cells: Grid<CharInfo>, top: nat, w: nat, h: nat, n: nat)
    requires IsGrid(room, w, n) && IsGrid(cells, w, h) && top + n <= h
    ensures Blit(room, cells, 0, 0, 0, top, w, n) == cells[top..top + n]
  {
    hide Blit;
    forall y | 0 <= y < n
      ensures Blit(room, cells, 0, 0, 0, top, w, n)[y] == cells[top + y]
    {
      WholeRowAt(room, cells, 0, top, w, n, n, y);
    }
  }

  lemma WriteIsLines(cells: Grid<CharInfo>, block: Grid<CharInfo>, top: nat, w: nat, h: nat, n: nat)
    requires IsGrid(block, w, n) && IsGrid(cells, w, h) && top + n <= h
    ensures Blit(cells, block, 0, top, 0, 0, w, n) == WithLines(cells, block, top)
  {
    hide Blit;
    forall y | 0 <= y < h
      ensures Blit(cells, block, 0, top, 0, 0, w, n)[y] == WithLines(cells, block, top)[y]
    {
      WholeRowAt(cells, block, top, 0, w, h, n, y);
    }
  }

  // Copying whole rows onto the screen is not clipped; copying no rows does nothing.
  lemma WholeRowsCopied(w: nat, h: nat, top: nat, size: Coord)
    requires 0 < w <= MAX_SIDE && h <= MAX_SIDE && size.X == w && 0 <= top
    requires size.Y > 0 ==> top + size.Y <= h
    requires size.Y <= 0 ==> top <= MAX_SIDE && top + size.Y >= 0
    ensures var r := Rect(0, top, w - 1, top + size.Y - 1);
            CopyRect(w, h, size, Coord(0, 0), r) == r && (CanCopy(w, h, size, Coord(0, 0), r) <==> size.Y > 0)
  {
  }

  lemma NotMovedUp(g: Grid<CharInfo>, top: nat, edge: nat)
    requires edge <= top && edge <= |g|
    ensures MovedUp(g, g, top, edge)
  {
  }

  lemma ShowsScroll(lines: Grid<CharInfo>, rows: Grid<CharInfo>, edge: nat, pos: Coord, t: Term, st: Style)
    requires Shows(lines, rows, edge, pos, t) && ValidTerm(st, t) && pos.Y == edge - 1 && edge >= 1
    ensures Shows(lines + [rows[0]], Scrolled(rows, 0, edge, st.width, st.attributes), edge, pos, LineFeed(st, t))
    ensures Scrolled(rows, 0, edge, st.width, st.attributes)[edge..] == rows[edge..]
  {
  }

  lemma ShowsPut(lines: Grid<CharInfo>, rows: Grid<CharInfo>, edge: nat, pos: Coord, t: Term, row: seq<CharInfo>)
    requires Shows(lines, rows, edge, pos, t)
    ensures lines + rows[pos.Y := row][..edge] == t.lines[t.y := row]
    ensures rows[pos.Y := row][edge..] == rows[edge..]
    ensures t.lines[t.y] == rows[pos.Y]
  {
  }

  // The position and the cell that its character takes beside it.
  ghost function AreaOf(cells: Grid<CharInfo>, classes: CharClasses, pos: Coord, w: nat, h: nat): Rect
    requires IsGrid(cells, w, h) && w <= MAX_SIDE
  {
    if !(0 <= pos.X < w && 0 <= pos.Y < h) then Rect(pos.X, pos.Y, pos.X, pos.Y)
    else
      var text := cells[pos.Y][pos.X].text;
      if text == [0] && pos.X > 0 then Rect(pos.X - 1, pos.Y, pos.X, pos.Y)
      else if classes.isFullWidthText(text) then Rect(pos.X, pos.Y, pos.X + 1, pos.Y)
      else Rect(pos.X, pos.Y, pos.X, pos.Y)
  }

  // What a write reports for repainting: the areas of the cursor, where it was and
  // where it is, unless it is where the first begins, and the area of the changes.
  function ReportedAreas(atCursor: bool, area0: Rect, pos: Coord, area: Rect): seq<Rect> {
    (if atCursor && (area0.Left != pos.X || area0.Top != pos.Y)
     then [area0, Rect(pos.X, pos.Y, pos.X, pos.Y)] else [])
    + (if NonEmpty(area) then [area] else [])
  }

  // The cell is the blank half of a full-width character that begins left of it.
  predicate OnTrailingHalf(cells: Grid<CharInfo>, pos: Coord, w: nat, h: nat)
    requires IsGrid(cells, w, h)
  {
    0 < pos.X < w && 0 <= pos.Y < h && cells[pos.Y][pos.X].text == [0]
  }

  // The cursor's cells are reported if and only if it moved, except that a cursor
  // on a trailing half counts as being on the lead: going there reports nothing,
  // staying reports both.
  lemma CursorReportedIff(cells: Grid<CharInfo>, classes: CharClasses, from: Coord, to: Coord, area: Rect, w: nat,
                          h: nat)
    requires IsGrid(cells, w, h) && w <= MAX_SIDE
    ensures var areas := ReportedAreas(true, AreaOf(cells, classes, from, w, h), to, area);
            if to != (if OnTrailingHalf(cells, from, w, h) then Coord(from.X - 1, from.Y) else from)
            then Pending(areas, from.X, from.Y) && Pending(areas, to.X, to.Y)
            else forall x, y :: Pending(areas, x, y) <==> Within(area, x, y)
  {
    var area0 := AreaOf(cells, classes, from, w, h);
    var areas := ReportedAreas(true, area0, to, area);
    if |areas| >= 2 {
      assert Within(areas[0], from.X, from.Y) && Within(areas[1], to.X, to.Y);
    } else if NonEmpty(area) {
      assert areas == [area];
      forall x, y
        ensures Pending(areas, x, y) <==> Within(area, x, y)
      {
        assert Within(areas[0], x, y) <==> Within(area, x, y);
      }
    }
  }

  // ---------------------------------------------------------------- one character

  // What a character of a string comes to: it is put into a cell and moves the
  // cursor on, or joins the text of the cell before it, or is dropped.
  datatype Entered =
    | Put(ch: CharInfo, at: Coord, columns: Short, trailing: bool)
    | Joined(ch: CharInfo, at: Coord)
    | Dropped

  predicate OnGrid(pos: Coord, w: nat, h: nat) { 0 <= pos.X < w && 0 <= pos.Y < h }

  // A prefix stays under the cursor; a suffix goes to the cell written last, as
  // does whatever follows a joiner there.
  ghost function EnteredAs(st: Style, c: Wchar, cells: Grid<CharInfo>, prev: Coord, pos: Coord, h: nat): Entered
    requires IsGrid(cells, st.width, h)
  {
    var text := if OnGrid(prev, st.width, h) then cells[prev.Y][prev.X].text else [];
    var tab, wide := c == TAB && st.processed, st.classes.isFullWidth(c);
    if st.classes.isPrefix(c) then Put(CharInfo([c], st.attributes), pos, 0, false)
    else if st.classes.isSuffix(c) then
      var image := c == VARIATION_SELECTOR_16;
      if OnGrid(prev, st.width, h) then Put(CharInfo(text + [c], st.attributes), prev, if image then 1 else 0, image)
      else Dropped
    else if tab then Put(CharInfo([SPACE], st.attributes), pos, 1, false)
    else if text != [] && text[|text| - 1] == ZERO_WIDTH_JOINER then
      Joined(cells[prev.Y][prev.X].(text := text + [c]), prev)
    else Put(CharInfo([c], st.attributes), pos, if wide then 2 else 1, wide)
  }

  // The screen after that.
  ghost function Entering(cells: Grid<CharInfo>, e: Entered, w: nat, h: nat): (g: Grid<CharInfo>)
    requires IsGrid(cells, w, h)
    ensures IsGrid(g, w, h)
  {
    if e.Dropped? || !OnGrid(e.at, w, h) then cells
    else
      var row := cells[e.at.Y];
      cells[e.at.Y := if e.Put? then PutCell(row, e.at.X, e.ch, e.trailing) else row[e.at.X := e.ch]]
  }

  // A plain character on a screen without joiners is put where the cursor is.
  lemma PlainIsPut(st: Style, c: Wchar, cells: Grid<CharInfo>, prev: Coord, pos: Coord, h: nat)
    requires IsGrid(cells, st.width, h) && st.classes.Plain(c) && NoJoiner(cells)
    ensures var tab := c == TAB && st.processed;
            var wide := !tab && st.classes.isFullWidth(c);
            EnteredAs(st, c, cells, prev, pos, h)
            == Put(CharInfo([if tab then SPACE else c], st.attributes), pos, if wide then 2 else 1, wide)
  {
  }

  // The columns it takes are among those that decide whether tabs end.
  lemma EnteredColumns(st: Style, sm: Sequence, i: nat, cells: Grid<CharInfo>, prev: Coord, pos: Coord, h: nat,
                       joinFree: bool)
    requires IsGrid(cells, st.width, h) && sm.WriteStr? && i < |sm.str|
    requires joinFree == (sm.PlainText(st.classes) && NoJoiner(cells))
    requires !st.classes.isPrefix(TAB) && !st.classes.isSuffix(TAB)
    ensures var e := EnteredAs(st, sm.str[i], cells, prev, pos, h);
            var out := if e.Put? then e.columns else 0;
            && 0 <= out <= 2 && Takes(st, sm, i, out, joinFree)
            && (st.IsControl(sm, i, TAB) ==> out == 1)
  {
    hide NoJoiner;
    if joinFree {
      PlainIsPut(st, sm.str[i], cells, prev, pos, h);
    }
  }

  // ---------------------------------------------------------------- scrolling a rectangle

  // A rectangle that is not inverted and whose sides a SHORT holds.
  predicate IsMeasurable(src: Rect) {
    NonEmpty(src) && src.Right - src.Left < MAXSHORT && src.Bottom - src.Top < MAXSHORT
  }

  function SizeOf(src: Rect): Coord
    requires IsMeasurable(src)
  {
    Coord(src.Right + 1 - src.Left, src.Bottom + 1 - src.Top)
  }

  // The clip in effect: the caller's, or none.
  function EffectiveClip(clip: Option<Rect>): Rect {
    match clip case None => Rect(-0x8000, -0x8000, MAXSHORT, MAXSHORT) case Some(c) => c
  }

  // The cells a Scroll moves onto: the destination inside the clip and the
  // screen.  A destination that still starts left of or above the screen, or ends
  // beyond the range of SHORT, receives nothing at all.
  function Target(src: Rect, clip: Option<Rect>, origin: Coord, w: nat, h: nat): Rect
    requires 0 < w <= MAX_SIDE && 0 < h <= MAX_SIDE && IsMeasurable(src)
  {
    var c := EffectiveClip(clip);
    Rect(Max(origin.X, c.Left), Max(origin.Y, c.Top),
         Min(Min(origin.X + src.Right - src.Left, c.Right), w - 1),
         Min(Min(origin.Y + src.Bottom - src.Top, c.Bottom), h - 1))
  }

  predicate HasTarget(src: Rect, clip: Option<Rect>, origin: Coord, w: nat, h: nat)
    requires 0 < w <= MAX_SIDE && 0 < h <= MAX_SIDE && IsMeasurable(src)
  {
    && OnScreen(Target(src, clip, origin, w, h), w, h)
    && origin.X + src.Right - src.Left <= MAXSHORT && origin.Y + src.Bottom - src.Top <= MAXSHORT
  }

  predicate IsTarget(src: Rect, clip: Option<Rect>, origin: Coord, w: nat, h: nat, x: int, y: int)
    requires 0 < w <= MAX_SIDE && 0 < h <= MAX_SIDE && IsMeasurable(src)
  {
    HasTarget(src, clip, origin, w, h) && Within(Target(src, clip, origin, w, h), x, y)
  }

  // The cells a Scroll vacates and fills: the source inside the clip and left of
  // and above the far edges of the screen.
  function Vacated(src: Rect, clip: Option<Rect>, w: nat, h: nat): Rect
    requires 0 < w <= MAX_SIDE && 0 < h <= MAX_SIDE
  {
    var c := EffectiveClip(clip);
    Rect(Max(src.Left, c.Left), Max(src.Top, c.Top), Min(Min(src.Right, w - 1), c.Right),
         Min(Min(src.Bottom, h - 1), c.Bottom))
  }

  // The cell that is moved with offset (i, j) into the source: the screen's, or
  // what was left in the temporary block where the source reaches off the screen.
  // Nothing at all is read of a source that starts left of or above the screen.
  ghost function SourceCell(cells: Grid<CharInfo>, room: Grid<CharInfo>, src: Rect, w: nat, h: nat, i: nat,
                            j: nat): CharInfo
    requires IsGrid(cells, w, h) && IsMeasurable(src) && IsGrid(room, SizeOf(src).X, SizeOf(src).Y)
    requires i < SizeOf(src).X && j < SizeOf(src).Y
  {
    if 0 <= src.Left && 0 <= src.Top && src.Left + i < w && src.Top + j < h then cells[src.Top + j][src.Left + i]
    else room[j][i]
  }

  // A simultaneous move: targets get the old source cells, vacated cells that
  // are no targets get the fill, and everything else stays.
  ghost predicate MovedAt(before: Grid<CharInfo>, after: Grid<CharInfo>, room: Grid<CharInfo>, src: Rect,
                          clip: Option<Rect>, origin: Coord, fill: Option<CharInfo>, w: nat, h: nat, x: int, y: int)
    requires 0 < w <= MAX_SIDE && 0 < h <= MAX_SIDE && IsGrid(before, w, h) && IsGrid(after, w, h)
    requires IsMeasurable(src) && IsGrid(room, SizeOf(src).X, SizeOf(src).Y)
    requires 0 <= x < w && 0 <= y < h
  {
    after[y][x] == if IsTarget(src, clip, origin, w, h, x, y)
                   then SourceCell(before, room, src, w, h, x - origin.X, y - origin.Y)
                   else if fill.Some? && Within(Vacated(src, clip, w, h), x, y) then fill.value
                   else before[y][x]
  }

  ghost predicate IsMoved(before: Grid<CharInfo>, after: Grid<CharInfo>, room: Grid<CharInfo>, src: Rect,
                          clip: Option<Rect>, origin: Coord, fill: Option<CharInfo>, w: nat, h: nat)
    requires 0 < w <= MAX_SIDE && 0 < h <= MAX_SIDE && IsGrid(before, w, h) && IsGrid(after, w, h)
    requires IsMeasurable(src) && IsGrid(room, SizeOf(src).X, SizeOf(src).Y)
  {
    forall x, y :: 0 <= x < w && 0 <= y < h ==> MovedAt(before, after, room, src, clip, origin, fill, w, h, x, y)
  }

  // One axis of the destination: what ClipRect and then the copy leave of
  // [o, o+n) is its part inside the clip [lo, hi] and the screen, with the
  // matching offset into the data, or nothing.
  predicate IsClipped(o: int, n: int, lo: int, hi: int, size: int, left: int, off: int, right: int) {
    var first, last := Max(o, lo), Min(Min(o + n - 1, hi), size - 1);
    var end := Min(Min(right, size - 1), left + (n - off) - 1);
    && (0 <= off < n && 0 <= left <= end < size <==> 0 <= first <= last && o + n - 1 <= MAXSHORT)
    && (0 <= first <= last && o + n - 1 <= MAXSHORT ==> end == last && off == left - o)
  }

  lemma ClippedAxis(o: Short, n: nat, lo: Short, hi: Short, size: nat, left: int, off: int, right: int)
    requires 1 <= n <= MAXSHORT && 0 < size <= MAX_SIDE
    requires left == Max(o, lo) && off == (if o < lo then ToShort(lo - o) else 0)
    requires right == Min(ToShort(o + n - 1), hi)
    ensures IsClipped(o, n, lo, hi, size, left, off, right)
  {
  }

  // The source rectangle filled from its first row up to row y, column x.
  ghost function Filled(cells: Grid<CharInfo>, r: Rect, fill: CharInfo, y: int, x: int): (g: Grid<CharInfo>)
    ensures |g| == |cells| && forall k :: 0 <= k < |g| ==> |g[k]| == |cells[k]|
  {
    seq(|cells|, j requires 0 <= j < |cells| =>
      seq(|cells[j]|, i requires 0 <= i < |cells[j]| =>
        if Within(r, i, j) && (j < y || (j == y && i < x)) then fill else cells[j][i]))
  }

  lemma FilledStart(cells: Grid<CharInfo>, r: Rect, fill: CharInfo)
    ensures Filled(cells, r, fill, r.Top, r.Left) == cells
  {
    var g := Filled(cells, r, fill, r.Top, r.Left);
    forall j | 0 <= j < |cells|
      ensures g[j] == cells[j]
    {
    }
  }

  lemma FilledCell(cells: Grid<CharInfo>, r: Rect, fill: CharInfo, y: int, x: int)
    requires Within(r, x, y)
    ensures var g, n := Filled(cells, r, fill, y, x), Filled(cells, r, fill, y, x + 1);
            n == if 0 <= y < |cells| && 0 <= x < |cells[y]| then g[y := g[y][x := fill]] else g
  {
    var g, n := Filled(cells, r, fill, y, x), Filled(cells, r, fill, y, x + 1);
    forall j | 0 <= j < |cells|
      ensures n[j] == if j == y && 0 <= x < |cells[y]| then g[y][x := fill] else g[j]
    {
    }
  }

  lemma FilledRow(cells: Grid<CharInfo>, r: Rect, fill: CharInfo, y: int)
    ensures Filled(cells, r, fill, y, r.Right + 1) == Filled(cells, r, fill, y + 1, r.Left)
  {
    var g, n := Filled(cells, r, fill, y, r.Right + 1), Filled(cells, r, fill, y + 1, r.Left);
    forall j | 0 <= j < |cells|
      ensures g[j] == n[j]
    {
    }
  }

  lemma FilledCovers(cells: Grid<CharInfo>, r: Rect, fill: CharInfo, y: int, x: int)
    ensures Covers(cells, Filled(cells, r, fill, y, x), r)
  {
  }

  // The block read from the source rectangle.
  ghost predicate IsBlockOf(block: Grid<CharInfo>, cells: Grid<CharInfo>, room: Grid<CharInfo>, src: Rect, w: nat,
                            h: nat)
    requires IsGrid(cells, w, h) && IsMeasurable(src) && IsGrid(room, SizeOf(src).X, SizeOf(src).Y)
  {
    && IsGrid(block, SizeOf(src).X, SizeOf(src).Y)
    && forall i, j {:trigger block[j][i]} :: 0 <= j < SizeOf(src).Y && 0 <= i < SizeOf(src).X ==>
         block[j][i] == SourceCell(cells, room, src, w, h, i, j)
  }

  // What Read is asked for and where: nothing of a source that starts off the screen.
  lemma ReadRect(src: Rect, w: nat, h: nat)
    requires 0 < w <= MAX_SIDE && 0 < h <= MAX_SIDE && IsMeasurable(src)
    ensures CopyRect(w, h, SizeOf(src), Coord(0, 0), src)
            == Rect(src.Left, src.Top, Min(src.Right, w - 1), Min(src.Bottom, h - 1))
    ensures CanCopy(w, h, SizeOf(src), Coord(0, 0), src) <==> 0 <= src.Left < w && 0 <= src.Top < h
  {
  }

  lemma ReadIsBlock(room: Grid<CharInfo>, cells: Grid<CharInfo>, src: Rect, w: nat, h: nat)
    requires 0 < w <= MAX_SIDE && 0 < h <= MAX_SIDE && IsGrid(cells, w, h) && IsMeasurable(src)
    requires IsGrid(room, SizeOf(src).X, SizeOf(src).Y) && 0 <= src.Left < w && 0 <= src.Top < h
    ensures IsBlockOf(Blit(room, cells, 0, 0, src.Left, src.Top,
                           Min(src.Right, w - 1) + 1 - src.Left, Min(src.Bottom, h - 1) + 1 - src.Top),
                      cells, room, src, w, h)
  {
  }

  lemma UnreadIsBlock(room: Grid<CharInfo>, cells: Grid<CharInfo>, src: Rect, w: nat, h: nat)
    requires IsGrid(cells, w, h) && IsMeasurable(src) && IsGrid(room, SizeOf(src).X, SizeOf(src).Y)
    requires !(0 <= src.Left < w && 0 <= src.Top < h)
    ensures IsBlockOf(room, cells, room, src, w, h)
  {
  }

  lemma ScrollRepaints(before: Grid<CharInfo>, filled: Grid<CharInfo>, block: Grid<CharInfo>, size: Coord, pos: Coord,
                       dst: Rect, vacated: Rect, fill: Option<CharInfo>, w: nat, h: nat)
    requires w <= MAX_SIDE && h <= MAX_SIDE && IsGrid(before, w, h) && IsGrid(filled, w, h)
    requires CanCopy(w, h, size, pos, dst) ==> IsGrid(block, size.X, size.Y)
    requires filled == if fill.None? then before
                       else Filled(before, vacated, fill.value, Max(vacated.Top, vacated.Bottom + 1), vacated.Left)
    ensures var r := CopyRect(w, h, size, pos, dst);
            Differ(before, Written(filled, w, h, block, size, pos, dst), if fill.Some? then [r, vacated] else [r])
  {
    hide Written, Filled, Covers, Differ;
    var r, after := CopyRect(w, h, size, pos, dst), Written(filled, w, h, block, size, pos, dst);
    WrittenCovers(filled, w, h, block, size, pos, dst);
    if fill.Some? {
      var areas := [r, vacated];
      assert areas[0] == r && areas[1] == vacated;
      FilledCovers(before, vacated, fill.value, Max(vacated.Top, vacated.Bottom + 1), vacated.Left);
      CoversIsDiffer(before, filled, vacated, areas);
      CoversIsDiffer(filled, after, r, areas);
      DifferCompose(before, filled, after, areas, areas, areas, w, h);
    } else {
      CoversIsDiffer(filled, after, r, [r]);
    }
  }

  // The destination Scroll arrives at, cut to the clip, and the offset into the block.
  function DestinationRect(src: Rect, clip: Option<Rect>, origin: Coord): Rect
    requires IsMeasurable(src)
  {
    var c, size := EffectiveClip(clip), SizeOf(src);
    Rect(Max(origin.X, c.Left), Max(origin.Y, c.Top), Min(ToShort(origin.X + size.X - 1), c.Right),
         Min(ToShort(origin.Y + size.Y - 1), c.Bottom))
  }

  function DestinationOffset(clip: Option<Rect>, origin: Coord): Coord {
    var c := EffectiveClip(clip);
    Coord(if origin.X < c.Left then ToShort(c.Left - origin.X) else 0,
          if origin.Y < c.Top then ToShort(c.Top - origin.Y) else 0)
  }

  // The copy arguments Scroll arrives at: block size, offset into the block and
  // destination rectangle.
  ghost predicate IsDestination(src: Rect, clip: Option<Rect>, origin: Coord, size: Coord, pos: Coord, dst: Rect) {
    && IsMeasurable(src) && size == SizeOf(src)
    && dst == DestinationRect(src, clip, origin) && pos == DestinationOffset(clip, origin)
  }

  // Both rectangles a Scroll reports for repainting are harmless.
  predicate ScrollIsHarmless(src: Rect, clip: Option<Rect>, origin: Coord, fill: Option<CharInfo>, w: nat, h: nat)
    requires 0 < w <= MAX_SIDE && 0 < h <= MAX_SIDE && IsMeasurable(src)
  {
    && Harmless(CopyRect(w, h, SizeOf(src), DestinationOffset(clip, origin), DestinationRect(src, clip, origin)))
    && (fill.Some? ==> Harmless(Vacated(src, clip, w, h)))
  }

  // They copy if there is a target, and then exactly onto the targets.
  ghost predicate CopiesTargets(src: Rect, clip: Option<Rect>, origin: Coord, size: Coord, pos: Coord, dst: Rect,
                                w: nat, h: nat)
    requires 0 < w <= MAX_SIDE && 0 < h <= MAX_SIDE && IsMeasurable(src)
  {
    var t := Target(src, clip, origin, w, h);
    && (CanCopy(w, h, size, pos, dst) <==> HasTarget(src, clip, origin, w, h))
    && (HasTarget(src, clip, origin, w, h) ==>
          Clipped(w, h, size, pos, dst) == t && pos.X == t.Left - origin.X && pos.Y == t.Top - origin.Y)
  }

  lemma DestinationCopiesTargets(src: Rect, clip: Option<Rect>, origin: Coord, size: Coord, pos: Coord, dst: Rect,
                                 w: nat, h: nat)
    requires 0 < w <= MAX_SIDE && 0 < h <= MAX_SIDE && IsDestination(src, clip, origin, size, pos, dst)
    ensures CopiesTargets(src, clip, origin, size, pos, dst, w, h)
  {
    hide IsClipped, CopiesTargets, EffectiveClip;
    var c := EffectiveClip(clip);
    ClippedAxis(origin.X, size.X, c.Left, c.Right, w, dst.Left, pos.X, dst.Right);
    ClippedAxis(origin.Y, size.Y, c.Top, c.Bottom, h, dst.Top, pos.Y, dst.Bottom);
    hide ToShort;
    AxesCopyTargets(src, clip, origin, size, pos, dst, w, h);
  }

  lemma AxesCopyTargets(src: Rect, clip: Option<Rect>, origin: Coord, size: Coord, pos: Coord, dst: Rect, w: nat,
                        h: nat)
    requires 0 < w <= MAX_SIDE && 0 < h <= MAX_SIDE && IsMeasurable(src) && size == SizeOf(src)
    requires var c := EffectiveClip(clip);
             && dst.Left == Max(origin.X, c.Left) && dst.Top == Max(origin.Y, c.Top)
             && IsClipped(origin.X, size.X, c.Left, c.Right, w, dst.Left, pos.X, dst.Right)
             && IsClipped(origin.Y, size.Y, c.Top, c.Bottom, h, dst.Top, pos.Y, dst.Bottom)
    ensures CopiesTargets(src, clip, origin, size, pos, dst, w, h)
  {
    hide EffectiveClip;
  }

  // One cell of the move.
  lemma CellMoved(before: Grid<CharInfo>, filled: Grid<CharInfo>, block: Grid<CharInfo>, room: Grid<CharInfo>,
                  src: Rect,
                  clip: Option<Rect>, origin: Coord, fill: Option<CharInfo>, size: Coord, pos: Coord, dst: Rect,
                  w: nat, h: nat, x: int, y: int)
    requires 0 < w <= MAX_SIDE && 0 < h <= MAX_SIDE && IsGrid(before, w, h) && IsGrid(filled, w, h)
    requires IsMeasurable(src) && size == SizeOf(src) && IsGrid(room, size.X, size.Y)
    requires IsBlockOf(block, before, room, src, w, h) && 0 <= x < w && 0 <= y < h
    requires CopiesTargets(src, clip, origin, size, pos, dst, w, h)
    requires filled[y][x] == if fill.Some? && Within(Vacated(src, clip, w, h), x, y) then fill.value else before[y][x]
    ensures MovedAt(before, Written(filled, w, h, block, size, pos, dst), room, src, clip, origin, fill, w, h, x, y)
  {
    hide Clipped, CanCopy, Vacated, SourceCell, EffectiveClip;
    if IsTarget(src, clip, origin, w, h, x, y) {
      assert block[y - origin.Y][x - origin.X] == SourceCell(before, room, src, w, h, x - origin.X, y - origin.Y);
    }
  }

  lemma VacatedFilled(before: Grid<CharInfo>, fill: Option<CharInfo>, vacated: Rect, w: nat, h: nat, x: int, y: int)
    requires IsGrid(before, w, h) && 0 <= x < w && 0 <= y < h
    ensures (if fill.None? then before
             else Filled(before, vacated, fill.value, Max(vacated.Top, vacated.Bottom + 1), vacated.Left))[y][x]
            == if fill.Some? && Within(vacated, x, y) then fill.value else before[y][x]
  {
  }

  // The temporary block keeps what it can of the last call's cells.
  ghost function Resized(data: seq<CharInfo>, n: nat): (r: seq<CharInfo>)
    ensures |r| == n
  {
    if n <= |data| then data[..n] else data + seq(n - |data|, _ => CharInfo([0], 0))
  }

  ghost function RoomFor(data: seq<CharInfo>, src: Rect): (g: Grid<CharInfo>)
    requires IsMeasurable(src)
    ensures IsGrid(g, SizeOf(src).X, SizeOf(src).Y)
  {
    Block(Resized(data, Start(SizeOf(src).X, SizeOf(src).Y)), SizeOf(src))
  }

  // A one-line block is the first cells of the data.
  lemma LineBlock(data: seq<CharInfo>, w: nat)
    requires w <= |data| && w <= MAX_SIDE
    ensures Start(w, 1) == w && Block(data, Coord(w, 1))[0] == data[..w]
  {
  }

  lemma ShowsMoved(lines: Grid<CharInfo>, rows: Grid<CharInfo>, edge: nat, pos: Coord, t: Term, to: Coord, st: Style)
    requires to.Y == pos.Y
    ensures Shows(lines, rows, edge, pos, t) ==> Shows(lines, rows, edge, to, t.(x := to.X)) && t.x == pos.X
    ensures ValidTerm(st, t) && 0 <= to.X <= st.width ==> ValidTerm(st, t.(x := to.X))
    ensures ValidTerm(st, t) ==> t.x >= 0
  {
  }

  lemma NoJoinerScroll(rows: Grid<CharInfo>, top: nat, edge: nat, w: nat, attributes: nat)
    requires NoJoiner(rows) && edge <= |rows|
    ensures top < edge ==> NoJoiner(Scrolled(rows, top, edge, w, attributes))
    ensures 1 <= edge ==> NoJoiner(rows[edge - 1 := BlankRow(w, attributes)])
  {
  }

  lemma NoJoinerItem(rows: Grid<CharInfo>, x: nat, y: nat, st: Style, sm: Sequence, i: nat)
    requires y < |rows| && x < |rows[y]| && NoJoiner(rows) && i < sm.Length() && sm.PlainText(st.classes)
    ensures NoJoiner(rows[y := PutInRow(st, rows[y], x, sm, i)])
  {
  }

  // The settings and the screen of a new console.
  function FirstStyle(classes: CharClasses): Style { Style(80, true, true, 7, classes) }

  ghost function BlankTerm(): Term { Term(seq(25, _ => BlankRow(80, 7)), 0, 0) }

  lemma BlankCells(cells: Grid<CharInfo>)
    requires IsGrid(cells, 80, 25) && forall x, y :: 0 <= x < 80 && 0 <= y < 25 ==> cells[y][x] == CharInfo([SPACE], 7)
    ensures cells == BlankTerm().lines && NoJoiner(cells)
  {
    forall y | 0 <= y < 25
      ensures cells[y] == BlankRow(80, 7)
    {
    }
  }

  // ---------------------------------------------------------------- sessions

  // The console mode: the bits that writing or SetMode looks at, and the rest.
  datatype Mode = Mode(processed: bool, wrap: bool, insert: bool, quickEdit: bool, extended: bool, others: nat)

  datatype Op =
    | OpWriteString(str: seq<Wchar>)
    | OpWriteStringAt(str: seq<Wchar>, at: Coord)
    | OpFillCharacter(chr: Wchar, count: nat, at: Coord)
    | OpFillAttribute(attr: nat, count: nat, at: Coord)
    | OpWriteCell(ch: CharInfo, at: Coord)
    | OpWriteBlock(data: seq<CharInfo>, size: Coord, from: Coord, rect: Rect)
    | OpScroll(rect: Rect, clip: Option<Rect>, origin: Coord, fill: Option<CharInfo>)
    | OpSetSize(width: nat, height: nat)
    | OpSetCursor(at: Coord)
    | OpSetScrollRegion(top: Short, bottom: Short)
    | OpSetScrollCallback(installed: bool)
    | OpSetAttributes(newAttributes: nat)
    | OpSetMode(mode: Mode)
    | OpDeferStart
    | OpDeferFinish(force: bool)

  // A call on the console, or the life of a console forked from it.
  datatype Event = Own(op: Op) | MakeFork | OnFork(op: Op) | JoinFork

  // What a call may be given: a size and rectangles in range and no endless tab.
  predicate Admissible(op: Op, w: nat, h: nat, deferred: nat, st: Style, cursor: Coord)
    requires 8 <= w <= MAX_SIDE && 0 < h <= MAX_SIDE && st.width == w
  {
    match op
    case OpWriteString(s) => TabsEnd(st, WriteStr(s), 0, cursor.X, false)
    case OpWriteStringAt(s, at) => TabsEnd(st, WriteStr(s), 0, at.X, false)
    case OpWriteBlock(data, size, from, rect) => HoldsBlock(data, size)
    case OpScroll(rect, clip, origin, fill) => NonEmpty(rect) ==> IsMeasurable(rect)
    case OpSetSize(nw, nh) => nw <= MAX_SIDE && nh <= MAX_SIDE
    case OpDeferStart => deferred < 0xFFFF
    case _ => true
  }

  // While repaints are deferred, the rectangles a call reports are harmless.
  predicate IsTidy(op: Op, w: nat, h: nat, deferred: nat)
    requires 0 < w <= MAX_SIDE && 0 < h <= MAX_SIDE
  {
    deferred == 0
    || match op
       case OpWriteBlock(data, size, from, rect) => Harmless(CopyRect(w, h, size, from, rect))
       case OpScroll(rect, clip, origin, fill) =>
         IsMeasurable(rect) ==> ScrollIsHarmless(rect, clip, origin, fill, w, h)
       case _ => true
  }

  class ConsoleOutput {
    const buf: ConsoleBuffer
    const classes: CharClasses
    var tempChars: seq<CharInfo>
    var processed: bool
    var wrap: bool
    var insert: bool
    var quickEdit: bool
    var extended: bool
    var otherModes: nat
    var attributes: nat
    var prevPos: Coord
    var cursor: Coord
    var scrollTop: Ushort
    var scrollBottom: Ushort
    var hasScrollCallback: bool
    var repaintDefer: Ushort
    var deferredRepaints: seq<Rect>
    // Lines handed to the scroll callback so far.
    ghost var callbackLines: Grid<CharInfo>
    // What the backend last drew: it redraws an area from the cells when told to.
    ghost var shown: Grid<CharInfo>
    // No merge has taken cells off the deferred list since all was last redrawn.
    ghost var lossless: bool

    ghost predicate Valid()
      reads this, buf
    {
      && buf.Valid() && 24 <= buf.width && 12 <= buf.height
      && IsGrid(shown, buf.width, buf.height)
      && !classes.isPrefix(TAB) && !classes.isSuffix(TAB)
      && (scrollTop < MAX_SIDE || (scrollTop == 0xFFFF && scrollBottom == 0))
    }

    ghost function Cells(): Grid<CharInfo>
      reads buf
      requires buf.Valid()
    {
      buf.Cells()
    }

    // No repaint is lost, unless a merge lost it: the backend's picture differs
    // from these cells only inside the deferred areas.
    ghost predicate KeptFor(cells: Grid<CharInfo>)
      reads this`repaintDefer, this`deferredRepaints, this`lossless, this`shown
    {
      && NothingLeft()
      && (lossless ==> Differ(shown, cells, deferredRepaints))
    }

    ghost predicate PictureKept()
      reads this`repaintDefer, this`deferredRepaints, this`lossless, this`shown, buf
      requires buf.Valid()
    {
      KeptFor(Cells())
    }

    lemma JustDrawn()
      requires Valid() && shown == Cells()
      ensures PictureKept() <==> NothingLeft()
    {
      DifferSame(shown, deferredRepaints);
    }

    ghost predicate NothingLeft()
      reads this`repaintDefer, this`deferredRepaints
    {
      repaintDefer == 0 ==> deferredRepaints == []
    }

    // Every deferred area is harmless, so that the next harmless one cannot lose cells.
    ghost predicate Tidy()
      reads this`lossless, this`deferredRepaints
    {
      lossless && AllHarmless(deferredRepaints)
    }

    ghost function Edge(): nat
      reads this`scrollBottom, buf
    {
      Min(buf.height, scrollBottom + 1)
    }

    function CurrentStyle(): Style
      reads this, buf
    {
      Style(buf.width, processed, wrap, attributes, classes)
    }

    // GetMode
    function CurrentMode(): Mode
      reads this
    {
      Mode(processed, wrap, insert, quickEdit, extended, otherModes)
    }

    constructor (charClasses: CharClasses)
      requires !charClasses.isPrefix(TAB) && !charClasses.isSuffix(TAB)
      ensures Valid() && fresh(buf) && PictureKept() && shown == Cells() && lossless && deferredRepaints == []
      ensures buf.width == 80 && buf.height == 25 && cursor == Coord(0, 0)
      ensures repaintDefer == 0 && !hasScrollCallback && scrollTop == 0 && scrollBottom == MAXSHORT
      ensures classes == charClasses && attributes == 7 && callbackLines == []
      ensures CurrentMode() == Mode(true, true, false, true, true, 0)
      ensures forall x, y :: 0 <= x < 80 && 0 <= y < 25 ==> Cells()[y][x] == CharInfo([SPACE], 7)
    {
      buf := new ConsoleBuffer();
      classes := charClasses;
      tempChars, deferredRepaints, callbackLines, shown := [], [], [], [];
      processed, wrap, attributes := true, true, 7;
      insert, quickEdit, extended, otherModes := false, true, true, 0;
      prevPos, cursor := Coord(-1, -1), Coord(0, 0);
      hasScrollCallback, repaintDefer, lossless := false, 0, true;
      scrollTop, scrollBottom := 0, MAXSHORT;
      new;
      buf.SetSize(80, 25, 7);
      shown := buf.Cells();
      DifferSame(shown, []);
    }

    method SetScrollCallback(installed: bool)
      requires Valid()
      modifies this`hasScrollCallback
      ensures Valid() && hasScrollCallback == installed
    {
      hasScrollCallback := installed;
    }

    method SetAttributes(newAttributes: nat)
      requires Valid()
      modifies this`attributes
      ensures Valid() && attributes == newAttributes
    {
      attributes := newAttributes;
    }

    /** Without the extended bit the insert and quick-edit bits stay as they were. */
    method SetMode(mode0: Mode)
      requires Valid()
      modifies this`processed, this`wrap, this`insert, this`quickEdit, this`extended, this`otherModes
      ensures Valid()
      ensures CurrentMode() == if mode0.extended then mode0
                               else mode0.(insert := old(insert), quickEdit := old(quickEdit))
    {
      var mode := mode0;
      if !mode.extended {
        mode := mode.(quickEdit := false, insert := false);
        mode := mode.(quickEdit := mode.quickEdit || quickEdit, insert := mode.insert || insert);
      }
      processed, wrap := mode.processed, mode.wrap;
      insert, quickEdit, extended, otherModes := mode.insert, mode.quickEdit, mode.extended, mode.others;
    }

    // The cursor stays on a screen of that size.
    method PullCursor(w: nat, h: nat)
      requires 0 < w <= MAX_SIDE && 0 < h <= MAX_SIDE
      modifies this`cursor
      ensures cursor == Coord(Min(old(cursor.X), w - 1), Min(old(cursor.Y), h - 1))
    {
      if cursor.X >= w && w > 0 {
        cursor := cursor.(X := w - 1);
      }
      if cursor.Y >= h && h > 0 {
        cursor := cursor.(Y := h - 1);
      }
    }

    /** Resizes the screen, never below 24 by 12; the backend redraws it all. */
    method SetSize(w0: nat, h0: nat)
      requires Valid() && w0 <= MAX_SIDE && h0 <= MAX_SIDE
      modifies this`scrollTop, this`scrollBottom, this`cursor, this`shown, this`lossless, buf
      ensures Valid() && buf.width == Max(w0, 24) && buf.height == Max(h0, 12)
      ensures forall x, y :: 0 <= x < buf.width && 0 <= y < buf.height ==>
                Cells()[y][x] == if x < old(buf.width) && y < old(buf.height) then old(Cells())[y][x]
                                 else CharInfo([32], attributes)
      ensures cursor == Coord(Min(old(cursor.X), buf.width - 1), Min(old(cursor.Y), buf.height - 1))
      ensures scrollTop == 0 && scrollBottom == MAXSHORT
      ensures shown == Cells() && lossless
      ensures (old(PictureKept()) ==> PictureKept()) && (old(Tidy()) ==> Tidy())
    {
      hide Rows, Row, Differ;
      var w, h := if w0 < 24 then 24 else w0, if h0 < 12 then 12 else h0;
      scrollTop, scrollBottom := 0, MAXSHORT;
      buf.SetSize(w, h, attributes);
      PullCursor(w, h);
      shown, lossless := buf.Cells(), true;
      JustDrawn();
    }

    // ---------------------------------------------------------------- repaints

    // The list stands for the union of all areas as long as no merge loses cells.
    method AddRepaint(area: Rect)
      modifies this`deferredRepaints, this`lossless
      ensures deferredRepaints == Added(old(deferredRepaints), area)
      ensures lossless == (old(lossless) && LosesNothing(old(deferredRepaints), area))
      ensures lossless ==> IsUnion(deferredRepaints, old(deferredRepaints), area)
    {
      if LosesNothing(deferredRepaints, area) {
        AddedIsUnion(deferredRepaints, area);
      }
      lossless := lossless && LosesNothing(deferredRepaints, area);
      var n := |deferredRepaints|;
      if n > 0 {
        var last := deferredRepaints[n - 1];
        if area.Top == last.Top && area.Bottom == last.Bottom && area.Left == last.Right + 1 {
          deferredRepaints := deferredRepaints[n - 1 := last.(Right := area.Right)];
          return;
        }
        if area.Left == last.Left && area.Right == last.Right && area.Top == last.Bottom + 1 {
          deferredRepaints := deferredRepaints[n - 1 := last.(Bottom := area.Bottom)];
          return;
        }
        if area.Left == last.Left && area.Right == last.Right && area.Top == last.Top && area.Bottom == last.Bottom {
          return;
        }
      }
      deferredRepaints := deferredRepaints + [area];
    }

    method AddRepaints(areas: seq<Rect>)
      modifies this`deferredRepaints, this`lossless
      ensures deferredRepaints == AddedAll(old(deferredRepaints), areas)
      ensures lossless == (old(lossless) && LosesNothingAll(old(deferredRepaints), areas))
      ensures lossless ==> IsUnionAll(deferredRepaints, old(deferredRepaints), areas)
    {
      hide Added, LosesNothing, IsUnion;
      ghost var list := deferredRepaints;
      var i := 0;
      while i < |areas|
        invariant 0 <= i <= |areas| && deferredRepaints == AddedAll(list, areas[..i])
        invariant lossless == (old(lossless) && LosesNothingAll(list, areas[..i]))
      {
        assert areas[..i + 1][..i] == areas[..i];
        AddRepaint(areas[i]);
        i := i + 1;
      }
      assert areas[..|areas|] == areas;
      if lossless {
        AddedAllIsUnion(list, areas);
      }
    }

    // OnConsoleOutputUpdated: the backend redraws the areas from the cells.
    ghost method NotifyBackend(areas: seq<Rect>)
      requires Valid()
      modifies this`shown
      ensures Valid()
      ensures shown == Redrawn(old(shown), Cells(), areas, buf.width, buf.height)
    {
      shown := Redrawn(shown, Cells(), areas, buf.width, buf.height);
    }

    // Hands areas that cover all changes since 'before' to the list or the backend.
    method Repaint(areas: seq<Rect>, ghost before: Grid<CharInfo>)
      requires Valid() && IsGrid(before, buf.width, buf.height)
      modifies this`deferredRepaints, this`lossless, this`shown
      ensures Valid()
      ensures repaintDefer != 0 ==>
                && shown == old(shown) && deferredRepaints == AddedAll(old(deferredRepaints), areas)
                && lossless == (old(lossless) && LosesNothingAll(old(deferredRepaints), areas))
      ensures repaintDefer == 0 ==>
                && shown == Redrawn(old(shown), Cells(), areas, buf.width, buf.height)
                && deferredRepaints == old(deferredRepaints) && lossless == old(lossless)
      ensures old(KeptFor(before)) && Differ(before, Cells(), areas) ==> PictureKept()
      ensures old(Tidy()) && (repaintDefer == 0 || AllHarmless(areas)) ==> Tidy()
    {
      hide Rows, Row, Redrawn, Differ, AddedAll, LosesNothingAll, AllHarmless;
      ghost var cells, was, list := Cells(), shown, deferredRepaints;
      if repaintDefer != 0 {
        if AllHarmless(list) && AllHarmless(areas) {
          HarmlessLosesNothing(list, areas);
        }
        AddRepaints(areas);
        if old(KeptFor(before)) && Differ(before, cells, areas) && lossless {
          DifferCompose(was, before, cells, list, areas, deferredRepaints, buf.width, buf.height);
        }
        return;
      }
      NotifyBackend(areas);
      if old(KeptFor(before)) && Differ(before, cells, areas) && lossless {
        DifferNowhere(was, before, buf.width, buf.height);
        RedrawnIsCurrent(was, cells, areas, buf.width, buf.height);
        DifferSame(cells, []);
      }
    }

    method RepaintsDeferStart()
      requires Valid() && repaintDefer < 0xFFFF
      modifies this`repaintDefer
      ensures Valid() && repaintDefer == old(repaintDefer) + 1
      ensures old(PictureKept()) ==> PictureKept()
      ensures old(Tidy()) ==> Tidy()
    {
      repaintDefer := repaintDefer + 1;
    }

    /** Ends one level of deferral, or all of them; at the last one the backend gets the areas. */
    method RepaintsDeferFinish(force: bool)
      requires Valid()
      modifies this`repaintDefer, this`deferredRepaints, this`lossless, this`shown
      ensures Valid()
      ensures repaintDefer == if force || old(repaintDefer) == 0 then 0 else old(repaintDefer) - 1
      ensures repaintDefer == 0 ==>
                && deferredRepaints == []
                && shown == Redrawn(old(shown), Cells(), old(deferredRepaints), buf.width, buf.height)
      ensures repaintDefer != 0 ==> deferredRepaints == old(deferredRepaints) && shown == old(shown)
      ensures old(PictureKept()) ==> PictureKept()
      ensures old(Tidy()) ==> Tidy()
      ensures old(PictureKept()) && lossless && repaintDefer == 0 ==> shown == Cells()
    {
      hide Rows, Row, Redrawn, Differ;
      RedrawnNowhere(shown, Cells(), buf.width, buf.height);
      var deferred := [];
      if force {
        repaintDefer := 0;
      } else if repaintDefer > 0 {
        repaintDefer := repaintDefer - 1;
      }
      if repaintDefer == 0 {
        deferred, deferredRepaints := deferredRepaints, [];
      }
      if |deferred| != 0 {
        NotifyBackend(deferred);
      }
      if old(PictureKept()) && lossless && repaintDefer == 0 {
        RedrawnIsCurrent(old(shown), Cells(), old(deferredRepaints), buf.width, buf.height);
        DifferSame(Cells(), []);
      }
    }

    // ---------------------------------------------------------------- single cells and rectangles

    // The cell at a position, widened to the cells a full-width character takes.
    method CellArea(pos: Coord) returns (area: Rect)
      requires Valid()
      ensures area == AreaOf(Cells(), classes, pos, buf.width, buf.height) && NonEmpty(area)
              && Within(area, pos.X, pos.Y)
    {
      area := Rect(pos.X, pos.Y, pos.X, pos.Y);
      var ok, ci := buf.ReadCell(pos);
      if ok {
        if ci.text == [0] && area.Left > 0 {
          area := area.(Left := area.Left - 1);
        } else if classes.isFullWidthText(ci.text) {
          area := area.(Right := area.Right + 1);
        }
      }
    }

    method SetCursor(pos: Coord)
      requires Valid()
      modifies this`cursor, this`deferredRepaints, this`lossless, this`shown
      ensures Valid() && cursor == pos
      ensures old(PictureKept()) ==> PictureKept()
      ensures old(Tidy()) ==> Tidy()
    {
      if cursor == pos {
        return;
      }
      var area0 := CellArea(cursor);
      cursor := pos;
      var area1 := CellArea(cursor);
      DifferSame(Cells(), [area0, area1]);
      Repaint([area0, area1], Cells());
    }

    /** Writes a block of cells onto the part of the rectangle that is on the screen. */
    method WriteBlock(data: seq<CharInfo>, size: Coord, pos: Coord, screenRect: Rect) returns (r: Rect)
      requires Valid() && HoldsBlock(data, size)
      modifies this`deferredRepaints, this`lossless, this`shown, buf`chars
      ensures Valid() && r == CopyRect(buf.width, buf.height, size, pos, screenRect)
      ensures Cells() == Written(old(Cells()), buf.width, buf.height,
                                 if CanCopy(buf.width, buf.height, size, pos, screenRect) then Block(data, size)
                                 else [],
                                 size, pos, screenRect)
      ensures repaintDefer != 0 ==>
                && shown == old(shown) && deferredRepaints == Added(old(deferredRepaints), r)
                && lossless == (old(lossless) && LosesNothing(old(deferredRepaints), r))
      ensures old(PictureKept()) ==> PictureKept()
      ensures old(Tidy()) && (repaintDefer == 0 || Harmless(r)) ==> Tidy()
    {
      AddedOne(deferredRepaints, CopyRect(buf.width, buf.height, size, pos, screenRect));
      hide Rows, Row, Written, Covers, Differ;
      ghost var before := Cells();
      r := buf.Write(data, size, pos, screenRect);
      WrittenCovers(before, buf.width, buf.height,
                    if CanCopy(buf.width, buf.height, size, pos, screenRect) then Block(data, size) else [],
                    size, pos, screenRect);
      CoversIsDiffer(before, Cells(), r, [r]);
      Repaint([r], before);
    }

    /** Writes one cell. */
    method WriteCell(data: CharInfo, pos: Coord) returns (ok: bool)
      requires Valid()
      modifies this`deferredRepaints, this`lossless, this`shown, buf`chars
      ensures Valid()
      ensures ok <==> 0 <= pos.X < buf.width && 0 <= pos.Y < buf.height
      ensures Cells() == if ok then old(Cells())[pos.Y := old(Cells())[pos.Y][pos.X := data]] else old(Cells())
      ensures repaintDefer != 0 && ok && old(Cells())[pos.Y][pos.X] != data ==>
                && shown == old(shown)
                && deferredRepaints == Added(old(deferredRepaints),
                                             AreaOf(Cells(), classes, pos, buf.width, buf.height))
      ensures old(PictureKept()) ==> PictureKept()
      ensures old(Tidy()) ==> Tidy()
    {
      hide Rows, Row, Covers, Differ;
      ghost var before := Cells();
      var res := buf.WriteCell(data, pos);
      match res {
        case WrBad => return false;
        case WrSame => return true;
        case WrModified =>
      }
      var area := CellArea(pos);
      AddedOne(deferredRepaints, area);
      PutCovers(before, buf.width, buf.height, pos, data, area);
      CoversIsDiffer(before, Cells(), area, [area]);
      Repaint([area], before);
      return true;
    }

    // ---------------------------------------------------------------- scrolling by a line

    method ResizeTempChars(n: nat)
      modifies this`tempChars
      ensures tempChars == Resized(old(tempChars), n)
    {
      if n <= |tempChars| {
        tempChars := tempChars[..n];
      } else {
        tempChars := tempChars + seq(n - |tempChars|, _ => CharInfo([0], 0));
      }
    }

    // Whole rows of the screen, into and out of the temporary block.
    method ReadLines(top: nat, size: Coord) returns (r: Rect)
      requires Valid() && size.X == buf.width && HoldsBlock(tempChars, size)
      requires if size.Y > 0 then top + size.Y <= buf.height else top <= MAX_SIDE && 0 <= top + size.Y
      modifies this`tempChars
      ensures |tempChars| == |old(tempChars)| && r == Rect(0, top, size.X - 1, top + size.Y - 1)
      ensures size.Y > 0 ==> Block(tempChars, size) == Cells()[top..top + size.Y]
    {
      hide Rows, Row, CopyRect, CanCopy, Blit;
      WholeRowsCopied(buf.width, buf.height, top, size);
      if size.Y > 0 {
        ReadIsLines(Block(tempChars, size), Cells(), top, buf.width, buf.height, size.Y);
      }
      tempChars, r := buf.Read(tempChars, size, Coord(0, 0), Rect(0, top, size.X - 1, top + size.Y - 1));
    }

    method WriteLines(top: nat, size: Coord) returns (r: Rect)
      requires Valid() && size.X == buf.width && HoldsBlock(tempChars, size)
      requires if size.Y > 0 then top + size.Y <= buf.height else top <= MAX_SIDE && 0 <= top + size.Y
      modifies buf`chars
      ensures Valid() && r == Rect(0, top, size.X - 1, top + size.Y - 1)
      ensures Cells() == if size.Y > 0 then WithLines(old(Cells()), Block(tempChars, size), top) else old(Cells())
    {
      hide Rows, Row, CopyRect, CanCopy, Blit, WithLines;
      WholeRowsCopied(buf.width, buf.height, top, size);
      if size.Y > 0 {
        WriteIsLines(Cells(), Block(tempChars, size), top, buf.width, buf.height, size.Y);
      }
      r := buf.Write(tempChars, size, Coord(0, 0), Rect(0, top, size.X - 1, top + size.Y - 1));
    }

    // Hands the top line of the screen to the scroll callback.
    method ReportTopLine(w: nat)
      requires Valid() && w == buf.width && w <= |tempChars|
      modifies this`tempChars, this`callbackLines
      ensures |tempChars| == |old(tempChars)|
      ensures callbackLines == old(callbackLines) + [Cells()[0]]
    {
      hide Rows, Row;
      var size := Coord(w, 1);
      LineBlock(tempChars, w);
      var lineRect := ReadLines(0, size);
      LineBlock(tempChars, w);
      callbackLines := callbackLines + [tempChars[..w]];
    }

    // Moves the lines below the region's top up by one.  With the top below the
    // edge nothing can be copied.
    method MoveRegionUp(w: nat, h: nat, area0: Rect) returns (area: Rect)
      requires Valid() && w == buf.width && 2 <= h <= buf.height && Start(w, h - 1) == |tempChars|
      requires scrollTop + 2 <= h || h < scrollTop < MAX_SIDE
      modifies this`tempChars, buf`chars
      ensures Valid() && |tempChars| == |old(tempChars)|
      ensures Grows(area0, area)
      ensures scrollTop + 2 <= h ==>
                area.Left <= 0 && w - 1 <= area.Right && area.Top <= scrollTop && h - 2 <= area.Bottom
      ensures MovedUp(old(Cells()), Cells(), scrollTop, h)
    {
      hide MovedUp, WithLines, Rows, Row;
      area := area0;
      ghost var before := Cells();
      var tmpSize := Coord(w, ToShort(h - 1 - scrollTop));
      if scrollTop > 0 && scrollTop < h {
        StartOrder(w, h - 1 - scrollTop, h - 1);
      }
      var scrRect := ReadLines(scrollTop + 1, tmpSize);
      if scrRect.Left != 0 || scrRect.Top != scrollTop + 1 || scrRect.Right != w - 1 || scrRect.Bottom != h - 1 {
        assert false;
        return;
      }
      scrRect := WriteLines(scrollTop, tmpSize);
      area := AffectRect(area, scrRect);
      if scrollTop < h {
        MovedUpByCopy(before, Block(tempChars, tmpSize), Cells(), scrollTop, tmpSize.Y);
      } else {
        NotMovedUp(before, scrollTop, h);
      }
    }

    method BlankTempChars(w: nat)
      requires w <= |tempChars|
      modifies this`tempChars
      ensures |tempChars| == |old(tempChars)| && tempChars[..w] == BlankRow(w, attributes)
    {
      var i := 0;
      while i < w
        invariant 0 <= i <= w && |tempChars| == |old(tempChars)|
        invariant forall k :: 0 <= k < i ==> tempChars[k] == CharInfo([SPACE], attributes)
      {
        tempChars := tempChars[i := CharInfo([SPACE], attributes)];
        i := i + 1;
      }
    }

    method BlankLine(w: nat, line: nat, area0: Rect) returns (area: Rect)
      requires Valid() && w == buf.width && line < buf.height && w <= |tempChars|
      modifies this`tempChars, buf`chars
      ensures Valid()
      ensures area == AffectRect(area0, Rect(0, line, w - 1, line))
      ensures Cells() == old(Cells())[line := BlankRow(w, attributes)]
    {
      hide Rows, Row, BlankRow;
      BlankTempChars(w);
      var size := Coord(w, 1);
      LineBlock(tempChars, w);
      var r := WriteLines(line, size);
      area := AffectRect(area0, r);
    }

    // Scrolls the region up by one line; a line lost off the top of the screen
    // goes to the callback first.  A region of fewer than two lines stays as it
    // is; a region whose top lies below its edge only has its last line blanked.
    method ScrollOutputOnOverflow(area0: Rect) returns (area: Rect)
      requires Valid()
      modifies this`tempChars, this`callbackLines, buf`chars
      ensures Valid() && Grows(area0, area) && Covers(old(Cells()), Cells(), area)
      ensures Cells() == if scrollTop + 2 <= Edge()
                         then Scrolled(old(Cells()), scrollTop, Edge(), buf.width, attributes)
                         else if 2 <= Edge() < scrollTop
                         then old(Cells())[Edge() - 1 := BlankRow(buf.width, attributes)]
                         else old(Cells())
      ensures callbackLines == if hasScrollCallback && scrollTop == 0 && 2 <= Edge()
                               then old(callbackLines) + [old(Cells())[0]]
                               else old(callbackLines)
    {
      hide Rows, Row, Scrolled, Covers, Resized, BlankRow;
      area := area0;
      CoversSame(Cells(), area);
      var w, h := buf.GetSize();
      if h > scrollBottom + 1 {
        h := scrollBottom + 1;
      }
      var short := RegionIsShort(h);
      if short || w == 0 {
        return;
      }
      StartIsProduct(w, h - 1);
      StartAtLeast(w, h - 1);
      ResizeTempChars((h - 1) * w);
      if |tempChars| == 0 {
        return;
      }
      area := ScrollLines(w, h, area);
    }

    // The region has fewer than two lines, in unsigned arithmetic.
    method RegionIsShort(h: nat) returns (short: bool)
      requires h < 0x1_0000
      ensures short <==> h == scrollTop || h == scrollTop + 1
    {
      short := (h - scrollTop) % 0x1_0000_0000 < 2;
    }

    // The copying part of ScrollOutputOnOverflow.
    method ScrollLines(w: nat, h: nat, area0: Rect) returns (area: Rect)
      requires Valid() && w == buf.width && 2 <= h <= buf.height && Start(w, h - 1) == |tempChars| && w <= |tempChars|
      requires scrollTop + 2 <= h || h < scrollTop < MAX_SIDE
      modifies this`tempChars, this`callbackLines, buf`chars
      ensures Valid() && Grows(area0, area) && Covers(old(Cells()), Cells(), area)
      ensures Cells() == if scrollTop + 2 <= h then Scrolled(old(Cells()), scrollTop, h, w, attributes)
                         else old(Cells())[h - 1 := BlankRow(w, attributes)]
      ensures callbackLines == if hasScrollCallback && scrollTop == 0 then old(callbackLines) + [old(Cells())[0]]
                               else old(callbackLines)
    {
      hide MovedUp, Rows, Row, Scrolled, Covers;
      ghost var before := Cells();
      if hasScrollCallback && scrollTop == 0 {
        ReportTopLine(w);
      }
      area := MoveRegionUp(w, h, area0);
      ghost var moved := Cells();
      area := BlankLine(w, h - 1, area);
      ScrollDone(before, moved, Cells(), scrollTop, h, w, buf.height, attributes, area);
    }

    lemma ScrollDone(before: Grid<CharInfo>, moved: Grid<CharInfo>, after: Grid<CharInfo>, top: nat, edge: nat,
                     w: nat, h: nat, attr: nat, area: Rect)
      requires IsGrid(before, w, h) && IsGrid(moved, w, h) && 2 <= edge <= h
      requires top + 2 <= edge || edge < top
      requires MovedUp(before, moved, top, edge)
      requires after == moved[edge - 1 := BlankRow(w, attr)]
      requires area.Left <= 0 && w - 1 <= area.Right && area.Top <= edge - 1 && edge - 1 <= area.Bottom
      requires top + 2 <= edge ==> area.Top <= top
      ensures after == if top + 2 <= edge then Scrolled(before, top, edge, w, attr)
                       else before[edge - 1 := BlankRow(w, attr)]
      ensures Covers(before, after, area)
    {
    }

    // ---------------------------------------------------------------- writing a sequence

    // Only plain characters are written, and none of them joins a cell's text.
    ghost predicate JoinFree(sm: Sequence)
      reads buf
      requires buf.Valid()
    {
      sm.PlainText(classes) && NoJoiner(Cells())
    }

    // The screen is a window on the terminal t, and the sequence is made of
    // plain characters only.
    ghost predicate Windowed(t: Term, pos: Coord, sm: Sequence)
      reads this, buf
      requires Valid()
    {
      && hasScrollCallback && scrollTop == 0 && 2 <= Edge() && JoinFree(sm)
      && ValidTerm(CurrentStyle(), t) && Shows(callbackLines, Cells(), Edge(), pos, t)
    }

    method ReadPrevChar() returns (ok: bool, ch: CharInfo)
      requires Valid()
      ensures ok == OnGrid(prevPos, buf.width, buf.height) && (ok ==> ch == Cells()[prevPos.Y][prevPos.X])
    {
      if prevPos.X >= 0 {
        ok, ch := buf.ReadCell(prevPos);
      } else {
        ok, ch := false, CharInfo([0], 0);
      }
    }

    // Puts a character, and the blank half of a full-width one, and notes the
    // cells that changed.
    method PutChar(ch: CharInfo, pos: Coord, trailing: bool, area0: Rect) returns (area: Rect)
      requires Valid()
      modifies buf`chars
      ensures Valid() && Grows(area0, area) && Covers(old(Cells()), Cells(), area)
      ensures Cells() == if 0 <= pos.X < buf.width && 0 <= pos.Y < buf.height
                         then old(Cells())[pos.Y := PutCell(old(Cells())[pos.Y], pos.X, ch, trailing)]
                         else old(Cells())
    {
      hide Rows, Row, Covers;
      area := area0;
      ghost var before := Cells();
      CoversSame(before, area);
      var res := buf.WriteCell(ch, pos);
      if res == WrModified {
        area := Affect(area, pos.X, pos.Y);
        PutCovers(before, buf.width, buf.height, pos, ch, area);
        ghost var mid := Cells();
        if trailing {
          var blank, next := ch.(text := [0]), pos.(X := pos.X + 1);
          CoversSame(mid, area);
          ghost var area1 := area;
          res := buf.WriteCell(blank, next);
          if res == WrModified {
            area := Affect(area, next.X, next.Y);
            PutCovers(mid, buf.width, buf.height, next, blank, area);
          }
          CoversCompose(before, mid, Cells(), area1, area, buf.width, buf.height);
        }
      }
    }

    method JoinPrevChar(ch: CharInfo, area0: Rect) returns (area: Rect)
      requires Valid() && OnGrid(prevPos, buf.width, buf.height)
      modifies buf`chars
      ensures Valid() && Grows(area0, area) && Covers(old(Cells()), Cells(), area)
      ensures Cells() == Entering(old(Cells()), Joined(ch, prevPos), buf.width, buf.height)
    {
      hide Rows, Row, Covers;
      ghost var before := Cells();
      var res := buf.WriteCell(ch, prevPos);
      area := Affect(area0, prevPos.X, prevPos.Y);
      PutCovers(before, buf.width, buf.height, prevPos, ch, area);
    }

    // The cell a character of a string makes: where it goes, how far the cursor
    // moves, and whether a blank half follows.  A joiner before it takes the
    // character into the previous cell and nothing more is written.
    method ComposeChar(c: Wchar, pos0: Coord, area0: Rect)
      returns (write: bool, ch: CharInfo, pos: Coord, out: Short, trailing: bool, area: Rect)
      requires Valid()
      modifies this`prevPos, buf`chars
      ensures Valid() && Grows(area0, area) && Covers(old(Cells()), Cells(), area)
      ensures var e := EnteredAs(CurrentStyle(), c, old(Cells()), old(prevPos), pos0, buf.height);
              && write == e.Put? && out == (if e.Put? then e.columns else 0)
              && (e.Put? ==> ch == e.ch && pos == e.at && trailing == e.trailing)
              && prevPos == (if e.Put? then e.at else old(prevPos))
              && Cells() == if e.Joined? then Entering(old(Cells()), e, buf.width, buf.height) else old(Cells())
    {
      hide Rows, Row, Covers, Entering;
      write, out, area, pos, trailing, ch := true, 1, area0, pos0, false, CharInfo([0], 0);
      CoversSame(Cells(), area);
      if classes.isPrefix(c) {
        out := 0;
        ch := ch.(text := [c]);
      } else if classes.isSuffix(c) {
        out := 0;
        if c == VARIATION_SELECTOR_16 {
          out, trailing := 1, true;
        }
        var ok;
        ok, ch := ReadPrevChar();
        if !ok {
          write, out := false, 0;
          return;
        }
        pos := prevPos;
        ch := ch.(text := ch.text + [c]);
      } else if c == TAB && processed {
        ch := ch.(text := [SPACE]);
      } else {
        var ok, prevCh := ReadPrevChar();
        if ok && prevCh.text != [] && prevCh.text[|prevCh.text| - 1] == ZERO_WIDTH_JOINER {
          area := JoinPrevChar(prevCh.(text := prevCh.text + [c]), area);
          write, out := false, 0;
          return;
        }
        ch := ch.(text := [c]);
        if classes.isFullWidth(c) {
          trailing, out := true, 2;
        }
      }
      ch := ch.(attr := attributes);
      prevPos := pos;
    }

    // One character of a string.
    method EnterChar(c: Wchar, pos0: Coord, area0: Rect) returns (out: Short, area: Rect)
      requires Valid()
      modifies this`prevPos, buf`chars
      ensures Valid() && Grows(area0, area) && Covers(old(Cells()), Cells(), area)
      ensures var e := EnteredAs(CurrentStyle(), c, old(Cells()), old(prevPos), pos0, buf.height);
              && Cells() == Entering(old(Cells()), e, buf.width, buf.height)
              && out == if e.Put? then e.columns else 0
    {
      hide Rows, Row, Covers, PutCell, EnteredAs;
      ghost var before := Cells();
      var ok, ch, pos, needsTrailingBlank;
      ok, ch, pos, out, needsTrailingBlank, area := ComposeChar(c, pos0, area0);
      if ok {
        ghost var mid, area1 := Cells(), area;
        area := PutChar(ch, pos, needsTrailingBlank, area);
        CoversCompose(before, mid, Cells(), area1, area, buf.width, buf.height);
      }
    }

    // Puts one item of the sequence; out is how far the cursor moves.
    method ModifySequenceEntityAt(sm: Sequence, i: nat, pos0: Coord, area0: Rect) returns (out: Short, area: Rect)
      requires Valid() && i < sm.Length()
      modifies this`prevPos, buf`chars
      ensures Valid() && Grows(area0, area) && Covers(old(Cells()), Cells(), area)
      ensures sm.WriteStr? ==>
                var e := EnteredAs(CurrentStyle(), sm.str[i], old(Cells()), old(prevPos), pos0, buf.height);
                && Cells() == Entering(old(Cells()), e, buf.width, buf.height)
                && out == if e.Put? then e.columns else 0
      ensures !sm.WriteStr? || old(JoinFree(sm)) ==>
                Cells() == if OnGrid(pos0, buf.width, buf.height)
                           then old(Cells())[pos0.Y := PutInRow(CurrentStyle(), old(Cells())[pos0.Y], pos0.X, sm, i)]
                           else old(Cells())
      ensures 0 <= out <= 2 && Takes(CurrentStyle(), sm, i, out, old(JoinFree(sm)))
      ensures CurrentStyle().IsControl(sm, i, TAB) ==> out == 1
      ensures old(JoinFree(sm)) ==> JoinFree(sm)
    {
      hide Rows, Row, Covers, NoJoiner, PutCell, EnteredAs;
      ghost var before, st := Cells(), CurrentStyle();
      if JoinFree(sm) && OnGrid(pos0, buf.width, buf.height) {
        NoJoinerItem(before, pos0.X, pos0.Y, st, sm, i);
      }
      if sm.WriteStr? {
        EnteredColumns(st, sm, i, before, prevPos, pos0, buf.height, JoinFree(sm));
        if JoinFree(sm) {
          PlainIsPut(st, sm.str[i], before, prevPos, pos0, buf.height);
        }
        out, area := EnterChar(sm.str[i], pos0, area0);
      } else {
        out, area := 1, area0;
        CoversSame(before, area);
        var ok, ch := buf.ReadCell(pos0);
        if ok {
          ch := if sm.FillChar? then ch.(text := [sm.chr]) else ch.(attr := sm.attr);
          area := PutChar(ch, pos0, false, area);
        }
      }
    }

    // One line down, scrolling at the edge.
    method NextLine(pos0: Coord, edge: nat, area0: Rect, ghost t: Term, ghost sm: Sequence)
      returns (pos: Coord, area: Rect)
      requires Valid() && edge == Edge()
      modifies this`tempChars, this`callbackLines, buf`chars
      ensures Valid() && Grows(area0, area) && Covers(old(Cells()), Cells(), area)
      ensures pos.X == pos0.X
      ensures pos0.Y < edge ==> pos.Y < edge
      ensures edge <= pos0.Y < MAXSHORT ==> pos.Y == pos0.Y
      ensures old(JoinFree(sm)) ==> JoinFree(sm)
      ensures old(Windowed(t, pos0, sm)) ==>
                Windowed(LineFeed(CurrentStyle(), t), pos, sm) && Cells()[edge..] == old(Cells())[edge..]
    {
      hide Rows, Row, Covers, NoJoiner, Sequence.PlainText, Scrolled, BlankRow;
      area := area0;
      CoversSame(Cells(), area);
      pos := pos0.(Y := ToShort(pos0.Y + 1));
      if pos.Y >= edge {
        pos := pos.(Y := pos.Y - 1);
        ghost var lines, rows, st := callbackLines, Cells(), CurrentStyle();
        area := ScrollOutputOnOverflow(area);
        if old(JoinFree(sm)) {
          NoJoinerScroll(rows, scrollTop, edge, st.width, st.attributes);
        }
        if old(Windowed(t, pos0, sm)) {
          ShowsScroll(lines, rows, edge, pos, t, st);
        }
      }
    }

    // The part of the loop body before the item itself: a cursor past the last
    // column wraps or is pulled back.
    method SettleCursor(sm: Sequence, i: nat, pos0: Coord, edge: nat, area0: Rect, ghost t: Term)
      returns (pos: Coord, area: Rect)
      requires Valid() && edge == Edge() && i < sm.Length()
      modifies this`tempChars, this`callbackLines, buf`chars
      ensures Valid() && Grows(area0, area) && Covers(old(Cells()), Cells(), area)
      ensures pos.X == SettledColumn(CurrentStyle(), sm, i, pos0.X)
      ensures old(JoinFree(sm)) ==> JoinFree(sm)
      ensures pos0.Y < edge ==> pos.Y < edge
      ensures edge <= pos0.Y < MAXSHORT ==> pos.Y == pos0.Y
      ensures old(Windowed(t, pos0, sm)) ==>
                Windowed(Settle(CurrentStyle(), t, sm, i), pos, sm) && Cells()[edge..] == old(Cells())[edge..]
    {
      hide Rows, Row, Covers, JoinFree;
      pos, area := pos0, area0;
      CoversSame(Cells(), area);
      if pos.X >= buf.width {
        if !sm.WriteStr? || (wrap && (!processed || (sm.str[i] != RETURN && sm.str[i] != NEWLINE))) {
          pos, area := NextLine(pos, edge, area, t, sm);
          pos := pos.(X := 0);
        } else {
          pos := pos.(X := buf.width - 1);
        }
      }
    }

    // Puts the item and moves the cursor past it.
    method PlaceItem(sm: Sequence, i: nat, pos0: Coord, area0: Rect, ghost t: Term)
      returns (pos: Coord, area: Rect, ghost out: int)
      requires Valid() && i < sm.Length() && pos0.X < buf.width
      modifies this`prevPos, buf`chars
      ensures Valid() && Grows(area0, area) && Covers(old(Cells()), Cells(), area)
      ensures pos.Y == pos0.Y && pos.X == pos0.X + out
      ensures 0 <= out <= 2 && Takes(CurrentStyle(), sm, i, out, old(JoinFree(sm)))
      ensures CurrentStyle().IsControl(sm, i, TAB) ==> out == 1
      ensures old(JoinFree(sm)) ==> JoinFree(sm)
      ensures old(Windowed(t, pos0, sm)) ==>
                Windowed(PutItem(CurrentStyle(), t, sm, i), pos, sm) && Cells()[Edge()..] == old(Cells())[Edge()..]
    {
      hide Rows, Row, Covers, NoJoiner, Sequence.PlainText;
      var columns;
      ghost var rows, st := Cells(), CurrentStyle();
      columns, area := ModifySequenceEntityAt(sm, i, pos0, area0);
      pos, out := pos0.(X := pos0.X + columns), columns;
      if old(Windowed(t, pos0, sm)) {
        ShowsPut(callbackLines, rows, Edge(), pos0, t, PutInRow(st, rows[pos0.Y], pos0.X, sm, i));
      }
    }

    // Backspace, return, line feed or a put item.
    method ApplyItem(sm: Sequence, i: nat, pos0: Coord, edge: nat, area0: Rect, ghost t: Term)
      returns (pos: Coord, area: Rect, ghost out: int)
      requires Valid() && edge == Edge() && i < sm.Length() && pos0.X < buf.width
      modifies this`prevPos, this`tempChars, this`callbackLines, buf`chars
      ensures Valid() && Grows(area0, area) && Covers(old(Cells()), Cells(), area)
      ensures 0 <= out <= 2 && Takes(CurrentStyle(), sm, i, out, old(JoinFree(sm)))
      ensures pos.X == AppliedColumn(CurrentStyle(), sm, i, pos0.X, out)
      ensures old(JoinFree(sm)) ==> JoinFree(sm)
      ensures pos0.Y < edge ==> pos.Y < edge
      ensures edge <= pos0.Y < MAXSHORT ==> pos.Y == pos0.Y
      ensures old(Windowed(t, pos0, sm)) ==>
                Windowed(Apply(CurrentStyle(), t, sm, i), pos, sm) && Cells()[edge..] == old(Cells())[edge..]
    {
      hide Rows, Row, Covers, NoJoiner, Sequence.PlainText, Shows, ValidTerm, PutItem, LineFeed, Takes, Taken;
      pos, area, out := pos0, area0, Taken(CurrentStyle(), sm, i, JoinFree(sm));
      CoversSame(Cells(), area);
      if sm.WriteStr? && sm.str[i] == BACKSPACE && processed {
        if pos.X > 0 {
          pos := pos.(X := pos.X - 1);
        }
        ShowsMoved(callbackLines, Cells(), edge, pos0, t, pos, CurrentStyle());
      } else if sm.WriteStr? && sm.str[i] == RETURN && processed {
        pos := pos.(X := 0);
        ShowsMoved(callbackLines, Cells(), edge, pos0, t, pos, CurrentStyle());
      } else if sm.WriteStr? && sm.str[i] == NEWLINE && processed {
        pos, area := NextLine(pos, edge, area, t, sm);
      } else {
        pos, area, out := PlaceItem(sm, i, pos, area, t);
      }
    }

    // One pass of the loop body over an item that is not a bell.
    method ModifyItem(sm: Sequence, i: nat, pos0: Coord, edge: nat, area0: Rect, ghost t: Term)
      returns (pos: Coord, area: Rect, ghost out: int)
      requires Valid() && edge == Edge() && i < sm.Length() && !CurrentStyle().IsControl(sm, i, BELL)
      modifies this`prevPos, this`tempChars, this`callbackLines, buf`chars
      ensures Valid() && Grows(area0, area) && Covers(old(Cells()), Cells(), area)
      ensures 0 <= out <= 2 && Takes(CurrentStyle(), sm, i, out, old(JoinFree(sm)))
      ensures pos.X == PassColumn(CurrentStyle(), sm, i, pos0.X, out)
      ensures old(JoinFree(sm)) ==> JoinFree(sm)
      ensures pos0.Y < edge ==> pos.Y < edge
      ensures edge <= pos0.Y < MAXSHORT ==> pos.Y == pos0.Y
      ensures old(Windowed(t, pos0, sm)) ==>
                Windowed(StepOnce(CurrentStyle(), t, sm, i), pos, sm) && Cells()[edge..] == old(Cells())[edge..]
    {
      hide Rows, Row, Covers, NoJoiner, Sequence.PlainText, Shows, ValidTerm, Settle, Apply, Takes, AppliedColumn;
      ghost var st, before := CurrentStyle(), Cells();
      pos, area := SettleCursor(sm, i, pos0, edge, area0, t);
      ghost var mid, area1, plain := Cells(), area, JoinFree(sm);
      ghost var s := if old(Windowed(t, pos0, sm)) then Settle(st, t, sm, i) else t;
      pos, area, out := ApplyItem(sm, i, pos, edge, area, s);
      TakesPlain(st, sm, i, out, plain, old(JoinFree(sm)));
      CoversCompose(before, mid, Cells(), area1, area, buf.width, buf.height);
    }

    // One pass over an item, with the changes since 'before' still covered.
    method Pass(sm: Sequence, i: nat, pos0: Coord, edge: nat, area0: Rect, ghost t0: Term, ghost before: Grid<CharInfo>,
                ghost joinFree: bool)
      returns (pos: Coord, area: Rect, ghost t: Term)
      requires Valid() && edge == Edge() && i < sm.Length() && !CurrentStyle().IsControl(sm, i, BELL)
      requires IsGrid(before, buf.width, buf.height) && Covers(before, Cells(), area0)
      requires TabsEnd(CurrentStyle(), sm, i, pos0.X, joinFree) && (joinFree ==> JoinFree(sm))
      modifies this`prevPos, this`tempChars, this`callbackLines, buf`chars
      ensures Valid() && Covers(before, Cells(), area)
      ensures StaysIn(pos0, pos, buf.width, edge)
      ensures joinFree ==> JoinFree(sm)
      ensures if CurrentStyle().IsControl(sm, i, TAB) && pos.X % TAB_WIDTH != 0
              then TabsEnd(CurrentStyle(), sm, i, pos.X, joinFree)
                   && 0 <= BlanksToTabStop(buf.width, pos.X) < BlanksToTabStop(buf.width, pos0.X)
              else TabsEnd(CurrentStyle(), sm, i + 1, pos.X, joinFree)
      ensures old(Windowed(t0, pos0, sm)) && joinFree ==>
                && Windowed(t, pos, sm) && t.x == pos.X && Cells()[edge..] == old(Cells())[edge..]
                && Run(CurrentStyle(), t0, sm, i)
                   == if CurrentStyle().IsControl(sm, i, TAB) && pos.X % TAB_WIDTH != 0
                      then Run(CurrentStyle(), t, sm, i)
                      else Run(CurrentStyle(), t, sm, i + 1)
    {
      hide Rows, Row, Covers, NoJoiner, Sequence.PlainText, Shows, Run, Step, StepOnce, BlanksToTabStop, ValidTerm,
           TabsEnd, PassColumn, Takes;
      ghost var mid, st := Cells(), CurrentStyle();
      if Windowed(t0, pos0, sm) {
        TermColumn(t0, pos0, sm);
      }
      ghost var out;
      pos, area, out := ModifyItem(sm, i, pos0, edge, area0, t0);
      CoversCompose(before, mid, Cells(), area0, area, buf.width, buf.height);
      PassInRange(st, sm, i, pos0.X, out);
      TakesPlain(st, sm, i, out, old(JoinFree(sm)), joinFree);
      TabsEndAfterPass(st, sm, i, pos0.X, out, joinFree);
      t := t0;
      if old(Windowed(t0, pos0, sm)) && joinFree {
        RunOnce(st, t0, sm, i);
        t := StepOnce(st, t0, sm, i);
        TermColumn(t, pos, sm);
      }
    }

    // Writes the whole sequence.  It ends: the rest of the sequence gets shorter,
    // or a tab has fewer blanks to go.
    method WriteItems(sm: Sequence, pos0: Coord, ghost t0: Term) returns (rv: nat, pos: Coord, area: Rect)
      requires Valid() && TabsEnd(CurrentStyle(), sm, 0, pos0.X, JoinFree(sm))
      modifies this`prevPos, this`tempChars, this`callbackLines, buf`chars
      ensures Valid() && Covers(old(Cells()), Cells(), area)
      ensures rv == sm.Length() - BellCount(CurrentStyle(), sm, sm.Length())
      ensures StaysIn(pos0, pos, buf.width, Edge())
      ensures old(Windowed(t0, pos0, sm)) ==>
                && Windowed(Run(CurrentStyle(), t0, sm, 0), pos, sm)
                && Cells()[Edge()..] == old(Cells())[Edge()..]
    {
      hide Rows, Row, Covers, NoJoiner, Sequence.PlainText, Shows, Run, Step, StepOnce, PutTab, BellCount, ValidTerm,
           BlanksToTabStop, TabsEnd, StaysIn;
      rv, pos, area := 0, pos0, NO_AREA;
      ghost var st, before := CurrentStyle(), Cells();
      CoversSame(before, area);
      var w, h := buf.GetSize();
      var edge := Min(h, scrollBottom + 1);
      var i, count := 0, sm.Length();
      ghost var t := t0;
      ghost var joinFree, windowed := JoinFree(sm), Windowed(t0, pos0, sm);
      NoBellsYet(st, sm);
      StaysPut(pos0, w, edge);
      if windowed {
        TermColumn(t, pos, sm);
      }
      while count != 0
        invariant Valid() && 0 <= i && 0 <= count && i + count == sm.Length()
        invariant rv == i - BellCount(st, sm, i)
        invariant Covers(before, Cells(), area)
        invariant TabsEnd(st, sm, i, pos.X, joinFree) && (joinFree ==> JoinFree(sm))
        invariant StaysIn(pos0, pos, w, edge)
        invariant windowed ==>
                    && joinFree && Windowed(t, pos, sm) && t.x == pos.X
                    && Run(st, t0, sm, 0) == Run(st, t, sm, i)
        invariant windowed ==> Cells()[edge..] == before[edge..]
        decreases count, if st.IsControl(sm, i, TAB) then BlanksToTabStop(w, pos.X) else 0
      {
        BellStep(st, sm, i);
        if sm.WriteStr? && sm.str[i] == BELL && processed {
          OverBell(st, sm, i, pos.X, joinFree);
          if windowed {
            RunOnce(st, t, sm, i);
          }
          count, i := count - 1, i + 1;
          continue;
        }
        ghost var was := pos;
        pos, area, t := Pass(sm, i, pos, edge, area, t, before, joinFree);
        StaysInOn(pos0, was, pos, w, edge);
        if sm.WriteStr? {
          if sm.str[i] != TAB || pos.X % TAB_WIDTH == 0 || !processed {
            i, count, rv := i + 1, count - 1, rv + 1;
          }
        } else {
          i, count, rv := i + 1, count - 1, rv + 1;
        }
      }
      if windowed {
        RunAtEnd(st, t, sm);
      }
    }

    lemma NoBellsYet(st: Style, sm: Sequence)
      ensures BellCount(st, sm, 0) == 0
    {
    }

    lemma TermColumn(t: Term, pos: Coord, sm: Sequence)
      requires Valid() && Windowed(t, pos, sm)
      ensures t.x == pos.X
    {
    }

    lemma RunAtEnd(st: Style, t: Term, sm: Sequence)
      requires ValidTerm(st, t) && 8 <= st.width
      ensures Run(st, t, sm, sm.Length()) == t
    {
    }

    /**
     * Writes the sequence from the position on and returns how many items were
     * taken other than bells.  With the scroll callback installed and the
     * region at the top of the screen, for plain text, the screen stays a
     * window on the unbounded terminal: the lines handed to the callback and
     * then the rows of the region are its lines.
     */
    method ModifySequenceAt(sm: Sequence, pos0: Coord, atCursor: bool, ghost t0: Term) returns (rv: nat, pos: Coord)
      requires Valid() && TabsEnd(CurrentStyle(), sm, 0, pos0.X, JoinFree(sm))
      modifies this`prevPos, this`tempChars, this`callbackLines, this`deferredRepaints, this`lossless, this`shown,
               buf`chars
      ensures Valid()
      ensures rv == sm.Length() - BellCount(CurrentStyle(), sm, sm.Length())
      ensures StaysIn(pos0, pos, buf.width, Edge())
      ensures old(Windowed(t0, pos0, sm)) ==>
                && Windowed(Run(CurrentStyle(), t0, sm, 0), pos, sm)
                && Cells()[Edge()..] == old(Cells())[Edge()..]
      ensures old(PictureKept()) ==> PictureKept()
      ensures old(Tidy()) ==> Tidy()
    {
      hide Rows, Row, Covers, Differ, NoJoiner, Sequence.PlainText, Shows, Run, ValidTerm, TabsEnd, Tidy, KeptFor,
           ReportedAreas, AddedAll, Redrawn, AreaOf, StaysIn, BellCount;
      ghost var before := Cells();
      var area0 := CellArea(pos0);
      var area;
      rv, pos, area := WriteItems(sm, pos0, t0);
      Report(atCursor, area0, pos, area, before);
    }

    // The cells that changed, and the cursor's old and new cells.
    method Report(atCursor: bool, area0: Rect, pos: Coord, area: Rect, ghost before: Grid<CharInfo>)
      requires Valid() && IsGrid(before, buf.width, buf.height) && Covers(before, Cells(), area) && NonEmpty(area0)
      modifies this`deferredRepaints, this`lossless, this`shown
      ensures Valid()
      ensures repaintDefer != 0 ==>
                && deferredRepaints == AddedAll(old(deferredRepaints), ReportedAreas(atCursor, area0, pos, area))
                && shown == old(shown)
      ensures repaintDefer == 0 ==>
                && shown == Redrawn(old(shown), Cells(), ReportedAreas(atCursor, area0, pos, area), buf.width,
                                    buf.height)
                && deferredRepaints == old(deferredRepaints)
      ensures old(KeptFor(before)) ==> PictureKept()
      ensures old(Tidy()) ==> Tidy()
    {
      hide Rows, Row, Covers, Differ, Redrawn, AddedAll;
      var areas := [];
      if atCursor && (area0.Left != pos.X || area0.Top != pos.Y) {
        areas := [area0, Rect(pos.X, pos.Y, pos.X, pos.Y)];
      }
      if area.Left <= area.Right && area.Top <= area.Bottom {
        areas := areas + [area];
        assert area == areas[|areas| - 1];
      } else {
        CoversNothing(before, Cells(), area, buf.width, buf.height);
      }
      CoversIsDiffer(before, Cells(), area, areas);
      assert areas == ReportedAreas(atCursor, area0, pos, area);
      Repaint(areas, before);
    }

    lemma CoversNothing(a: Grid<CharInfo>, b: Grid<CharInfo>, area: Rect, w: nat, h: nat)
      requires IsGrid(a, w, h) && IsGrid(b, w, h) && Covers(a, b, area) && !NonEmpty(area)
      ensures a == b
    {
      forall y | 0 <= y < h
        ensures a[y] == b[y]
      {
        forall x | 0 <= x < w
          ensures a[y][x] == b[y][x]
        {
          assert !Within(area, x, y);
        }
      }
    }

    method WriteString(data: seq<Wchar>, ghost t: Term) returns (rv: nat)
      requires Valid() && TabsEnd(CurrentStyle(), WriteStr(data), 0, cursor.X, JoinFree(WriteStr(data)))
      modifies this`cursor, this`prevPos, this`tempChars, this`callbackLines, this`deferredRepaints, this`lossless,
               this`shown, buf`chars
      ensures Valid()
      ensures rv == |data| - BellCount(CurrentStyle(), WriteStr(data), |data|)
      ensures old(Windowed(t, cursor, WriteStr(data))) ==>
                && Windowed(Run(CurrentStyle(), t, WriteStr(data), 0), cursor, WriteStr(data))
                && Cells()[Edge()..] == old(Cells())[Edge()..]
      ensures old(PictureKept()) ==> PictureKept()
      ensures old(Tidy()) ==> Tidy()
    {
      hide Rows, Row, Run, BellCount, Differ, Shows, NoJoiner, Sequence.PlainText, ValidTerm, TabsEnd;
      var pos;
      rv, pos := ModifySequenceAt(WriteStr(data), cursor, true, t);
      cursor := pos;
    }

    // The same from a position of the caller's; the cursor stays.
    method WriteStringAt(data: seq<Wchar>, pos0: Coord, ghost t: Term) returns (rv: nat, pos: Coord)
      requires Valid() && TabsEnd(CurrentStyle(), WriteStr(data), 0, pos0.X, JoinFree(WriteStr(data)))
      modifies this`prevPos, this`tempChars, this`callbackLines, this`deferredRepaints, this`lossless, this`shown,
               buf`chars
      ensures Valid()
      ensures rv == |data| - BellCount(CurrentStyle(), WriteStr(data), |data|)
      ensures old(Windowed(t, pos0, WriteStr(data))) ==>
                && Windowed(Run(CurrentStyle(), t, WriteStr(data), 0), pos, WriteStr(data))
                && Cells()[Edge()..] == old(Cells())[Edge()..]
      ensures old(PictureKept()) ==> PictureKept()
      ensures old(Tidy()) ==> Tidy()
    {
      hide Rows, Row, Run, BellCount, Differ, Shows, NoJoiner, Sequence.PlainText, ValidTerm, TabsEnd;
      rv, pos := ModifySequenceAt(WriteStr(data), pos0, false, t);
    }

    method FillCharacterAt(chr: Wchar, count: nat, pos0: Coord, ghost t: Term) returns (rv: nat, pos: Coord)
      requires Valid()
      modifies this`prevPos, this`tempChars, this`callbackLines, this`deferredRepaints, this`lossless, this`shown,
               buf`chars
      ensures Valid() && rv == count
      ensures TabsEnd(CurrentStyle(), FillChar(chr, count), 0, pos0.X, true)
      ensures old(Windowed(t, pos0, FillChar(chr, count))) ==>
                Windowed(Run(CurrentStyle(), t, FillChar(chr, count), 0), pos, FillChar(chr, count))
      ensures old(PictureKept()) ==> PictureKept()
      ensures old(Tidy()) ==> Tidy()
    {
      NoBells(CurrentStyle(), FillChar(chr, count), count);
      TabsAlwaysEnd(CurrentStyle(), FillChar(chr, count), 0, pos0.X, true);
      TabsAlwaysEnd(CurrentStyle(), FillChar(chr, count), 0, pos0.X, false);
      rv, pos := ModifySequenceAt(FillChar(chr, count), pos0, false, t);
    }

    method FillAttributeAt(attr: nat, count: nat, pos0: Coord, ghost t: Term) returns (rv: nat, pos: Coord)
      requires Valid()
      modifies this`prevPos, this`tempChars, this`callbackLines, this`deferredRepaints, this`lossless, this`shown,
               buf`chars
      ensures Valid() && rv == count
      ensures TabsEnd(CurrentStyle(), FillAttr(attr, count), 0, pos0.X, true)
      ensures old(Windowed(t, pos0, FillAttr(attr, count))) ==>
                Windowed(Run(CurrentStyle(), t, FillAttr(attr, count), 0), pos, FillAttr(attr, count))
      ensures old(PictureKept()) ==> PictureKept()
      ensures old(Tidy()) ==> Tidy()
    {
      NoBells(CurrentStyle(), FillAttr(attr, count), count);
      TabsAlwaysEnd(CurrentStyle(), FillAttr(attr, count), 0, pos0.X, true);
      TabsAlwaysEnd(CurrentStyle(), FillAttr(attr, count), 0, pos0.X, false);
      rv, pos := ModifySequenceAt(FillAttr(attr, count), pos0, false, t);
    }

    lemma {:induction false} NoBells(st: Style, sm: Sequence, n: nat)
      requires !sm.WriteStr? && n <= sm.Length()
      ensures BellCount(st, sm, n) == 0
      decreases n
    {
      if n > 0 {
        NoBells(st, sm, n - 1);
      }
    }

    // ---------------------------------------------------------------- scrolling a rectangle

    // Cuts a rectangle to a clip and shifts the data offset of its corner along.
    static method ClipRect(rect0: Rect, clip: Rect, offset0: Coord) returns (rect: Rect, offset: Coord)
      ensures rect == Rect(Max(rect0.Left, clip.Left), Max(rect0.Top, clip.Top),
                           Min(rect0.Right, clip.Right), Min(rect0.Bottom, clip.Bottom))
      ensures offset.X == if rect0.Left < clip.Left then ToShort(offset0.X + (clip.Left - rect0.Left)) else offset0.X
      ensures offset.Y == if rect0.Top < clip.Top then ToShort(offset0.Y + (clip.Top - rect0.Top)) else offset0.Y
    {
      rect, offset := rect0, offset0;
      if rect.Left < clip.Left {
        offset := offset.(X := ToShort(offset.X + (clip.Left - rect.Left)));
        rect := rect.(Left := clip.Left);
      }
      if rect.Top < clip.Top {
        offset := offset.(Y := ToShort(offset.Y + (clip.Top - rect.Top)));
        rect := rect.(Top := clip.Top);
      }
      if rect.Right > clip.Right {
        rect := rect.(Right := clip.Right);
      }
      if rect.Bottom > clip.Bottom {
        rect := rect.(Bottom := clip.Bottom);
      }
    }

    // The fill loops of Scroll.
    method FillRect(r: Rect, fill: CharInfo)
      requires Valid() && r.Right < buf.width && r.Bottom < buf.height
      modifies buf`chars
      ensures Valid() && Cells() == Filled(old(Cells()), r, fill, Max(r.Top, r.Bottom + 1), r.Left)
    {
      hide Rows, Row, Filled;
      ghost var before := Cells();
      FilledStart(before, r, fill);
      var y := r.Top;
      while y <= r.Bottom
        invariant Valid() && r.Top <= y <= Max(r.Top, r.Bottom + 1)
        invariant Cells() == Filled(before, r, fill, y, r.Left)
      {
        var x := r.Left;
        if r.Right < x {
          FilledEmptyRow(before, r, fill, y);
        }
        while x <= r.Right
          invariant Valid() && r.Left <= x <= Max(r.Left, r.Right + 1)
          invariant Cells() == Filled(before, r, fill, y, x)
        {
          FilledCell(before, r, fill, y, x);
          var res := buf.WriteCell(fill, Coord(x, y));
          x := x + 1;
        }
        if r.Left <= r.Right {
          FilledRow(before, r, fill, y);
        }
        y := y + 1;
      }
    }

    lemma FilledEmptyRow(cells: Grid<CharInfo>, r: Rect, fill: CharInfo, y: int)
      requires r.Right < r.Left
      ensures Filled(cells, r, fill, y + 1, r.Left) == Filled(cells, r, fill, y, r.Left)
    {
      var g, n := Filled(cells, r, fill, y, r.Left), Filled(cells, r, fill, y + 1, r.Left);
      forall j | 0 <= j < |cells|
        ensures g[j] == n[j]
      {
      }
    }

    lemma ScrollIsMove(before: Grid<CharInfo>, filled: Grid<CharInfo>, after: Grid<CharInfo>, block: Grid<CharInfo>,
                       room: Grid<CharInfo>, src: Rect, clip: Option<Rect>, origin: Coord, fill: Option<CharInfo>,
                       size: Coord, pos: Coord, dst: Rect, vacated: Rect, w: nat, h: nat)
      requires 0 < w <= MAX_SIDE && 0 < h <= MAX_SIDE && IsGrid(before, w, h) && IsGrid(filled, w, h)
               && IsGrid(after, w, h)
      requires IsMeasurable(src) && IsGrid(room, SizeOf(src).X, SizeOf(src).Y)
      requires IsBlockOf(block, before, room, src, w, h)
      requires IsDestination(src, clip, origin, size, pos, dst) && vacated == Vacated(src, clip, w, h)
      requires filled == if fill.None? then before
                         else Filled(before, vacated, fill.value, Max(vacated.Top, vacated.Bottom + 1), vacated.Left)
      requires after == Written(filled, w, h, block, size, pos, dst)
      ensures IsMoved(before, after, room, src, clip, origin, fill, w, h)
      ensures CanCopy(w, h, size, pos, dst) <==> HasTarget(src, clip, origin, w, h)
    {
      DestinationCopiesTargets(src, clip, origin, size, pos, dst, w, h);
      hide Written, CanCopy, HasTarget, Filled, Vacated, Clipped, MovedAt;
      forall x, y | 0 <= x < w && 0 <= y < h
        ensures MovedAt(before, after, room, src, clip, origin, fill, w, h, x, y)
      {
        VacatedFilled(before, fill, vacated, w, h, x, y);
        CellMoved(before, filled, block, room, src, clip, origin, fill, size, pos, dst, w, h, x, y);
      }
    }

    // Reads the source rectangle into the temporary block.
    method ReadSource(src: Rect, size: Coord) returns (r: Rect)
      requires Valid() && IsMeasurable(src) && size == SizeOf(src)
      modifies this`tempChars
      ensures r == Rect(src.Left, src.Top, Min(src.Right, buf.width - 1), Min(src.Bottom, buf.height - 1))
      ensures HoldsBlock(tempChars, size)
      ensures IsBlockOf(Block(tempChars, size), Cells(), RoomFor(old(tempChars), src), src, buf.width, buf.height)
    {
      hide Rows, Row, Blit, IsBlockOf, CanCopy, Clipped, CopyRect;
      StartIsProduct(size.X, size.Y);
      ResizeTempChars(size.Y * size.X);
      ReadRect(src, buf.width, buf.height);
      ghost var room := RoomFor(old(tempChars), src);
      if 0 <= src.Left < buf.width && 0 <= src.Top < buf.height {
        ReadIsBlock(room, Cells(), src, buf.width, buf.height);
      } else {
        UnreadIsBlock(room, Cells(), src, buf.width, buf.height);
      }
      tempChars, r := buf.Read(tempChars, size, Coord(0, 0), src);
    }

    // Destination and source after clipping, with the offset into the block.
    static method ClipTarget(src: Rect, read: Rect, clip: Option<Rect>, origin: Coord, size: Coord, ghost w: nat,
                             ghost h: nat)
      returns (dst: Rect, vacated: Rect, pos: Coord)
      requires 0 < w <= MAX_SIDE && 0 < h <= MAX_SIDE && IsMeasurable(src) && size == SizeOf(src)
      requires read == Rect(src.Left, src.Top, Min(src.Right, w - 1), Min(src.Bottom, h - 1))
      ensures IsDestination(src, clip, origin, size, pos, dst) && vacated == Vacated(src, clip, w, h)
    {
      pos, vacated := Coord(0, 0), read;
      dst := Rect(origin.X, origin.Y, ToShort(origin.X + size.X - 1), ToShort(origin.Y + size.Y - 1));
      if clip.Some? {
        var none;
        vacated, none := ClipRect(vacated, clip.value, Coord(0, 0));
        dst, pos := ClipRect(dst, clip.value, pos);
      }
    }

    /**
     * Moves the source rectangle to the origin, within the clip, and fills what
     * is left of it.  Source and destination may overlap in any way.
     */
    method Scroll(scrollRect: Rect, clip: Option<Rect>, origin: Coord, fill: Option<CharInfo>) returns (ok: bool)
      requires Valid() && (NonEmpty(scrollRect) ==> IsMeasurable(scrollRect))
      modifies this`tempChars, this`deferredRepaints, this`lossless, this`shown, buf`chars
      ensures Valid() && (ok <==> NonEmpty(scrollRect))
      ensures if ok
              then IsMoved(old(Cells()), Cells(), RoomFor(old(tempChars), scrollRect), scrollRect, clip, origin, fill,
                           buf.width, buf.height)
              else Cells() == old(Cells())
      ensures old(PictureKept()) ==> PictureKept()
      ensures old(Tidy())
              && (repaintDefer == 0 || !ok || ScrollIsHarmless(scrollRect, clip, origin, fill, buf.width, buf.height))
              ==> Tidy()
    {
      hide Rows, Row, Filled, Written, Covers, Differ, IsMoved, IsBlockOf, HasTarget, IsDestination, RoomFor;
      if scrollRect.Right < scrollRect.Left || scrollRect.Bottom < scrollRect.Top {
        return false;
      }
      ghost var before, w, h, room := Cells(), buf.width, buf.height, RoomFor(tempChars, scrollRect);
      var size := Coord(ToShort(scrollRect.Right + 1 - scrollRect.Left),
                        ToShort(scrollRect.Bottom + 1 - scrollRect.Top));
      var src := ReadSource(scrollRect, size);
      var dst, vacated, pos := ClipTarget(scrollRect, src, clip, origin, size, w, h);
      if fill.Some? {
        FillRect(vacated, fill.value);
      }
      ghost var filled, block := Cells(), Block(tempChars, size);
      var r := buf.Write(tempChars, size, pos, dst);
      WrittenNothing(filled, w, h, block, size, pos, dst);
      ScrollIsMove(before, filled, Cells(), block, room, scrollRect, clip, origin, fill, size, pos, dst, vacated, w, h);
      ScrollRepaints(before, filled, block, size, pos, dst, vacated, fill, w, h);
      Repaint(if fill.Some? then [r, vacated] else [r], before);
      return true;
    }

    // ---------------------------------------------------------------- region, fork and join

    // A value cut to 0..limit-1, as ApplyCoordinateLimits does it: with limit 0 a
    // positive value ends up as -1.
    static function Limited(v: Short, limit: nat): Short
      requires limit <= MAX_SIDE
    {
      if v <= 0 then 0 else if v >= limit then ToShort(limit - 1) else v
    }

    /** Sets the scroll region.  It is a proper one, inside the screen and not
        upside down, unless the caller asks for a bottom at or above the first
        line with a top below it. */
    method SetScrollRegion(top0: Short, bottom0: Short)
      requires Valid()
      modifies this`scrollTop, this`scrollBottom
      ensures Valid()
      ensures scrollBottom == Max(0, Min(bottom0, buf.height - 1))
      ensures scrollTop <= scrollBottom < buf.height <==> !(bottom0 <= 0 && top0 > 0)
      ensures scrollTop <= scrollBottom ==> scrollTop == Max(0, Min(top0, scrollBottom - 1))
      ensures scrollTop > scrollBottom ==> scrollTop == 0xFFFF && scrollBottom == 0
    {
      var w, h := buf.GetSize();
      LimitedRegion(top0, bottom0, h);
      hide Limited;
      var bottom := Limited(bottom0, h);
      var top := Limited(top0, bottom);
      scrollTop := (top as int) % 0x1_0000;
      scrollBottom := (bottom as int) % 0x1_0000;
    }

    static lemma LimitedRegion(top0: Short, bottom0: Short, h: nat)
      requires 12 <= h <= MAX_SIDE
      ensures var bottom := Limited(bottom0, h);
              && 0 <= bottom == Max(0, Min(bottom0, h - 1)) <= MAX_SIDE
              && if bottom == 0 && top0 > 0 then Limited(top0, bottom) == -1
                 else 0 <= Limited(top0, bottom) == Max(0, Min(top0, bottom - 1)) <= bottom
    {
    }

    method CopyMode(co: ConsoleOutput)
      modifies this`processed, this`wrap, this`insert, this`quickEdit, this`extended, this`otherModes
      ensures CurrentMode() == co.CurrentMode()
    {
      processed, wrap, insert := co.processed, co.wrap, co.insert;
      quickEdit, extended, otherModes := co.quickEdit, co.extended, co.otherModes;
    }

    method CopyState(co: ConsoleOutput)
      modifies this`attributes, this`cursor, this`prevPos, this`hasScrollCallback, this`scrollTop, this`scrollBottom
      ensures attributes == co.attributes && cursor == co.cursor && prevPos == co.prevPos
      ensures hasScrollCallback == co.hasScrollCallback
      ensures scrollTop == co.scrollTop && scrollBottom == co.scrollBottom
    {
      attributes, cursor, prevPos := co.attributes, co.cursor, co.prevPos;
      hasScrollCallback := co.hasScrollCallback;
      scrollTop, scrollBottom := co.scrollTop, co.scrollBottom;
    }

    method CopyFrom(co: ConsoleOutput)
      requires Valid() && co.Valid() && co != this && co.buf != buf
      modifies this`attributes, this`processed, this`wrap, this`insert, this`quickEdit, this`extended,
               this`otherModes, this`cursor, this`prevPos, this`hasScrollCallback, this`scrollTop, this`scrollBottom,
               buf
      ensures buf.Valid() && buf.Cells() == co.buf.Cells() && buf.width == co.buf.width && buf.height == co.buf.height
      ensures attributes == co.attributes && CurrentMode() == co.CurrentMode()
      ensures cursor == co.cursor && prevPos == co.prevPos && hasScrollCallback == co.hasScrollCallback
      ensures scrollTop == co.scrollTop && scrollBottom == co.scrollBottom
    {
      hide Rows, Row;
      CopyMode(co);
      CopyState(co);
      buf.Assign(co.buf);
    }

    /** A second console with the same contents, settings and cursor. */
    method Fork() returns (co: ConsoleOutput)
      requires Valid()
      ensures fresh(co) && fresh(co.buf) && co.Valid() && co.classes == classes
      ensures co.Cells() == Cells() && co.buf.width == buf.width && co.buf.height == buf.height
      ensures co.CurrentStyle() == CurrentStyle() && co.CurrentMode() == CurrentMode()
      ensures co.cursor == cursor && co.prevPos == prevPos
      ensures co.scrollTop == scrollTop && co.scrollBottom == scrollBottom && co.hasScrollCallback == hasScrollCallback
    {
      co := new ConsoleOutput(classes);
      co.CopyFrom(this);
      co.shown := co.buf.Cells();
    }

    /**
     * Takes over a forked console, keeping this one's size: the common part of
     * the contents is kept, and the backend redraws the whole screen whatever
     * is deferred.
     */
    method Join(co: ConsoleOutput)
      requires Valid() && co.Valid() && co != this && co.buf != buf && classes == co.classes
      modifies this, buf
      ensures Valid() && buf.width == old(buf.width) && buf.height == old(buf.height)
      ensures forall x, y :: 0 <= x < buf.width && 0 <= y < buf.height ==>
                Cells()[y][x] == if x < co.buf.width && y < co.buf.height then co.Cells()[y][x]
                                 else CharInfo([32], co.attributes)
      ensures shown == Cells() && lossless
      ensures (old(PictureKept()) ==> PictureKept()) && (old(Tidy()) ==> Tidy())
    {
      var w, h := buf.GetSize();
      CopyFrom(co);
      buf.SetSize(w, h, attributes);
      var area := Rect(0, 0, w - 1, h - 1);
      AllPending(shown, Cells(), area, w, h);
      RedrawnIsCurrent(shown, Cells(), [area], w, h);
      NotifyBackend([area]);
      lossless := true;
      DifferSame(Cells(), deferredRepaints);
    }

    lemma AllPending(a: Grid<CharInfo>, b: Grid<CharInfo>, area: Rect, w: nat, h: nat)
      requires IsGrid(a, w, h) && IsGrid(b, w, h) && area.Left == 0 && area.Top == 0 && area.Right == w - 1
               && area.Bottom == h - 1
      ensures Differ(a, b, [area])
    {
      CoversIsDiffer(a, b, area, [area]);
    }

    // ---------------------------------------------------------------- sessions

    method Perform(op: Op, w: nat, h: nat)
      requires Valid() && w == buf.width && h == buf.height
               && Admissible(op, w, h, repaintDefer, CurrentStyle(), cursor)
      modifies this, buf
      ensures Valid() && (old(PictureKept()) ==> PictureKept())
      ensures old(Tidy()) && IsTidy(op, w, h, old(repaintDefer)) ==> Tidy()
    {
      hide Rows, Row, Windowed, IsMoved, Written, Run, KeptFor, Tidy;
      ghost var t := Term([], 0, 0);
      match op {
        case OpWriteString(s) =>
          if JoinFree(WriteStr(s)) {
            TabsEndJoinFree(CurrentStyle(), WriteStr(s), 0, cursor.X);
          }
          var rv := WriteString(s, t);
        case OpWriteStringAt(s, at) =>
          if JoinFree(WriteStr(s)) {
            TabsEndJoinFree(CurrentStyle(), WriteStr(s), 0, at.X);
          }
          var rv, pos := WriteStringAt(s, at, t);
        case OpFillCharacter(c, n, at) =>
          var rv, pos := FillCharacterAt(c, n, at, t);
        case OpFillAttribute(a, n, at) =>
          var rv, pos := FillAttributeAt(a, n, at, t);
        case OpWriteCell(ch, at) =>
          var ok := WriteCell(ch, at);
        case OpWriteBlock(data, size, from, rect) =>
          var r := WriteBlock(data, size, from, rect);
        case OpScroll(rect, clip, origin, fill) =>
          var ok := Scroll(rect, clip, origin, fill);
        case OpSetSize(nw, nh) =>
          SetSize(nw, nh);
        case OpSetCursor(at) =>
          SetCursor(at);
        case OpSetScrollRegion(top, bottom) =>
          SetScrollRegion(top, bottom);
        case OpSetScrollCallback(installed) =>
          SetScrollCallback(installed);
        case OpSetAttributes(a) =>
          SetAttributes(a);
        case OpSetMode(mode) =>
          SetMode(mode);
        case OpDeferStart =>
          RepaintsDeferStart();
        case OpDeferFinish(force) =>
          RepaintsDeferFinish(force);
      }
    }

    /**
     * Over any run of calls, forks and joins no repaint is lost, unless a merge
     * of deferred areas loses it: whenever nothing is deferred, the backend's
     * picture is the screen.  No merge does if every rectangle reported while
     * repaints are deferred is harmless.
     */
    method Session(events: seq<Event>) returns (tidy: bool)
      requires Valid() && PictureKept()
      modifies this, buf
      ensures Valid() && PictureKept() && (old(Tidy()) && tidy ==> Tidy())
      ensures repaintDefer == 0 && lossless ==> shown == Cells()
    {
      hide Rows, Row, KeptFor, Differ, Tidy;
      var fork: ConsoleOutput? := null;
      tidy := true;
      var i := 0;
      while i < |events|
        invariant Valid() && PictureKept() && (old(Tidy()) && tidy ==> Tidy())
        invariant fork != null ==> fresh(fork) && fresh(fork.buf) && fork.Valid() && fork.classes == classes
      {
        match events[i] {
          case Own(op) =>
            var opTidy := PerformIfAdmissible(op);
            tidy := tidy && opTidy;
          case MakeFork =>
            fork := Fork();
          case OnFork(op) =>
            if fork != null {
              var opTidy := fork.PerformIfAdmissible(op);
            }
          case JoinFork =>
            if fork != null { Join(fork); }
            fork := null;
        }
        i := i + 1;
      }
      if repaintDefer == 0 && lossless {
        NothingLags();
      }
    }

    method PerformIfAdmissible(op: Op) returns (tidy: bool)
      requires Valid()
      modifies this, buf
      ensures Valid() && (old(PictureKept()) ==> PictureKept()) && (old(Tidy()) && tidy ==> Tidy())
      ensures tidy == IsTidy(op, old(buf.width), old(buf.height), old(repaintDefer))
    {
      hide Rows, Row, KeptFor, Tidy;
      var w, h := buf.GetSize();
      tidy := IsTidy(op, w, h, repaintDefer);
      if Admissible(op, w, h, repaintDefer, CurrentStyle(), cursor) {
        Perform(op, w, h);
      }
    }

    /**
     * A merge that loses cells loses a repaint: a cell is written while repaints
     * are deferred, then a block at a rectangle that begins right of it and ends
     * left of it.  The second entry takes the first one off the list.
     */
    static method LostRepaint(charClasses: CharClasses) returns (co: ConsoleOutput)
      requires !charClasses.isPrefix(TAB) && !charClasses.isSuffix(TAB) && !charClasses.isFullWidthText([65])
      ensures fresh(co) && co.Valid() && co.PictureKept() && co.repaintDefer == 0 && !co.lossless
      ensures co.Cells()[0][5] == CharInfo([65], 7) && co.shown[0][5] == CharInfo([SPACE], 7)
    {
      hide Rows, Row;
      co := new ConsoleOutput(charClasses);
      co.RepaintsDeferStart();
      var ok := co.WriteCell(CharInfo([65], 7), Coord(5, 0));
      assert co.deferredRepaints == [Rect(5, 0, 5, 0)];
      var r := co.WriteBlock([CharInfo([66], 7)], Coord(1, 1), Coord(0, 0), Rect(6, 0, 4, 0));
      assert co.deferredRepaints == [Rect(5, 0, 4, 0)];
      co.RepaintsDeferFinish(false);
    }

    lemma NothingLags()
      requires Valid() && PictureKept() && repaintDefer == 0 && lossless
      ensures shown == Cells()
    {
      DifferNowhere(shown, Cells(), buf.width, buf.height);
    }

    /**
     * Over any run of strings the screen stays a window on one unbounded
     * terminal fed their concatenation.
     */
    method WriteStrings(parts: seq<seq<Wchar>>, ghost t0: Term) returns (ghost t: Term)
      requires Valid() && Windowed(t0, cursor, WriteStr(Concat(parts)))
      requires TabsEnd(CurrentStyle(), WriteStr(Concat(parts)), 0, cursor.X, true)
      modifies this`cursor, this`prevPos, this`tempChars, this`callbackLines, this`deferredRepaints, this`lossless,
               this`shown, buf`chars
      ensures Valid() && CurrentStyle() == old(CurrentStyle()) && Edge() == old(Edge())
      ensures t == Run(CurrentStyle(), t0, WriteStr(Concat(parts)), 0)
      ensures callbackLines + Cells()[..Edge()] == t.lines
      ensures cursor.X == t.x && |callbackLines| + cursor.Y == t.y
    {
      hide Rows, Row, Run, NoJoiner, Sequence.PlainText, Concat, TabsEnd;
      ghost var st := CurrentStyle();
      t := t0;
      ConcatNothing(st, t0, parts);
      var i := 0;
      while i < |parts|
        invariant 0 <= i <= |parts| && Valid() && Windowed(t, cursor, WriteStr(Concat(parts)))
        invariant TabsEnd(st, WriteStr(Concat(parts[..i])), 0, t0.x, true)
                  && t == Run(st, t0, WriteStr(Concat(parts[..i])), 0)
      {
        PlainPart(parts, i, classes);
        FirstPartsEnd(st, parts, i + 1, t0.x);
        ConcatStep(parts, i);
        RunSplits(st, t0, Concat(parts[..i]), parts[i], 0);
        var rv := WriteString(parts[i], t);
        t := Run(st, t, WriteStr(parts[i]), 0);
        i := i + 1;
      }
      assert parts[..|parts|] == parts;
    }

    // A console that has handed nothing away yet, with a callback and the whole
    // screen for a region, is a window on the terminal of its own rows.
    lemma StartsWindowed(sm: Sequence)
      requires Valid() && hasScrollCallback && scrollTop == 0 && scrollBottom == MAXSHORT && callbackLines == []
      requires 0 <= cursor.X <= buf.width + 1 && 0 <= cursor.Y < buf.height && JoinFree(sm)
      ensures Windowed(Term(Cells(), cursor.X, cursor.Y), cursor, sm)
    {
      hide Rows, Row, NoJoiner, Sequence.PlainText;
      assert Cells()[..buf.height] == Cells();
    }

    /**
     * A new console with a scroll callback, given any run of strings of plain
     * text, is a window on the unbounded terminal that starts as 25 blank lines
     * of 80 columns and is fed their concatenation.
     */
    static method WriteFromStart(charClasses: CharClasses, parts: seq<seq<Wchar>>)
      returns (co: ConsoleOutput, ghost t: Term)
      requires !charClasses.isPrefix(TAB) && !charClasses.isSuffix(TAB)
      requires WriteStr(Concat(parts)).PlainText(charClasses)
      ensures fresh(co) && co.Valid() && co.buf.height == 25
      ensures ValidTerm(FirstStyle(charClasses), BlankTerm())
              && TabsEnd(FirstStyle(charClasses), WriteStr(Concat(parts)), 0, 0, true)
      ensures t == Run(FirstStyle(charClasses), BlankTerm(), WriteStr(Concat(parts)), 0)
      ensures co.callbackLines + co.Cells() == t.lines
      ensures co.cursor.X == t.x && |co.callbackLines| + co.cursor.Y == t.y
    {
      hide Rows, Row, Run, Concat, TabsEnd, Sequence.PlainText;
      ghost var st := FirstStyle(charClasses);
      co := new ConsoleOutput(charClasses);
      co.SetScrollCallback(true);
      BlankCells(co.Cells());
      TabsAlwaysEnd(st, WriteStr(Concat(parts)), 0, 0, true);
      co.StartsWindowed(WriteStr(Concat(parts)));
      t := co.WriteStrings(parts, BlankTerm());
      assert co.Cells()[..25] == co.Cells();
    }

    lemma ConcatNothing(st: Style, t: Term, parts: seq<seq<Wchar>>)
      requires ValidTerm(st, t) && 8 <= st.width
      ensures TabsEnd(st, WriteStr(Concat(parts[..0])), 0, t.x, true)
      ensures Run(st, t, WriteStr(Concat(parts[..0])), 0) == t
    {
    }
  }
}
