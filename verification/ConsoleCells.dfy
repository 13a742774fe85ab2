/**
 * What the console's operations come to for one cell, said in coordinates and
 * character codes.
 */
module ConsoleCells {
  import opened Basics
  import opened ConsoleTypes
  import opened Matrix
  import opened ConsoleBuffers
  import opened Terminal
  import opened Repaints
  import opened ConsoleOutputs

  // ---------------------------------------------------------------- blocks of cells

  // A block is given row by row.
  lemma BlockIsRowMajor(data: seq<CharInfo>, size: Coord, x: nat, y: nat)
    requires HoldsBlock(data, size) && x < size.X && y < size.Y
    ensures 0 <= y * size.X + x < |data| && Block(data, size)[y][x] == data[y * size.X + x]
  {
    StartIsProduct(size.X, y);
    CellAt(data[..Start(size.X, size.Y)], size.X, size.Y, x, y);
    hide Rows;
  }

  // The cell of a block that a write puts on the screen, if it reaches there: pos is
  // what goes to the corner of the rectangle.
  lemma BlockCell(cells: Grid<CharInfo>, w: nat, h: nat, block: Grid<CharInfo>, size: Coord, pos: Coord, r: Rect,
                  x: nat, y: nat)
    requires 0 < w <= MAX_SIDE && 0 < h <= MAX_SIDE && IsGrid(cells, w, h) && x < w && y < h
    requires size.X >= 0 && size.Y >= 0 && IsGrid(block, size.X, size.Y)
    ensures var i, j := pos.X + x - r.Left, pos.Y + y - r.Top;
            Written(cells, w, h, block, size, pos, r)[y][x] ==
            if && 0 <= pos.X <= i < size.X && 0 <= pos.Y <= j < size.Y && 0 <= r.Left && 0 <= r.Top
               && x <= r.Right && y <= r.Bottom
            then block[j][i] else cells[y][x]
  {
  }

  // ---------------------------------------------------------------- scrolling

  // Every row of the region but the last takes the one below it; the last is blank.
  lemma ScrolledRow(rows: Grid<CharInfo>, top: nat, edge: nat, w: nat, attributes: nat, j: nat)
    requires top < edge <= |rows| && j < |rows|
    ensures Scrolled(rows, top, edge, w, attributes)[j] ==
            if top <= j < edge - 1 then rows[j + 1]
            else if j == edge - 1 then seq(w, _ => CharInfo([32], attributes))
            else rows[j]
  {
  }

  predicate InClip(clip: Option<Rect>, x: int, y: int) {
    clip.Some? ==> clip.value.Left <= x <= clip.value.Right && clip.value.Top <= y <= clip.value.Bottom
  }

  // Where a Scroll's destination starts, after clipping, and where it ends, before.
  predicate IsPlaced(src: Rect, clip: Option<Rect>, origin: Coord) {
    && (0 <= origin.X || (clip.Some? && 0 <= clip.value.Left)) && (0 <= origin.Y || (clip.Some? && 0 <= clip.value.Top))
    && origin.X + (src.Right - src.Left) <= 0x7FFF && origin.Y + (src.Bottom - src.Top) <= 0x7FFF
  }

  // A scrolled cell inside the clip shows what stood at the same distance from the
  // source's corner as it does from the origin, or what was left in the temporary block
  // if that is off the screen, or the source starts there; if no source cell comes there, a cell
  // of the source inside the clip shows the fill, and any other what it showed.
  lemma ScrolledCell(before: Grid<CharInfo>, after: Grid<CharInfo>, room: Grid<CharInfo>, src: Rect,
                     clip: Option<Rect>, origin: Coord, fill: Option<CharInfo>, w: nat, h: nat, x: nat, y: nat)
    requires 0 < w <= MAX_SIDE && 0 < h <= MAX_SIDE && IsGrid(before, w, h) && IsGrid(after, w, h)
    requires IsMeasurable(src) && IsGrid(room, SizeOf(src).X, SizeOf(src).Y)
    requires IsMoved(before, after, room, src, clip, origin, fill, w, h) && x < w && y < h
    ensures var fromX, fromY := src.Left + (x - origin.X), src.Top + (y - origin.Y);
            if IsPlaced(src, clip, origin) && InClip(clip, x, y) && src.Left <= fromX <= src.Right
               && src.Top <= fromY <= src.Bottom
            then after[y][x] == if 0 <= src.Left && 0 <= src.Top && fromX < w && fromY < h then before[fromY][fromX]
                                else room[y - origin.Y][x - origin.X]
            else if fill.Some? && InClip(clip, x, y) && src.Left <= x <= src.Right && src.Top <= y <= src.Bottom
            then after[y][x] == fill.value
            else after[y][x] == before[y][x]
  {
    assert MovedAt(before, after, room, src, clip, origin, fill, w, h, x, y);
    ReachedCell(src, clip, origin, w, h, x, y);
    VacatedCell(src, clip, w, h, x, y);
    hide IsTarget, Vacated, IsMoved, IsPlaced, InClip;
  }

  lemma ReachedCell(src: Rect, clip: Option<Rect>, origin: Coord, w: nat, h: nat, x: nat, y: nat)
    requires 0 < w <= MAX_SIDE && 0 < h <= MAX_SIDE && IsMeasurable(src) && x < w && y < h
    ensures IsTarget(src, clip, origin, w, h, x, y) <==>
              && IsPlaced(src, clip, origin) && InClip(clip, x, y)
              && src.Left <= src.Left + (x - origin.X) <= src.Right && src.Top <= src.Top + (y - origin.Y) <= src.Bottom
  {
  }

  lemma VacatedCell(src: Rect, clip: Option<Rect>, w: nat, h: nat, x: nat, y: nat)
    requires 0 < w <= MAX_SIDE && 0 < h <= MAX_SIDE && x < w && y < h
    ensures Within(Vacated(src, clip, w, h), x, y) <==>
              InClip(clip, x, y) && src.Left <= x <= src.Right && src.Top <= y <= src.Bottom
  {
  }

  // ---------------------------------------------------------------- what is reported for a cell

  // The area of a cell is the cell itself, with the one to its left if it is a blank
  // half, or else the one to its right if its text is full-width.
  lemma AreaOfCell(cells: Grid<CharInfo>, classes: CharClasses, pos: Coord, w: nat, h: nat, x: int, y: int)
    requires IsGrid(cells, w, h) && w <= MAX_SIDE
    ensures Within(AreaOf(cells, classes, pos, w, h), pos.X, pos.Y)
    ensures x != pos.X || y != pos.Y ==>
              (Within(AreaOf(cells, classes, pos, w, h), x, y) <==>
                && y == pos.Y && 0 <= pos.X < w && 0 <= y < h
                && (if cells[y][pos.X].text == [0] && pos.X > 0 then x == pos.X - 1
                    else classes.isFullWidthText(cells[y][pos.X].text) && x == pos.X + 1))
  {
  }

  // ---------------------------------------------------------------- characters that join others

  // The screen after a character, and how far the cursor moves.
  ghost function ScreenAfter(st: Style, c: Wchar, cells: Grid<CharInfo>, prev: Coord, pos: Coord,
                             h: nat): Grid<CharInfo>
    requires IsGrid(cells, st.width, h)
  {
    Entering(cells, EnteredAs(st, c, cells, prev, pos, h), st.width, h)
  }

  ghost function ColumnsOf(st: Style, c: Wchar, cells: Grid<CharInfo>, prev: Coord, pos: Coord, h: nat): int
    requires IsGrid(cells, st.width, h)
  {
    var e := EnteredAs(st, c, cells, prev, pos, h);
    if e.Put? then e.columns else 0
  }

  // A prefix stands in the cursor's cell until something is written over it.
  lemma PrefixStays(st: Style, c: Wchar, cells: Grid<CharInfo>, prev: Coord, pos: Coord, h: nat)
    requires IsGrid(cells, st.width, h) && st.classes.isPrefix(c)
    ensures ColumnsOf(st, c, cells, prev, pos, h) == 0
    ensures ScreenAfter(st, c, cells, prev, pos, h) ==
            if 0 <= pos.X < st.width && 0 <= pos.Y < h
            then cells[pos.Y := cells[pos.Y][pos.X := CharInfo([c], st.attributes)]] else cells
  {
    SameCell(cells, pos, st.width, h);
  }

  // A suffix is added to the text of the cell written last, which takes the attributes
  // in force; a variation selector 16 also blanks the cell behind it.
  lemma SuffixJoins(st: Style, c: Wchar, cells: Grid<CharInfo>, prev: Coord, pos: Coord, h: nat)
    requires IsGrid(cells, st.width, h) && !st.classes.isPrefix(c) && st.classes.isSuffix(c)
    ensures var g, on := ScreenAfter(st, c, cells, prev, pos, h), 0 <= prev.X < st.width && 0 <= prev.Y < h;
            && ColumnsOf(st, c, cells, prev, pos, h) == (if on && c == 0xFE0F then 1 else 0)
            && (!on ==> g == cells)
            && (on ==> var ch := CharInfo(cells[prev.Y][prev.X].text + [c], st.attributes);
                       var row := cells[prev.Y][prev.X := ch];
                       g == cells[prev.Y := if c == 0xFE0F && prev.X + 1 < st.width
                                            then row[prev.X + 1 := CharInfo([0], st.attributes)] else row])
  {
  }

  // After a joiner the next character goes into the joiner's cell as well.
  lemma JoinerJoins(st: Style, c: Wchar, cells: Grid<CharInfo>, prev: Coord, pos: Coord, h: nat)
    requires IsGrid(cells, st.width, h) && !st.classes.isPrefix(c) && !st.classes.isSuffix(c)
    requires 0 <= prev.X < st.width && 0 <= prev.Y < h && (c == 9 ==> !st.processed)
    requires var text := cells[prev.Y][prev.X].text; text != [] && text[|text| - 1] == 0x200D
    ensures ColumnsOf(st, c, cells, prev, pos, h) == 0
    ensures var old_ := cells[prev.Y][prev.X];
            ScreenAfter(st, c, cells, prev, pos, h)
            == cells[prev.Y := cells[prev.Y][prev.X := CharInfo(old_.text + [c], old_.attr)]]
  {
  }

  lemma SameCell(cells: Grid<CharInfo>, pos: Coord, w: nat, h: nat)
    requires IsGrid(cells, w, h)
    ensures 0 <= pos.X < w && 0 <= pos.Y < h ==> cells[pos.Y := cells[pos.Y]] == cells
    ensures 0 <= pos.X < w && 0 <= pos.Y < h ==>
              cells[pos.Y := cells[pos.Y][pos.X := cells[pos.Y][pos.X]]] == cells
  {
    if 0 <= pos.X < w && 0 <= pos.Y < h {
      assert cells[pos.Y][pos.X := cells[pos.Y][pos.X]] == cells[pos.Y];
    }
  }
}
