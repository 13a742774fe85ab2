/** Screen coordinates and cells, as declared for the console API (WinCompat.h). */
module ConsoleTypes {
  import opened Basics

  const MAXSHORT := 0x7FFF
  type Short = x: int | -0x8000 <= x < 0x8000

  // Conversion of an int to SHORT.
  function ToShort(x: int): Short { (x + 0x8000) % 0x1_0000 - 0x8000 }

  // Largest screen side for which SHORT holds every column and the two past the last.
  const MAX_SIDE := 0x7FFD

  // A cell's characters (one, or several for a composite cell) and its attributes.
  datatype CharInfo = CharInfo(text: seq<Wchar>, attr: nat)

  datatype Coord = Coord(X: Short, Y: Short)
  datatype Rect = Rect(Left: Short, Top: Short, Right: Short, Bottom: Short)

  predicate Within(r: Rect, x: int, y: int) { r.Left <= x <= r.Right && r.Top <= y <= r.Bottom }

  predicate NonEmpty(r: Rect) { r.Left <= r.Right && r.Top <= r.Bottom }

  predicate OnScreen(r: Rect, w: nat, h: nat) {
    0 <= r.Left <= r.Right < w && 0 <= r.Top <= r.Bottom < h
  }
}

/** The cell buffer (ConsoleBuffer.cpp). */
module ConsoleBuffers {
  import opened Basics
  import opened ConsoleTypes
  import opened Matrix

  datatype WriteResult = WrBad | WrSame | WrModified

  predicate PosInData(size: Coord, pos: Coord) { 0 <= pos.X < size.X && 0 <= pos.Y < size.Y }

  // The screen rectangle a copy really covers: cut to the screen and to the
  // cells of the caller's block that lie right of and below pos.
  function Clipped(w: nat, h: nat, size: Coord, pos: Coord, r: Rect): Rect
    requires PosInData(size, pos) && w <= MAX_SIDE && h <= MAX_SIDE
  {
    Rect(r.Left, r.Top,
         Min(Min(r.Right, w - 1), r.Left + (size.X - pos.X) - 1),
         Min(Min(r.Bottom, h - 1), r.Top + (size.Y - pos.Y) - 1))
  }

  predicate CanCopy(w: nat, h: nat, size: Coord, pos: Coord, r: Rect)
    requires w <= MAX_SIDE && h <= MAX_SIDE
  {
    PosInData(size, pos) && OnScreen(Clipped(w, h, size, pos, r), w, h)
  }

  // The rectangle reported back to the caller.
  function CopyRect(w: nat, h: nat, size: Coord, pos: Coord, r: Rect): Rect
    requires w <= MAX_SIDE && h <= MAX_SIDE
  {
    if PosInData(size, pos) then Clipped(w, h, size, pos, r) else r
  }

  // The caller's block, as rows.
  predicate HoldsBlock(data: seq<CharInfo>, size: Coord) {
    size.X >= 0 && size.Y >= 0 ==> Start(size.X, size.Y) <= |data|
  }

  ghost function Block(data: seq<CharInfo>, size: Coord): (g: Grid<CharInfo>)
    requires size.X >= 0 && size.Y >= 0 && HoldsBlock(data, size)
    ensures IsGrid(g, size.X, size.Y)
  {
    Rows(data[..Start(size.X, size.Y)], size.X, size.Y)
  }

  // Screen cells of rectangle r replaced by the block's cells from pos on.
  ghost function Written(cells: Grid<CharInfo>, w: nat, h: nat, block: Grid<CharInfo>, size: Coord, pos: Coord,
                         r: Rect): (g: Grid<CharInfo>)
    requires w <= MAX_SIDE && h <= MAX_SIDE && IsGrid(cells, w, h)
    requires CanCopy(w, h, size, pos, r) ==> IsGrid(block, size.X, size.Y)
    ensures IsGrid(g, w, h)
  {
    if CanCopy(w, h, size, pos, r) then
      var c := Clipped(w, h, size, pos, r);
      Blit(cells, block, c.Left, c.Top, pos.X, pos.Y, c.Right + 1 - c.Left, c.Bottom + 1 - c.Top)
    else cells
  }

  ghost function BlankRow(w: nat, attributes: nat): (r: seq<CharInfo>)
    ensures |r| == w
  {
    seq(w, _ => CharInfo([32], attributes))
  }

  // What a block and a screen have in common is copied from corner to corner.
  lemma KeepsCommon(cells: Grid<CharInfo>, block: Grid<CharInfo>, w: nat, h: nat, w0: nat, h0: nat)
    requires 0 < w <= MAX_SIDE && 0 < h <= MAX_SIDE && 0 < w0 <= MAX_SIDE && 0 < h0 <= MAX_SIDE
    requires IsGrid(cells, w, h) && IsGrid(block, w0, h0)
    ensures CanCopy(w, h, Coord(w0, h0), Coord(0, 0), Rect(0, 0, w - 1, h - 1))
    ensures var g := Written(cells, w, h, block, Coord(w0, h0), Coord(0, 0), Rect(0, 0, w - 1, h - 1));
            forall x, y :: 0 <= x < w && 0 <= y < h ==> g[y][x] == if x < w0 && y < h0 then block[y][x] else cells[y][x]
  {
  }

  class ConsoleBuffer {
    var chars: seq<CharInfo>
    var width: nat
    ghost var height: nat

    ghost predicate Valid()
      reads this
    {
      && IsFlat(chars, width, height) && width <= MAX_SIDE && height <= MAX_SIDE
      && (width == 0 ==> height == 0)
    }

    ghost function Cells(): (g: Grid<CharInfo>)
      reads this
      requires Valid()
      ensures IsGrid(g, width, height)
    {
      Rows(chars, width, height)
    }

    constructor ()
      ensures Valid() && width == 0
    {
      width, height, chars := 0, 0, [];
    }

    // Copy assignment.
    method Assign(other: ConsoleBuffer)
      requires other.Valid()
      modifies this
      ensures Valid() && width == other.width && height == other.height && Cells() == old(other.Cells())
    {
      chars, width, height := other.chars, other.width, other.height;
    }

    method GetSize() returns (w: nat, h: nat)
      requires Valid()
      ensures w == width && h == height
    {
      w := width;
      if width == 0 {
        h := 0;
      } else {
        StartIsProduct(width, height);
        QuotientOfProduct(width, height);
        h := |chars| / width;
      }
    }

    lemma QuotientOfProduct(w: nat, h: nat)
      requires w > 0
      ensures h * w / w == h
    {
      var n := h * w;
      var q := n / w;
      var d := q - h;
      assert q * w == n - n % w;
      assert d * w == q * w - h * w;
      assert d * w <= 0 < d * w + w;
      assert d >= 1 ==> d * w >= w;
      assert d <= -1 ==> d * w + w <= 0;
    }

    // Clips the rectangle of a block copy; ok says whether anything is copied.
    method InspectCopyArea(size: Coord, pos: Coord, screenRect: Rect) returns (ok: bool, r: Rect)
      requires Valid() && width > 0
      ensures ok == CanCopy(width, height, size, pos, screenRect)
      ensures r == CopyRect(width, height, size, pos, screenRect)
    {
      r := screenRect;
      if pos.X < 0 || pos.Y < 0 || size.X < 0 || size.Y < 0 || pos.X >= size.X || pos.Y >= size.Y {
        return false, r;
      }
      var w, h := GetSize();
      if w <= r.Right {
        r := r.(Right := w - 1);
      }
      if h <= r.Bottom {
        r := r.(Bottom := h - 1);
      }
      var availWidth: Short := size.X - pos.X;
      var availHeight: Short := size.Y - pos.Y;
      if availWidth <= r.Right - r.Left {
        r := r.(Right := r.Left + availWidth - 1);
      }
      if availHeight <= r.Bottom - r.Top {
        r := r.(Bottom := r.Top + availHeight - 1);
      }
      if w <= r.Left || r.Right < r.Left || r.Left < 0 {
        return false, r;
      }
      if h <= r.Top || r.Bottom < r.Top || r.Top < 0 {
        return false, r;
      }
      return true, r;
    }

    /** Copies a screen rectangle into the caller's block. */
    method Read(data0: seq<CharInfo>, size: Coord, pos: Coord, screenRect: Rect)
      returns (data: seq<CharInfo>, r: Rect)
      requires Valid() && width > 0 && HoldsBlock(data0, size)
      ensures |data| == |data0| && r == CopyRect(width, height, size, pos, screenRect)
      ensures if CanCopy(width, height, size, pos, screenRect)
              then Block(data, size) == Blit(Block(data0, size), Cells(), pos.X, pos.Y, r.Left, r.Top,
                                             r.Right + 1 - r.Left, r.Bottom + 1 - r.Top)
              else data == data0
    {
      data := data0;
      var ok;
      ok, r := InspectCopyArea(size, pos, screenRect);
      if !ok {
        return;
      }
      data := CopyOutRows(data0, size, pos, r);
    }

    // The row loop of Read.
    method CopyOutRows(data0: seq<CharInfo>, size: Coord, pos: Coord, r: Rect) returns (data: seq<CharInfo>)
      requires Valid() && OnScreen(r, width, height) && PosInData(size, pos) && HoldsBlock(data0, size)
      requires pos.X + r.Right - r.Left < size.X && pos.Y + r.Bottom - r.Top < size.Y
      ensures |data| == |data0|
      ensures Block(data, size) == Blit(Block(data0, size), Cells(), pos.X, pos.Y, r.Left, r.Top,
                                        r.Right + 1 - r.Left, r.Bottom + 1 - r.Top)
    {
      hide Row, Rows, Blit, Splice;
      data := data0;
      var n := r.Right + 1 - r.Left;
      ghost var total, was := Start(size.X, size.Y), Block(data0, size);
      BlitNothing(was, Cells(), pos.X, pos.Y, r.Left, r.Top, n);
      var y := r.Top;
      while y <= r.Bottom
        invariant r.Top <= y <= r.Bottom + 1
        invariant |data| == |data0|
        invariant Block(data, size) == Blit(was, Cells(), pos.X, pos.Y, r.Left, r.Top, n, y - r.Top)
      {
        var to, from := (pos.Y + y - r.Top) * size.X + pos.X, y * width + r.Left;
        StartIsProduct(size.X, pos.Y + y - r.Top);
        StartIsProduct(width, y);
        ghost var flat := data[..total];
        BlitRow(flat, size.X, size.Y, chars, width, height, was, pos.X, pos.Y, r.Left, r.Top, n, y - r.Top, to, from);
        SpliceInside(data, to, chars[from..from + n], 0, total);
        data := Splice(data, to, chars[from..from + n]);
        y := y + 1;
      }
    }

    /** Copies the caller's block onto a screen rectangle. */
    method Write(data: seq<CharInfo>, size: Coord, pos: Coord, screenRect: Rect) returns (r: Rect)
      requires Valid() && width > 0 && HoldsBlock(data, size)
      modifies this`chars
      ensures Valid() && r == CopyRect(width, height, size, pos, screenRect)
      ensures Cells() == Written(old(Cells()), width, height,
                                 if CanCopy(width, height, size, pos, screenRect) then Block(data, size) else [],
                                 size, pos, screenRect)
    {
      var ok;
      ok, r := InspectCopyArea(size, pos, screenRect);
      if !ok {
        return;
      }
      CopyRows(data, size, pos, r);
    }

    // The row loop of Write.
    method CopyRows(data: seq<CharInfo>, size: Coord, pos: Coord, r: Rect)
      requires Valid() && OnScreen(r, width, height) && PosInData(size, pos) && HoldsBlock(data, size)
      requires pos.X + r.Right - r.Left < size.X && pos.Y + r.Bottom - r.Top < size.Y
      modifies this`chars
      ensures Valid()
      ensures Cells() == Blit(old(Cells()), Block(data, size), r.Left, r.Top, pos.X, pos.Y,
                              r.Right + 1 - r.Left, r.Bottom + 1 - r.Top)
    {
      hide Row, Rows, Blit, Splice, Start;
      var n := r.Right + 1 - r.Left;
      ghost var flat, was := data[..Start(size.X, size.Y)], Cells();
      BlitNothing(was, Block(data, size), r.Left, r.Top, pos.X, pos.Y, n);
      var y := r.Top;
      while y <= r.Bottom
        invariant r.Top <= y <= r.Bottom + 1
        invariant Valid()
        invariant Cells() == Blit(was, Rows(flat, size.X, size.Y), r.Left, r.Top, pos.X, pos.Y, n, y - r.Top)
      {
        var to, from := y * width + r.Left, (pos.Y + y - r.Top) * size.X + pos.X;
        StartIsProduct(size.X, pos.Y + y - r.Top);
        StartIsProduct(width, y);
        BlitRow(chars, width, height, flat, size.X, size.Y, was, r.Left, r.Top, pos.X, pos.Y, n, y - r.Top, to, from);
        SliceOfPrefix(data, Start(size.X, size.Y), from, from + n);
        chars := Splice(chars, to, data[from..from + n]);
        y := y + 1;
      }
    }

    /** Reads one cell; false when the position is off the screen. */
    method ReadCell(pos: Coord) returns (ok: bool, ch: CharInfo)
      requires Valid()
      ensures ok <==> 0 <= pos.X < width && 0 <= pos.Y < height
      ensures ok ==> ch == Cells()[pos.Y][pos.X]
    {
      ch := CharInfo([0], 0);
      if pos.X < 0 || pos.Y < 0 || pos.X >= width {
        return false, ch;
      }
      var index := pos.Y * width + pos.X;
      StartIsProduct(width, pos.Y);
      FlatIndexInside(width, height, pos.X, pos.Y);
      if index >= |chars| {
        return false, ch;
      }
      CellAt(chars, width, height, pos.X, pos.Y);
      return true, chars[index];
    }

    /** Writes one cell and says whether that changed it. */
    method WriteCell(ch: CharInfo, pos: Coord) returns (res: WriteResult)
      requires Valid()
      modifies this`chars
      ensures Valid()
      ensures res == WrBad <==> !(0 <= pos.X < width && 0 <= pos.Y < height)
      ensures res == WrBad ==> Cells() == old(Cells())
      ensures res != WrBad ==> Cells() == old(Cells())[pos.Y := old(Cells())[pos.Y][pos.X := ch]]
      ensures res != WrBad ==> (res == WrSame <==> old(Cells())[pos.Y][pos.X] == ch)
      ensures res != WrModified ==> Cells() == old(Cells())
    {
      hide Rows, Row;
      if pos.X < 0 || pos.Y < 0 || pos.X >= width {
        return WrBad;
      }
      var index := pos.Y * width + pos.X;
      StartIsProduct(width, pos.Y);
      FlatIndexInside(width, height, pos.X, pos.Y);
      if index >= |chars| {
        return WrBad;
      }
      CellAt(chars, width, height, pos.X, pos.Y);
      if chars[index] == ch {
        ghost var row := Cells()[pos.Y];
        assert row == row[pos.X := ch];
        assert Cells() == Cells()[pos.Y := row];
        return WrSame;
      }
      SpliceRow(chars, width, height, pos.Y, pos.X, [ch]);
      assert chars[index := ch] == Splice(chars, index, [ch]);
      ghost var row := Cells()[pos.Y];
      assert row[pos.X := ch] == Splice(row, pos.X, [ch]);
      chars := chars[index := ch];
      return WrModified;
    }

    /** Resizes: the common top-left part is kept, the rest is blank. */
    method SetSize(w: nat, h: nat, attributes: nat)
      requires Valid() && w <= MAX_SIDE && h <= MAX_SIDE
      modifies this
      ensures Valid() && width == w && height == if w == 0 then 0 else h
      ensures forall x, y :: 0 <= x < width && 0 <= y < height ==>
                Cells()[y][x] == if x < old(width) && y < old(height) then old(Cells())[y][x]
                                 else CharInfo([32], attributes)
    {
      if w == width && w * h == |chars| {
        StartIsProduct(width, height);
        SameProduct(w, h, height);
        return;
      }
      hide Rows, Row, Written;
      StartIsProduct(width, height);
      StartIsProduct(w, h);
      StartIsProduct(w, 0);
      var oldWidth, oldHeight := GetSize();
      var prevSize := Coord(oldWidth, oldHeight);
      var other := chars;
      chars := seq(w * h, _ => CharInfo([32], attributes));
      width, height := w, if w == 0 then 0 else h;
      ghost var blank := Cells();
      forall x, y | 0 <= x < width && 0 <= y < height
        ensures blank[y][x] == CharInfo([32], attributes)
      {
        CellAt(chars, w, h, x, y);
      }
      PositiveProduct(w, h);
      PositiveProduct(oldWidth, oldHeight);
      if |other| != 0 && |chars| != 0 {
        assert other[..|other|] == other;
        KeepsCommon(blank, Block(other, prevSize), w, h, oldWidth, oldHeight);
        var r := Write(other, prevSize, Coord(0, 0), Rect(0, 0, w - 1, h - 1));
      }
    }

    lemma SameProduct(w: nat, h: nat, k: nat)
      ensures w > 0 && w * h == k * w ==> h == k
    {
    }

    lemma PositiveProduct(w: nat, h: nat)
      ensures w * h > 0 <==> w > 0 && h > 0
    {
    }
  }
}
