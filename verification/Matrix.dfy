/**
 * Rectangular cell matrices and their flat, row-major storage.
 * The console stores its cells, and is handed cells, as one flat sequence plus
 * a stride; everything above the buffer reasons about rows.
 */
module Matrix {
  type Grid<T> = seq<seq<T>>

  ghost predicate IsGrid<T>(g: Grid<T>, w: nat, h: nat) {
    |g| == h && forall y :: 0 <= y < h ==> |g[y]| == w
  }

  // Index of the first cell of row y in flat storage: y * w.
  function Start(w: nat, y: nat): nat {
    if y == 0 then 0 else Start(w, y - 1) + w
  }

  lemma {:induction false} StartIsProduct(w: nat, y: nat)
    ensures Start(w, y) == y * w
  {
    if y == 0 {
    } else {
      StartIsProduct(w, y - 1);
      assert y * w == (y - 1) * w + w;
    }
  }

  lemma {:induction false} StartOrder(w: nat, y: nat, z: nat)
    requires y < z
    ensures Start(w, y) + w <= Start(w, z)
    decreases z
  {
    if y + 1 < z {
      StartOrder(w, y, z - 1);
    }
  }

  lemma StartAtLeast(w: nat, n: nat)
    ensures if n == 0 then Start(w, n) == 0 else Start(w, n) >= w
  {
  }

  ghost predicate IsFlat<T>(s: seq<T>, w: nat, h: nat) { |s| == Start(w, h) }

  // Row y of a flat w-by-h matrix.
  ghost function Row<T>(s: seq<T>, w: nat, h: nat, y: nat): (r: seq<T>)
    requires IsFlat(s, w, h) && y < h
    ensures |r| == w
  {
    StartOrder(w, y, h);
    s[Start(w, y)..Start(w, y) + w]
  }

  ghost function Rows<T>(s: seq<T>, w: nat, h: nat): (g: Grid<T>)
    requires IsFlat(s, w, h)
    ensures IsGrid(g, w, h)
  {
    seq(h, y requires 0 <= y < h => Row(s, w, h, y))
  }

  function Splice<T>(s: seq<T>, off: nat, cells: seq<T>): (t: seq<T>)
    requires off + |cells| <= |s|
    ensures |t| == |s|
    ensures forall i :: 0 <= i < |s| ==> t[i] == if off <= i < off + |cells| then cells[i - off] else s[i]
  {
    s[..off] + cells + s[off + |cells|..]
  }

  lemma SliceOfPrefix<T>(s: seq<T>, n: nat, a: nat, b: nat)
    requires a <= b <= n <= |s|
    ensures s[..n][a..b] == s[a..b]
  {
  }

  lemma SpliceOutside<T>(s: seq<T>, off: nat, cells: seq<T>, a: nat, b: nat)
    requires off + |cells| <= |s| && a <= b <= |s|
    requires b <= off || off + |cells| <= a
    ensures Splice(s, off, cells)[a..b] == s[a..b]
  {
  }

  lemma SpliceInside<T>(s: seq<T>, off: nat, cells: seq<T>, a: nat, b: nat)
    requires a <= off && off + |cells| <= b <= |s|
    ensures Splice(s, off, cells)[a..b] == Splice(s[a..b], off - a, cells)
  {
  }

  lemma SpliceRowAt<T>(s: seq<T>, w: nat, h: nat, y: nat, x: nat, cells: seq<T>, k: nat)
    requires IsFlat(s, w, h) && y < h && k < h && x + |cells| <= w
    requires Start(w, y) + w <= |s|
    ensures Row(Splice(s, Start(w, y) + x, cells), w, h, k)
            == if k == y then Splice(Row(s, w, h, y), x, cells) else Row(s, w, h, k)
  {
    hide Splice, Start;
    StartOrder(w, k, h);
    if k < y {
      StartOrder(w, k, y);
      SpliceOutside(s, Start(w, y) + x, cells, Start(w, k), Start(w, k) + w);
    } else if k > y {
      StartOrder(w, y, k);
      SpliceOutside(s, Start(w, y) + x, cells, Start(w, k), Start(w, k) + w);
    } else {
      SpliceInside(s, Start(w, y) + x, cells, Start(w, y), Start(w, y) + w);
    }
  }

  // Overwriting part of one row in flat storage changes that row only.
  lemma SpliceRow<T>(s: seq<T>, w: nat, h: nat, y: nat, x: nat, cells: seq<T>)
    requires IsFlat(s, w, h) && y < h && x + |cells| <= w
    ensures Start(w, y) + w <= |s|
    ensures Rows(Splice(s, Start(w, y) + x, cells), w, h)
            == Rows(s, w, h)[y := Splice(Rows(s, w, h)[y], x, cells)]
  {
    StartOrder(w, y, h);
    hide Row, Splice, Start;
    var rows := Rows(s, w, h)[y := Splice(Rows(s, w, h)[y], x, cells)];
    forall k | 0 <= k < h
      ensures Rows(Splice(s, Start(w, y) + x, cells), w, h)[k] == rows[k]
    {
      SpliceRowAt(s, w, h, y, x, cells, k);
    }
  }

  lemma CellAt<T>(s: seq<T>, w: nat, h: nat, x: nat, y: nat)
    requires IsFlat(s, w, h) && x < w && y < h
    ensures Start(w, y) + x < |s|
    ensures Rows(s, w, h)[y][x] == s[Start(w, y) + x]
  {
    StartOrder(w, y, h);
  }

  // A flat index at or past the end is a row at or past the end.
  lemma FlatIndexInside(w: nat, h: nat, x: nat, y: nat)
    requires x < w
    ensures Start(w, y) + x < Start(w, h) <==> y < h
  {
  }

  // dst with the w-by-h block of src at (sx, sy) copied to (dx, dy).
  ghost function Blit<T>(dst: Grid<T>, src: Grid<T>, dx: nat, dy: nat, sx: nat, sy: nat, w: nat, h: nat): (g: Grid<T>)
    requires h > 0 ==> sy + h <= |src|
    requires forall y :: sy <= y < sy + h ==> sx + w <= |src[y]|
    ensures |g| == |dst| && forall y :: 0 <= y < |g| ==> |g[y]| == |dst[y]|
  {
    seq(|dst|, y requires 0 <= y < |dst| =>
      seq(|dst[y]|, x requires 0 <= x < |dst[y]| =>
        if dy <= y < dy + h && dx <= x < dx + w then src[sy + y - dy][sx + x - dx] else dst[y][x]))
  }

  lemma BlitNothing<T>(dst: Grid<T>, src: Grid<T>, dx: nat, dy: nat, sx: nat, sy: nat, w: nat)
    ensures Blit(dst, src, dx, dy, sx, sy, w, 0) == dst
  {
    var g := Blit(dst, src, dx, dy, sx, sy, w, 0);
    assert forall y :: 0 <= y < |g| ==> g[y] == dst[y];
  }

  // One more row of a block copy.
  lemma BlitStep<T>(dst: Grid<T>, src: Grid<T>, dx: nat, dy: nat, sx: nat, sy: nat, w: nat, h: nat)
    requires sy + h + 1 <= |src| && dy + h < |dst| && dx + w <= |dst[dy + h]|
    requires forall y :: sy <= y < sy + h + 1 ==> sx + w <= |src[y]|
    ensures var g := Blit(dst, src, dx, dy, sx, sy, w, h);
            var row := g[dy + h];
            Blit(dst, src, dx, dy, sx, sy, w, h + 1) == g[dy + h := Splice(row, dx, src[sy + h][sx..sx + w])]
  {
    var g := Blit(dst, src, dx, dy, sx, sy, w, h);
    var n := Blit(dst, src, dx, dy, sx, sy, w, h + 1);
    var row := g[dy + h];
    var u := g[dy + h := Splice(row, dx, src[sy + h][sx..sx + w])];
    forall y | 0 <= y < |n|
      ensures n[y] == u[y]
    {
      assert forall x :: 0 <= x < |n[y]| ==> n[y][x] == u[y][x];
    }
  }

  lemma RowSlice<T>(s: seq<T>, w: nat, h: nat, y: nat, x: nat, n: nat)
    requires IsFlat(s, w, h) && y < h && x + n <= w
    ensures Start(w, y) + w <= |s|
    ensures Rows(s, w, h)[y][x..x + n] == s[Start(w, y) + x..Start(w, y) + x + n]
  {
    StartOrder(w, y, h);
    var row, part := Rows(s, w, h)[y][x..x + n], s[Start(w, y) + x..Start(w, y) + x + n];
    forall i | 0 <= i < n
      ensures row[i] == part[i]
    {
      assert Row(s, w, h, y)[x + i] == s[Start(w, y) + (x + i)];
    }
  }

  // The same on flat storage: row k of the block is spliced in at 'to', taken from 'from'.
  lemma BlitRow<T>(dst: seq<T>, dw: nat, dh: nat, src: seq<T>, sw: nat, sh: nat, base: Grid<T>,
                   dx: nat, dy: nat, sx: nat, sy: nat, w: nat, k: nat, to: int, from: int)
    requires IsFlat(dst, dw, dh) && IsFlat(src, sw, sh) && IsGrid(base, dw, dh)
    requires dy + k < dh && sy + k < sh && dx + w <= dw && sx + w <= sw
    requires Rows(dst, dw, dh) == Blit(base, Rows(src, sw, sh), dx, dy, sx, sy, w, k)
    requires to == Start(dw, dy + k) + dx && from == Start(sw, sy + k) + sx
    ensures 0 <= to && to + w <= |dst| && 0 <= from && from + w <= |src|
    ensures Rows(Splice(dst, to, src[from..from + w]), dw, dh)
            == Blit(base, Rows(src, sw, sh), dx, dy, sx, sy, w, k + 1)
  {
    hide Blit, Rows, Splice, Row;
    StartOrder(dw, dy + k, dh);
    StartOrder(sw, sy + k, sh);
    var cells := src[from..from + w];
    var g := Rows(dst, dw, dh);
    RowSlice(src, sw, sh, sy + k, sx, w);
    SpliceRow(dst, dw, dh, dy + k, dx, cells);
    assert Rows(Splice(dst, to, cells), dw, dh) == g[dy + k := Splice(g[dy + k], dx, cells)];
    BlitStep(base, Rows(src, sw, sh), dx, dy, sx, sy, w, k);
  }

  // A copy of whole rows.
  lemma WholeRowAt<T>(dst: Grid<T>, src: Grid<T>, dy: nat, sy: nat, w: nat, h: nat, n: nat, y: nat)
    requires IsGrid(dst, w, h) && sy + n <= |src| && y < h
    requires forall k :: sy <= k < sy + n ==> |src[k]| == w
    ensures Blit(dst, src, 0, dy, 0, sy, w, n)[y] == if dy <= y < dy + n then src[sy + y - dy] else dst[y]
  {
  }
}
