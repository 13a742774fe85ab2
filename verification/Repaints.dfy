/** The deferred-repaint list and the areas it stands for (ConsoleOutput.cpp). */
module Repaints {
  import opened Basics
  import opened ConsoleTypes

  // Cell (x, y) lies in one of the areas.
  ghost predicate Pending(areas: seq<Rect>, x: int, y: int) {
    exists i :: 0 <= i < |areas| && Within(areas[i], x, y)
  }

  predicate ExtendsRight(last: Rect, area: Rect) {
    area.Top == last.Top && area.Bottom == last.Bottom && area.Left == last.Right + 1
  }

  predicate ExtendsDown(last: Rect, area: Rect) {
    area.Left == last.Left && area.Right == last.Right && area.Top == last.Bottom + 1
  }

  // DeferredRepaints::Add, on the list's contents.
  function Added(areas: seq<Rect>, area: Rect): seq<Rect> {
    if |areas| == 0 then [area]
    else
      var n := |areas| - 1;
      var last := areas[n];
      if ExtendsRight(last, area) then areas[n := last.(Right := area.Right)]
      else if ExtendsDown(last, area) then areas[n := last.(Bottom := area.Bottom)]
      else if area == last then areas
      else areas + [area]
  }

  // The list stands for its old cells and those of the area, and no others.
  ghost predicate IsUnion(added: seq<Rect>, areas: seq<Rect>, area: Rect) {
    forall x, y :: Pending(added, x, y) <==> Pending(areas, x, y) || Within(area, x, y)
  }

  // Along one axis [lo, hi] and [hi + 1, to] make up [lo, to]: an inverted second
  // range would take cells of the first away, an inverted first one cells of the second.
  predicate Continues(lo: int, hi: int, to: int) {
    if lo <= hi then hi <= to else to <= hi || lo == hi + 1
  }

  // No merge loses cells.  Only the last entry matters.
  predicate LosesNothing(areas: seq<Rect>, area: Rect) {
    |areas| == 0
    || var last := areas[|areas| - 1];
       if ExtendsRight(last, area) then last.Top > last.Bottom || Continues(last.Left, last.Right, area.Right)
       else if ExtendsDown(last, area) then last.Left > last.Right || Continues(last.Top, last.Bottom, area.Bottom)
       else true
  }

  // A merge to the right, and one below, is exact if and only if the ranges continue.
  lemma MergeRightIff(last: Rect, area: Rect)
    requires ExtendsRight(last, area)
    ensures (forall x, y :: Within(last.(Right := area.Right), x, y) <==> Within(last, x, y) || Within(area, x, y))
            <==> last.Top > last.Bottom || Continues(last.Left, last.Right, area.Right)
  {
    var merged, y := last.(Right := area.Right), last.Top;
    assert Within(last, last.Right, y) <==> last.Left <= last.Right && last.Top <= last.Bottom;
    assert Within(area, area.Left, y) <==> area.Left <= area.Right && last.Top <= last.Bottom;
    assert Within(merged, last.Right, y) <==> last.Left <= last.Right <= area.Right && last.Top <= last.Bottom;
    assert Within(merged, area.Left, y) <==> last.Left <= area.Left <= area.Right && last.Top <= last.Bottom;
  }

  lemma MergeDownIff(last: Rect, area: Rect)
    requires ExtendsDown(last, area)
    ensures (forall x, y :: Within(last.(Bottom := area.Bottom), x, y) <==> Within(last, x, y) || Within(area, x, y))
            <==> last.Left > last.Right || Continues(last.Top, last.Bottom, area.Bottom)
  {
    var merged, x := last.(Bottom := area.Bottom), last.Left;
    assert Within(last, x, last.Bottom) <==> last.Top <= last.Bottom && last.Left <= last.Right;
    assert Within(area, x, area.Top) <==> area.Top <= area.Bottom && last.Left <= last.Right;
    assert Within(merged, x, last.Bottom) <==> last.Top <= last.Bottom <= area.Bottom && last.Left <= last.Right;
    assert Within(merged, x, area.Top) <==> last.Top <= area.Top <= area.Bottom && last.Left <= last.Right;
  }

  // For whatever areas: the list is the union under the condition, it needs the
  // condition to be so whatever precedes the last entry, and it never gains cells.
  lemma AddedIsUnion(areas: seq<Rect>, area: Rect)
    requires LosesNothing(areas, area)
    ensures IsUnion(Added(areas, area), areas, area)
  {
    hide Added, LosesNothing, Within;
    forall x, y
      ensures Pending(Added(areas, area), x, y) <==> Pending(areas, x, y) || Within(area, x, y)
    {
      AddedCell(areas, area, x, y);
    }
  }

  lemma AddedIsUnionIff(last: Rect, area: Rect)
    ensures (forall before :: IsUnion(Added(before + [last], area), before + [last], area))
            <==> LosesNothing([last], area)
  {
    if LosesNothing([last], area) {
      forall before
        ensures IsUnion(Added(before + [last], area), before + [last], area)
      {
        assert (before + [last])[|before + [last]| - 1] == last;
        AddedIsUnion(before + [last], area);
      }
    } else {
      var areas := [] + [last];
      assert areas == [last];
      if ExtendsRight(last, area) {
        MergeRightIff(last, area);
        MergedAlone(last, area, last.(Right := area.Right));
      } else {
        MergeDownIff(last, area);
        MergedAlone(last, area, last.(Bottom := area.Bottom));
      }
      assert !IsUnion(Added(areas, area), areas, area);
    }
  }

  lemma MergedAlone(last: Rect, area: Rect, merged: Rect)
    requires exists x, y :: Within(merged, x, y) != (Within(last, x, y) || Within(area, x, y))
    ensures !IsUnion([last][0 := merged], [last], area)
  {
    assert [last][0 := merged] == [merged];
    var x, y :| Within(merged, x, y) != (Within(last, x, y) || Within(area, x, y));
    assert Pending([merged], x, y) <==> Within([merged][0], x, y);
    assert Pending([last], x, y) <==> Within([last][0], x, y);
  }

  lemma AddedGainsNothing(areas: seq<Rect>, area: Rect, x: int, y: int)
    requires Pending(Added(areas, area), x, y)
    ensures Pending(areas, x, y) || Within(area, x, y)
  {
    var added := Added(areas, area);
    var i :| 0 <= i < |added| && Within(added[i], x, y);
    assert i < |areas| ==> added[i] == areas[i] || i == |areas| - 1;
    if i < |areas| {
      assert Pending(areas, x, y) <== Within(areas[i], x, y);
    }
  }

  lemma AddedCell(areas: seq<Rect>, area: Rect, x: int, y: int)
    requires LosesNothing(areas, area)
    ensures Pending(Added(areas, area), x, y) <==> Pending(areas, x, y) || Within(area, x, y)
  {
    var added := Added(areas, area);
    if i :| 0 <= i < |areas| && Within(areas[i], x, y) {
      assert Within(added[i], x, y) || Within(added[|added| - 1], x, y);
    }
    if Within(area, x, y) {
      assert Within(added[|added| - 1], x, y);
    }
    if Pending(added, x, y) {
      AddedGainsNothing(areas, area, x, y);
    }
  }

  // DeferredRepaints::Add of several areas.
  function AddedAll(areas: seq<Rect>, more: seq<Rect>): seq<Rect> {
    if more == [] then areas else Added(AddedAll(areas, more[..|more| - 1]), more[|more| - 1])
  }

  predicate LosesNothingAll(areas: seq<Rect>, more: seq<Rect>) {
    more == []
    || (LosesNothingAll(areas, more[..|more| - 1])
        && LosesNothing(AddedAll(areas, more[..|more| - 1]), more[|more| - 1]))
  }

  ghost predicate IsUnionAll(added: seq<Rect>, areas: seq<Rect>, more: seq<Rect>) {
    forall x, y :: Pending(added, x, y) <==> Pending(areas, x, y) || Pending(more, x, y)
  }

  lemma {:induction false} AddedAllIsUnion(areas: seq<Rect>, more: seq<Rect>)
    requires LosesNothingAll(areas, more)
    ensures IsUnionAll(AddedAll(areas, more), areas, more)
  {
    if more != [] {
      var n := |more| - 1;
      AddedAllIsUnion(areas, more[..n]);
      AddedIsUnion(AddedAll(areas, more[..n]), more[n]);
      hide Added, LosesNothing, Within;
      forall x, y
        ensures Pending(more, x, y) <==> Pending(more[..n], x, y) || Within(more[n], x, y)
      {
        PendingOneMore(more, x, y);
      }
    }
  }

  lemma PendingOneMore(areas: seq<Rect>, x: int, y: int)
    requires areas != []
    ensures Pending(areas, x, y) <==> Pending(areas[..|areas| - 1], x, y) || Within(areas[|areas| - 1], x, y)
  {
  }

  // An area of its own that never loses cells, nor makes another lose any: it has
  // cells in it, or lacks no more than one column, if it has rows, and one row, if it
  // has columns.
  predicate Harmless(area: Rect) {
    && (area.Top <= area.Bottom ==> area.Left - 1 <= area.Right)
    && (area.Left <= area.Right ==> area.Top - 1 <= area.Bottom)
  }

  ghost predicate AllHarmless(areas: seq<Rect>) {
    forall i :: 0 <= i < |areas| ==> Harmless(areas[i])
  }

  // Beside areas with cells in them, before and after, those are all there are.
  lemma HarmlessIff(area: Rect)
    ensures (forall other :: NonEmpty(other) ==> LosesNothing([other], area) && LosesNothing([area], other))
            <==> Harmless(area)
  {
    if Harmless(area) {
      forall other | NonEmpty(other)
        ensures LosesNothing([other], area) && LosesNothing([area], other)
      {
      }
    } else if area.Top <= area.Bottom && area.Left - 1 > area.Right {
      var other := Rect(area.Right + 1, area.Top, area.Right + 1, area.Bottom);
      assert NonEmpty(other) && !LosesNothing([area], other);
    } else {
      var other := Rect(area.Left, area.Bottom + 1, area.Right, area.Bottom + 1);
      assert NonEmpty(other) && !LosesNothing([area], other);
    }
  }

  // Harmless areas lose nothing among themselves, and what they are merged into is
  // harmless again.
  lemma {:induction false} HarmlessLosesNothing(areas: seq<Rect>, more: seq<Rect>)
    requires AllHarmless(areas) && AllHarmless(more)
    ensures LosesNothingAll(areas, more) && AllHarmless(AddedAll(areas, more))
  {
    if more != [] {
      HarmlessLosesNothing(areas, more[..|more| - 1]);
      OneMoreHarmless(AddedAll(areas, more[..|more| - 1]), more[|more| - 1]);
    }
  }

  lemma OneMoreHarmless(areas: seq<Rect>, area: Rect)
    requires AllHarmless(areas) && Harmless(area)
    ensures LosesNothing(areas, area) && AllHarmless(Added(areas, area))
  {
  }

  lemma AddedOne(areas: seq<Rect>, area: Rect)
    ensures AddedAll(areas, [area]) == Added(areas, area)
    ensures LosesNothingAll(areas, [area]) <==> LosesNothing(areas, area)
  {
    assert [area][..0] == [];
  }

  // The bounding box grown to take in one more cell, or one more area.
  function Affect(area: Rect, x: Short, y: Short): Rect {
    Rect(Min(area.Left, x), Min(area.Top, y), Max(area.Right, x), Max(area.Bottom, y))
  }

  function AffectRect(area: Rect, r: Rect): Rect {
    Rect(Min(area.Left, r.Left), Min(area.Top, r.Top), Max(area.Right, r.Right), Max(area.Bottom, r.Bottom))
  }

  predicate Grows(a: Rect, b: Rect) {
    b.Left <= a.Left && b.Top <= a.Top && a.Right <= b.Right && a.Bottom <= b.Bottom
  }

  const NO_AREA := Rect(MAXSHORT, MAXSHORT, 0, 0)
}
