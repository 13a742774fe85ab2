/**
 * Composition of two characters (compose.c): one flat table holds a header of
 * second characters, each with the start of its bucket of (first, composed)
 * pairs; a bucket ends where the next one starts.
 */
module Compose {
  import opened Basics

  const HEADER := 70

  // The key and the value of the pair at 'pos'.
  function Key(table: seq<Ushort>, pos: nat): Ushort
    requires 2 * pos + 1 < |table|
  {
    table[2 * pos]
  }

  function Value(table: seq<Ushort>, pos: nat): Ushort
    requires 2 * pos + 1 < |table|
  {
    table[2 * pos + 1]
  }

  ghost predicate Sorted(table: seq<Ushort>, low: nat, end: nat)
    requires 2 * end <= |table|
  {
    forall i, j :: low <= i < j < end ==> Key(table, i) < Key(table, j)
  }

  // A sorted header closed by a sentinel, and sorted buckets of non-zero values
  // one after the other.
  ghost predicate WellFormed(table: seq<Ushort>) {
    && 2 * (HEADER + 1) <= |table|
    && Sorted(table, 0, HEADER)
    && (forall h :: 0 <= h < HEADER ==> BucketSorted(table, h))
  }

  ghost predicate BucketSorted(table: seq<Ushort>, h: nat)
    requires 2 * (h + 2) <= |table|
  {
    && Value(table, h) <= Value(table, h + 1) && 2 * Value(table, h + 1) as int <= |table|
    && Sorted(table, Value(table, h), Value(table, h + 1))
    && forall i :: Value(table, h) as int <= i < Value(table, h + 1) as int ==> Value(table, i) != 0
  }

  // The place of a key in a run of pairs, found by looking at each: -1 for none.
  function Scan(table: seq<Ushort>, key: Ushort, low: nat, end: nat): (p: int)
    requires 2 * end <= |table|
    ensures p == -1 || (low <= p < end && Key(table, p) == key)
    ensures p == -1 ==> forall i :: low <= i < end ==> Key(table, i) != key
    decreases end - low
  {
    if low >= end then -1 else if Key(table, low) == key then low else Scan(table, key, low + 1, end)
  }

  // binary_search, bounds inclusive as in the source
  method BinarySearch(table: seq<Ushort>, key: Ushort, from: nat, to: int) returns (p: int)
    requires -1 <= to && 2 * (to + 1) <= |table| && Sorted(table, from, to + 1)
    ensures p == Scan(table, key, from, to + 1)
  {
    var low: int, high := from, to;
    while low <= high
      invariant from <= low && high <= to && -1 <= high
      invariant forall i :: from <= i <= to && !(low <= i <= high) ==> Key(table, i) != key
      decreases high - low
    {
      var pos := (low + high) / 2;
      if table[2 * pos] < key {
        assert forall i :: from <= i < pos ==> Key(table, i) < Key(table, pos);
        low := pos + 1;
      } else if table[2 * pos] > key {
        assert forall i :: pos < i <= to ==> Key(table, i) > Key(table, pos);
        high := pos - 1;
      } else {
        assert Key(table, pos) == key;
        return pos;
      }
    }
    return -1;
  }

  // The composition of first and second by linear scan, 0 for none.
  function Composed(table: seq<Ushort>, first: Ushort, second: Ushort): Ushort
    requires WellFormed(table)
  {
    var h := Scan(table, second, 0, HEADER);
    if h == -1 then 0
    else
      assert BucketSorted(table, h);
      var p := Scan(table, first, Value(table, h), Value(table, h + 1));
      if p == -1 then 0 else Value(table, p)
  }

  // The table holds (first, second) -> c.
  ghost predicate Holds(table: seq<Ushort>, first: Ushort, second: Ushort, c: Ushort)
    requires WellFormed(table)
  {
    exists h, p :: Entry(table, first, second, c, h, p)
  }

  ghost predicate Entry(table: seq<Ushort>, first: Ushort, second: Ushort, c: Ushort, h: int, p: int)
    requires WellFormed(table)
  {
    && 0 <= h < HEADER && BucketSorted(table, h) && Value(table, h) as int <= p < Value(table, h + 1) as int
    && Key(table, h) == second && Key(table, p) == first && Value(table, p) == c
  }

  // In cells: the second character heads a pair of the header, whose other cell and that
  // of the next pair bound the pairs of the first and what the two make.
  lemma HoldsIsCells(table: seq<Ushort>, first: Ushort, second: Ushort, c: Ushort)
    requires WellFormed(table)
    ensures Holds(table, first, second, c) <==>
              exists h, p :: 0 <= h < 70 && table[2 * h + 1] as int <= p < table[2 * h + 3] as int
                             && 2 * p + 1 < |table|
                             && table[2 * h] == second && table[2 * p] == first && table[2 * p + 1] == c
  {
    if h, p :| Entry(table, first, second, c, h, p) {
      assert table[2 * h + 1] as int <= p < table[2 * h + 3] as int && table[2 * p] == first;
    }
    if h, p :| 0 <= h < 70 && table[2 * h + 1] as int <= p < table[2 * h + 3] as int && 2 * p + 1 < |table|
               && table[2 * h] == second && table[2 * p] == first && table[2 * p + 1] == c
    {
      assert BucketSorted(table, h);
      assert Entry(table, first, second, c, h, p);
    }
  }

  // Each pair has at most one composition, and it is the one that is found; 0
  // exactly if there is none.
  lemma ComposedIsEntry(table: seq<Ushort>, first: Ushort, second: Ushort, c: Ushort)
    requires WellFormed(table)
    ensures Holds(table, first, second, c) <==> c != 0 && Composed(table, first, second) == c
    ensures Composed(table, first, second) == 0 <==> forall x: Ushort :: !Holds(table, first, second, x)
  {
    hide WellFormed, BucketSorted, Entry, Scan;
    forall x: Ushort | Holds(table, first, second, x)
      ensures x != 0 && Composed(table, first, second) == x
    {
      EntryIsFound(table, first, second, x);
    }
    if Composed(table, first, second) != 0 {
      FoundIsEntry(table, first, second);
    }
  }

  lemma EntryIsFound(table: seq<Ushort>, first: Ushort, second: Ushort, x: Ushort)
    requires WellFormed(table) && Holds(table, first, second, x)
    ensures x != 0 && Composed(table, first, second) == x
  {
    var h, p :| Entry(table, first, second, x, h, p);
    var h' := Scan(table, second, 0, HEADER);
    assert h == h';
    assert BucketSorted(table, h);
    assert p == Scan(table, first, Value(table, h), Value(table, h + 1));
  }

  lemma FoundIsEntry(table: seq<Ushort>, first: Ushort, second: Ushort)
    requires WellFormed(table) && Composed(table, first, second) != 0
    ensures Holds(table, first, second, Composed(table, first, second))
  {
    var h := Scan(table, second, 0, HEADER);
    assert BucketSorted(table, h);
    var p := Scan(table, first, Value(table, h), Value(table, h + 1));
    assert Entry(table, first, second, Value(table, p), h, p);
  }

  // wine_compose
  method WineCompose(table: seq<Ushort>, str0: Wchar, str1: Wchar) returns (c: Ushort)
    requires WellFormed(table)
    ensures c == Composed(table, str0 % 0x10000, str1 % 0x10000)
  {
    hide Scan;
    var idx, start: nat, count: nat := 1, 0, HEADER;
    while true
      invariant 0 <= idx <= 1 && 2 * count <= |table| && Sorted(table, start, count)
      invariant idx == 1 ==> start == 0 && count == HEADER
      invariant idx == 0 ==>
        var h := Scan(table, str1 % 0x10000, 0, HEADER);
        h != -1 && start == Value(table, h) && count == Value(table, h + 1)
      decreases idx
    {
      var pos := BinarySearch(table, (if idx == 0 then str0 else str1) % 0x10000, start, count - 1);
      if pos == -1 { return 0; }
      if idx == 0 { return table[2 * pos + 1]; }
      idx := idx - 1;
      assert BucketSorted(table, pos);
      start := table[2 * pos + 1];
      count := table[2 * pos + 3];
    }
  }
}
