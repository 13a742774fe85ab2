/**
 * Unicode decomposition (decompose.c). The two flat tables are abstract; all
 * that is asked of them is that lookups stay inside and that no character
 * decomposes, through however many steps, into itself.
 */
module Decompose {
  // Table entries and characters are natural numbers here; a lookup uses the low 16 bits.
  datatype Tables = Tables(canonical: seq<nat>, compat: seq<nat>)

  // ---------------------------------------------------------------- lookup

  function CompatOffset(t: Tables, ch: nat): int
    requires ch < 0x10000 && 0x100 <= |t.compat| && t.compat[ch / 0x100] + 0x10 <= |t.compat|
  {
    t.compat[t.compat[ch / 0x100] + ch / 0x10 % 0x10] + ch % 0x10
  }

  function CanonicalOffset(t: Tables, ch: nat): int
    requires ch < 0x10000 && 0x100 <= |t.canonical| && t.canonical[ch / 0x100] + 0x10 <= |t.canonical|
  {
    t.canonical[t.canonical[ch / 0x100] + ch / 0x10 % 0x10] + 2 * (ch % 0x10)
  }

  // Every lookup for this character stays inside the tables.
  ghost predicate LooksUp(t: Tables, ch: nat) {
    && ch < 0x10000
    && 0x100 <= |t.canonical| && t.canonical[ch / 0x100] + 0x10 <= |t.canonical|
    && CanonicalOffset(t, ch) + 1 < |t.canonical|
    && 0x100 <= |t.compat| && t.compat[ch / 0x100] + 0x10 <= |t.compat|
    && CompatOffset(t, ch) + 1 < |t.compat|
    && t.compat[CompatOffset(t, ch) + 1] <= |t.compat|
  }

  // get_compatmap_entry: empty where the source returns NULL
  function CompatEntry(t: Tables, ch: nat): seq<nat>
    requires LooksUp(t, ch)
  {
    var start, end := t.compat[CompatOffset(t, ch)], t.compat[CompatOffset(t, ch) + 1];
    if end > start then t.compat[start..end] else []
  }

  // The characters ch stands for, or none if it stands for itself.
  function Entry(t: Tables, compat: bool, ch: nat): seq<nat>
    requires LooksUp(t, ch)
  {
    var mapped := if compat then CompatEntry(t, ch) else [];
    if mapped != [] then
      if mapped[0] == 0 then [] else mapped
    else
      var p := CanonicalOffset(t, ch);
      if t.canonical[p] == 0 then []
      else if t.canonical[p + 1] != 0 then t.canonical[p..p + 2]
      else [t.canonical[p]]
  }

  // 'rank' witnesses that the tables have no cycle.
  ghost predicate Acyclic(t: Tables, compat: bool, rank: nat -> nat) {
    && (forall ch :: 0 <= ch < 0x10000 ==> LooksUp(t, ch))
    && (forall ch, i :: 0 <= ch < 0x10000 && 0 <= i < |Entry(t, compat, ch)| ==>
        rank(Low(Entry(t, compat, ch)[i])) < rank(ch))
  }

  // ---------------------------------------------------------------- full expansion

  function Low(ch: nat): nat { ch % 0x10000 }

  ghost function Expand(t: Tables, compat: bool, ch: nat, rank: nat -> nat): (e: seq<nat>)
    requires Acyclic(t, compat, rank)
    ensures e != []
    decreases rank(Low(ch)), 1, 0
  {
    var entry := Entry(t, compat, Low(ch));
    if entry == [] then [ch] else ExpandAll(t, compat, entry, rank, rank(Low(ch)))
  }

  ghost function ExpandAll(t: Tables, compat: bool, s: seq<nat>, rank: nat -> nat, bound: nat): (e: seq<nat>)
    requires Acyclic(t, compat, rank)
    requires forall i :: 0 <= i < |s| ==> rank(Low(s[i])) < bound
    ensures |e| >= |s|
    decreases bound, 0, |s|
  {
    if s == [] then [] else Expand(t, compat, s[0], rank) + ExpandAll(t, compat, s[1..], rank, bound)
  }

  ghost predicate SameOutside(d: seq<nat>, d': seq<nat>, at: nat, n: nat) {
    |d| == |d'| && forall k :: 0 <= k < |d| && !(at <= k < at + n) ==> d'[k] == d[k]
  }

  // What is written so far and what is still to come make up the whole.
  ghost predicate Growing(d: seq<nat>, at: nat, pos: nat, more: seq<nat>, all: seq<nat>) {
    at + pos <= |d| && d[at..at + pos] + more == all
  }

  lemma Grown(d: seq<nat>, d': seq<nat>, at: nat, pos: nat, room: nat, e: seq<nat>, more: seq<nat>, all: seq<nat>)
    requires Growing(d, at, pos, e + more, all) && SameOutside(d, d', at + pos, room)
    requires |e| <= room && at + pos + |e| <= |d'| && d'[at + pos..at + pos + |e|] == e
    ensures Growing(d', at, pos + |e|, more, all)
  {
  }

  lemma Widened(d0: seq<nat>, d: seq<nat>, d': seq<nat>, at: nat, n: nat, at': nat, n': nat)
    requires SameOutside(d0, d, at, n) && SameOutside(d, d', at', n') && at <= at' && at' + n' <= at + n
    ensures SameOutside(d0, d', at, n)
  {
  }

  lemma WidenedBy(d0: seq<nat>, d: seq<nat>, d': seq<nat>, at: nat, pos: nat, res: nat)
    requires SameOutside(d0, d, at, Touched(pos)) && SameOutside(d, d', at + pos, res) && 0 < res
    ensures SameOutside(d0, d', at, pos + res)
  {
  }

  // What a call leaves behind: 0 exactly when the expansion e does not fit into
  // dst[at..at + dstlen), with nothing outside touched; else the expansion, and
  // nothing else touched.
  ghost predicate Done(e: seq<nat>, d: seq<nat>, d': seq<nat>, at: nat, dstlen: nat, n: nat) {
    && |d| == |d'| && at + dstlen <= |d|
    && n == (if dstlen < |e| then 0 else |e|)
    && (n > 0 ==> d'[at..at + n] == e)
    && SameOutside(d, d', at, if n > 0 then n else dstlen)
  }

  // wine_decompose
  method WineDecompose(t: Tables, compat: bool, ch: nat, dst: array<nat>, at: nat, dstlen: nat, ghost rank: nat -> nat)
    returns (n: nat)
    requires Acyclic(t, compat, rank)
    requires 1 <= dstlen && at + dstlen <= dst.Length
    modifies dst
    ensures Done(Expand(t, compat, ch, rank), old(dst[..]), dst[..], at, dstlen, n)
    decreases rank(Low(ch))
  {
    hide Acyclic, Expand, ExpandAll, Entry, LooksUp, SameOutside, Growing, Done;
    ghost var d0, all := dst[..], Expand(t, compat, ch, rank);
    dst[at] := ch;
    FirstStored(d0, dst[..], at, dstlen);
    ExpandIs(t, compat, ch, rank);
    var entry := Entry(t, compat, Low(ch));
    if entry == [] {
      OneStored(d0, dst[..], at, dstlen, ch);
      return 1;
    }
    if dstlen < |entry| {
      TooLong(all, d0, dst[..], at, dstlen);
      return 0;
    }
    var pos, i := 0, 0;
    ghost var bound := rank(Low(ch));
    assert entry[0..] == entry;
    NothingYet(dst[..], at, all);
    while i < |entry|
      invariant 0 <= i <= |entry| && i <= pos <= dstlen - (|entry| - i)
      invariant SameOutside(d0, dst[..], at, Touched(pos)) && SameOutside(d0, dst[..], at, dstlen)
      invariant Growing(dst[..], at, pos, ExpandAll(t, compat, entry[i..], rank, bound), all)
    {
      ghost var before := dst[..];
      var room := dstlen - pos - (|entry| - i - 1);
      var res := WineDecompose(t, compat, entry[i], dst, at + pos, room, rank);
      OneExpanded(t, compat, entry, i, rank, bound, d0, before, dst[..], at, dstlen, pos, room, res, all);
      if res == 0 { return 0; }
      pos := pos + res;
      i := i + 1;
    }
    NothingMore(t, compat, entry[i..], rank, bound);
    AllGrown(all, d0, dst[..], at, dstlen, pos);
    return pos;
  }

  lemma OneStored(d: seq<nat>, d': seq<nat>, at: nat, dstlen: nat, ch: nat)
    requires SameOutside(d, d', at, 1) && 1 <= dstlen && at + dstlen <= |d| && d'[at] == ch
    ensures Done([ch], d, d', at, dstlen, 1)
  {
  }

  lemma TooLong(e: seq<nat>, d: seq<nat>, d': seq<nat>, at: nat, dstlen: nat)
    requires SameOutside(d, d', at, dstlen) && at + dstlen <= |d| && dstlen < |e|
    ensures Done(e, d, d', at, dstlen, 0)
  {
  }

  lemma ExpandIs(t: Tables, compat: bool, ch: nat, rank: nat -> nat)
    requires Acyclic(t, compat, rank)
    ensures LooksUp(t, Low(ch))
    ensures var entry := Entry(t, compat, Low(ch));
            && (forall i :: 0 <= i < |entry| ==> rank(Low(entry[i])) < rank(Low(ch)))
            && Expand(t, compat, ch, rank)
               == if entry == [] then [ch] else ExpandAll(t, compat, entry, rank, rank(Low(ch)))
  {
  }

  // The character itself is stored first, and then overwritten.
  ghost function Touched(pos: nat): nat { if pos == 0 then 1 else pos }

  lemma FirstStored(d: seq<nat>, d': seq<nat>, at: nat, n: nat)
    requires at < |d| == |d'| && 0 < n && d' == d[at := d'[at]]
    ensures SameOutside(d, d', at, 1) && SameOutside(d, d', at, n)
  {
  }

  lemma NothingYet(d: seq<nat>, at: nat, all: seq<nat>)
    requires at <= |d|
    ensures Growing(d, at, 0, all, all)
  {
  }

  lemma GrowingLength(d: seq<nat>, at: nat, pos: nat, more: seq<nat>, all: seq<nat>)
    requires Growing(d, at, pos, more, all)
    ensures |all| == pos + |more|
  {
  }

  // After the recursive call for entry[i].
  lemma OneExpanded(t: Tables, compat: bool, entry: seq<nat>, i: nat, rank: nat -> nat, bound: nat,
                    d0: seq<nat>, d: seq<nat>, d': seq<nat>, at: nat, dstlen: nat, pos: nat, room: nat, res: nat,
                        all: seq<nat>)
    requires Acyclic(t, compat, rank) && (forall i :: 0 <= i < |entry| ==> rank(Low(entry[i])) < bound)
    requires i < |entry| && pos <= dstlen - (|entry| - i) && room == dstlen - pos - (|entry| - i - 1)
    requires SameOutside(d0, d, at, Touched(pos)) && SameOutside(d0, d, at, dstlen) && at + dstlen <= |d0|
    requires Growing(d, at, pos, ExpandAll(t, compat, entry[i..], rank, bound), all)
    requires Done(Expand(t, compat, entry[i], rank), d, d', at + pos, room, res)
    ensures SameOutside(d0, d', at, dstlen)
    ensures res == 0 ==> Done(all, d0, d', at, dstlen, 0)
    ensures res > 0 ==> SameOutside(d0, d', at, pos + res) && pos + res <= dstlen - (|entry| - i - 1)
    ensures res > 0 ==> Growing(d', at, pos + res, ExpandAll(t, compat, entry[i + 1..], rank, bound), all)
  {
    hide Acyclic, Expand, ExpandAll, SameOutside, Growing;
    var e, more := Expand(t, compat, entry[i], rank), ExpandAll(t, compat, entry[i + 1..], rank, bound);
    ExpandOne(t, compat, entry, i, rank, bound);
    GrowingLength(d, at, pos, e + more, all);
    Widened(d0, d, d', at, dstlen, at + pos, if res > 0 then res else room);
    if res > 0 {
      WidenedBy(d0, d, d', at, pos, res);
      Grown(d, d', at, pos, res, e, more, all);
    } else {
      TooLong(all, d0, d', at, dstlen);
    }
  }

  lemma AllGrown(e: seq<nat>, d: seq<nat>, d': seq<nat>, at: nat, dstlen: nat, pos: nat)
    requires Growing(d', at, pos, [], e) && SameOutside(d, d', at, Touched(pos)) && 0 < pos <= dstlen
             && at + dstlen <= |d|
    ensures Done(e, d, d', at, dstlen, pos)
  {
  }

  lemma ExpandOne(t: Tables, compat: bool, s: seq<nat>, i: nat, rank: nat -> nat, bound: nat)
    requires Acyclic(t, compat, rank) && i < |s|
    requires forall i :: 0 <= i < |s| ==> rank(Low(s[i])) < bound
    ensures ExpandAll(t, compat, s[i..], rank, bound)
         == Expand(t, compat, s[i], rank) + ExpandAll(t, compat, s[i + 1..], rank, bound)
  {
  }

  lemma NothingMore(t: Tables, compat: bool, s: seq<nat>, rank: nat -> nat, bound: nat)
    requires Acyclic(t, compat, rank) && s == []
    ensures ExpandAll(t, compat, s, rank, bound) == []
  {
  }

  // ---------------------------------------------------------------- expansion is complete

  ghost predicate Settled(t: Tables, compat: bool, s: seq<nat>, rank: nat -> nat)
    requires Acyclic(t, compat, rank)
  {
    forall i :: 0 <= i < |s| ==> Entry(t, compat, Low(s[i])) == []
  }

  // Nothing in a full expansion can be decomposed any further.
  lemma {:induction false} ExpandSettles(t: Tables, compat: bool, ch: nat, rank: nat -> nat)
    requires Acyclic(t, compat, rank)
    ensures Settled(t, compat, Expand(t, compat, ch, rank), rank)
    decreases rank(Low(ch)), 1, 0
  {
    var entry := Entry(t, compat, Low(ch));
    if entry != [] {
      ExpandAllSettles(t, compat, entry, rank, rank(Low(ch)));
    }
  }

  lemma {:induction false} ExpandAllSettles(t: Tables, compat: bool, s: seq<nat>, rank: nat -> nat, bound: nat)
    requires Acyclic(t, compat, rank)
    requires forall i :: 0 <= i < |s| ==> rank(Low(s[i])) < bound
    ensures Settled(t, compat, ExpandAll(t, compat, s, rank, bound), rank)
    decreases bound, 0, |s|
  {
    if s != [] {
      ExpandSettles(t, compat, s[0], rank);
      ExpandAllSettles(t, compat, s[1..], rank, bound);
    }
  }

  // No character but NUL decomposes into something with a NUL in it.
  lemma {:induction false} ExpandHasNoNul(t: Tables, ch: nat, rank: nat -> nat)
    requires Acyclic(t, false, rank) && ch != 0
    ensures 0 !in Expand(t, false, ch, rank)
    decreases rank(Low(ch)), 1, 0
  {
    var entry := Entry(t, false, Low(ch));
    if entry != [] {
      ExpandAllHasNoNul(t, entry, rank, rank(Low(ch)));
    }
  }

  lemma {:induction false} ExpandAllHasNoNul(t: Tables, s: seq<nat>, rank: nat -> nat, bound: nat)
    requires Acyclic(t, false, rank) && 0 !in s
    requires forall i :: 0 <= i < |s| ==> rank(Low(s[i])) < bound
    ensures 0 !in ExpandAll(t, false, s, rank, bound)
    decreases bound, 0, |s|
  {
    if s != [] {
      assert s[0] in s;
      ExpandHasNoNul(t, s[0], rank);
      ExpandAllHasNoNul(t, s[1..], rank, bound);
    }
  }
}
