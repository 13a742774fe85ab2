/**
 * Sort keys (sortkey.c, the first half). Case folding, character types and
 * collation elements are a parameter.
 */
module SortKeys {
  import opened Basics

  datatype Alphabet = Alphabet(isSymbol: nat -> bool, lower: nat -> nat, element: nat -> nat)

  datatype Flags = Flags(ignoreSymbols: bool, ignoreCase: bool, stopOnNull: bool)

  const NO_ELEMENT := 0xFFFF_FFFF

  // ---------------------------------------------------------------- what one character contributes

  // The character's own bytes, the zero ones left out.
  function OwnBytes(wch: nat): seq<Byte> {
    (if wch / 0x100 != 0 then [wch / 0x100 % 0x100] else []) + (if wch % 0x100 != 0 then [wch % 0x100] else [])
  }

  // Its contribution to section k: primary, diacritic and case weight, and the character itself.
  function Part(a: Alphabet, k: nat, wch: nat): (p: seq<Byte>)
    requires k < 4
    ensures |p| <= 4
  {
    var ce := a.element(wch);
    if ce == NO_ELEMENT then
      if k == 0 then [0xFF, 0xFE] + OwnBytes(wch) else []
    else if k == 0 then
      if ce / 0x10000 != 0 then [ce / 0x1000000 % 0x100, ce / 0x10000 % 0x100] else []
    else if k == 1 then
      if ce / 0x100 % 0x100 != 0 then [(ce / 0x100 % 0x100 + 1) % 0x100] else []
    else if k == 2 then
      if ce / 0x10 % 0x10 != 0 then [ce / 0x10 % 0x10 + 1] else []
    else if ce % 2 == 1 then OwnBytes(wch)
    else []
  }

  // What the first pass counts for it. For section 3 it counts the low byte even if that is zero.
  function Counted(a: Alphabet, k: nat, wch: nat): nat
    requires k < 4
  {
    if k == 3 && a.element(wch) != NO_ELEMENT && a.element(wch) % 2 == 1 then (if wch / 0x100 != 0 then 2 else 1)
    else |Part(a, k, wch)|
  }

  // ---------------------------------------------------------------- the key of a string

  // The characters that take part.
  function Effective(a: Alphabet, f: Flags, s: seq<nat>): seq<nat> {
    if s == [] || (f.stopOnNull && s[0] == 0) then []
    else if f.ignoreSymbols && a.isSymbol(s[0]) then Effective(a, f, s[1..])
    else [if f.ignoreCase then a.lower(s[0]) else s[0]] + Effective(a, f, s[1..])
  }

  function Section(a: Alphabet, k: nat, t: seq<nat>): seq<Byte>
    requires k < 4
  {
    if t == [] then [] else Section(a, k, t[..|t| - 1]) + Part(a, k, t[|t| - 1])
  }

  function Count(a: Alphabet, k: nat, t: seq<nat>): nat
    requires k < 4
  {
    if t == [] then 0 else Count(a, k, t[..|t| - 1]) + Counted(a, k, t[|t| - 1])
  }

  // Four sections, each closed by 1, and a NUL.
  function Key(a: Alphabet, t: seq<nat>): seq<Byte> {
    (Section(a, 0, t) + [1]) + (Section(a, 1, t) + [1]) + (Section(a, 2, t) + [1]) + (Section(a, 3, t) + [1] + [0])
  }

  // The answer to the size query.
  function Size(a: Alphabet, t: seq<nat>): nat {
    Count(a, 0, t) + Count(a, 1, t) + Count(a, 2, t) + Count(a, 3, t) + 4
  }

  // A level-3 character whose low byte is zero.
  predicate LosesByte(a: Alphabet, wch: nat) {
    a.element(wch) != NO_ELEMENT && a.element(wch) % 2 == 1 && wch % 0x100 == 0
  }

  // Sections 0 to 2 have exactly the counted size; section 3 falls short of it
  // exactly when the string holds a character that loses a byte.
  lemma {:induction false} CountIsSize(a: Alphabet, k: nat, t: seq<nat>)
    requires k < 4
    ensures |Section(a, k, t)| <= Count(a, k, t)
    ensures k < 3 ==> |Section(a, k, t)| == Count(a, k, t)
    ensures k == 3 ==> (|Section(a, k, t)| == Count(a, k, t) <==> forall i :: 0 <= i < |t| ==> !LosesByte(a, t[i]))
  {
    if t != [] {
      var init, last := t[..|t| - 1], t[|t| - 1];
      CountIsSize(a, k, init);
      assert |Part(a, k, last)| <= Counted(a, k, last);
      assert k == 3 ==> (|Part(a, k, last)| == Counted(a, k, last) <==> !LosesByte(a, last));
      hide Part, Counted, LosesByte;
      assert forall i :: 0 <= i < |t| ==> t[i] == if i < |init| then init[i] else last;
    }
  }

  // The length returned is never above the query, and equal to it just when no byte is lost.
  lemma KeyLength(a: Alphabet, t: seq<nat>)
    ensures |Key(a, t)| - 1 <= Size(a, t)
    ensures |Key(a, t)| - 1 == Size(a, t) <==> forall i :: 0 <= i < |t| ==> !LosesByte(a, t[i])
  {
    CountIsSize(a, 0, t);
    CountIsSize(a, 1, t);
    CountIsSize(a, 2, t);
    CountIsSize(a, 3, t);
    hide Section, Count, LosesByte;
  }

  // ---------------------------------------------------------------- writing it

  // Where the four sections stand in dst: capacities include the closing bytes.
  datatype Layout = Layout(was: seq<Byte>, start: seq<nat>, room: seq<nat>)

  ghost predicate LaidOut(o: Layout) {
    && |o.start| == 4 && |o.room| == 4 && o.start[0] == 0
    && o.start[1] == o.start[0] + o.room[0] && o.start[2] == o.start[1] + o.room[1]
       && o.start[3] == o.start[2] + o.room[2]
    && o.start[3] + o.room[3] <= |o.was|
  }

  ghost predicate Inside(o: Layout, done: seq<seq<Byte>>, k: nat, i: int)
    requires |o.start| == 4 == |done| && k < 4
  {
    o.start[k] <= i < o.start[k] + |done[k]|
  }

  // dst holds what was written to each section, and its old bytes elsewhere.
  ghost predicate Keyed(o: Layout, d: seq<Byte>, done: seq<seq<Byte>>, ptr: seq<nat>) {
    && LaidOut(o) && |d| == |o.was| && |done| == 4 && |ptr| == 4
    && (forall k :: 0 <= k < 4 ==> |done[k]| <= o.room[k] && ptr[k] == o.start[k] + |done[k]|)
    && (forall k, i :: 0 <= k < 4 && Inside(o, done, k, i) ==> d[i] == done[k][i - o.start[k]])
    && (forall i :: 0 <= i < |d| && (forall k :: 0 <= k < 4 ==> !Inside(o, done, k, i)) ==> d[i] == o.was[i])
  }

  // One byte more in section k is inside it, right behind the others.
  lemma InsideOne(o: Layout, done: seq<seq<Byte>>, k: nat, x: Byte, j: nat, i: int)
    requires |o.start| == 4 == |done| && k < 4 && j < 4
    ensures Inside(o, done[k := done[k] + [x]], j, i)
            <==> Inside(o, done, j, i) || (j == k && i == o.start[k] + |done[k]|)
  {
  }

  // No section has its place yet.
  lemma AtIsFree(o: Layout, done: seq<seq<Byte>>, k: nat, at: nat)
    requires LaidOut(o) && |done| == 4 && k < 4 && forall j :: 0 <= j < 4 ==> |done[j]| <= o.room[j]
    requires |done[k]| < o.room[k] && at == o.start[k] + |done[k]|
    ensures at < |o.was| && forall j :: 0 <= j < 4 ==> !Inside(o, done, j, at)
  {
  }

  lemma KeyedOne(o: Layout, d: seq<Byte>, done: seq<seq<Byte>>, ptr: seq<nat>, k: nat, x: Byte)
    requires Keyed(o, d, done, ptr) && k < 4 && |done[k]| < o.room[k]
    ensures ptr[k] < |d| && Keyed(o, d[ptr[k] := x], done[k := done[k] + [x]], ptr[k := ptr[k] + 1])
  {
    var at := ptr[k];
    AtIsFree(o, done, k, at);
    var d', done' := d[at := x], done[k := done[k] + [x]];
    forall j, i | 0 <= j < 4 && Inside(o, done', j, i) ensures d'[i] == done'[j][i - o.start[j]] {
      InsideOne(o, done, k, x, j, i);
    }
    forall i | 0 <= i < |d| && (forall j :: 0 <= j < 4 ==> !Inside(o, done', j, i)) ensures d'[i] == o.was[i] {
      InsideOne(o, done, k, x, k, i);
      forall j | 0 <= j < 4 ensures !Inside(o, done, j, i) {
        InsideOne(o, done, k, x, j, i);
      }
    }
  }

  // *key_ptr[k]++ = x
  method Emit(dst: array<Byte>, ptr: seq<nat>, k: nat, x: Byte, ghost o: Layout, ghost done: seq<seq<Byte>>)
    returns (next: seq<nat>, ghost now: seq<seq<Byte>>)
    requires Keyed(o, dst[..], done, ptr) && k < 4 && |done[k]| < o.room[k]
    modifies dst
    ensures now == done[k := done[k] + [x]] && Keyed(o, dst[..], now, next)
  {
    ghost var d := dst[..];
    KeyedOne(o, d, done, ptr, k, x);
    dst[ptr[k]] := x;
    assert dst[..] == d[ptr[k] := x];
    next, now := ptr[k := ptr[k] + 1], done[k := done[k] + [x]];
  }

  // The non-zero bytes of the character itself.
  method EmitOwnBytes(dst: array<Byte>, ptr: seq<nat>, k: nat, wch: nat, ghost o: Layout, ghost done: seq<seq<Byte>>)
    returns (next: seq<nat>, ghost now: seq<seq<Byte>>)
    requires Keyed(o, dst[..], done, ptr) && k < 4 && |done[k]| + |OwnBytes(wch)| <= o.room[k]
    modifies dst
    ensures now == done[k := done[k] + OwnBytes(wch)] && Keyed(o, dst[..], now, next)
  {
    assert |done| == 4;
    next, now := ptr, done;
    if wch / 0x100 != 0 { next, now := Emit(dst, next, k, wch / 0x100 % 0x100, o, now); }
    if wch % 0x100 != 0 { next, now := Emit(dst, next, k, wch % 0x100, o, now); }
    hide Keyed;
    assert now[k] == done[k] + OwnBytes(wch);
  }

  ghost predicate Fits(o: Layout, done: seq<seq<Byte>>, k: nat, p: seq<Byte>) {
    k < 4 && |done| == 4 && |o.room| == 4 && |done[k]| + |p| <= o.room[k]
  }

  // Keys 1 and 2 start from 2.
  method EmitWeight(dst: array<Byte>, ptr: seq<nat>, k: nat, key: Byte, ghost o: Layout, ghost done: seq<seq<Byte>>)
    returns (next: seq<nat>, ghost now: seq<seq<Byte>>)
    requires Keyed(o, dst[..], done, ptr) && k < 4 && (key != 0 ==> |done[k]| < o.room[k])
    modifies dst
    ensures now == done[k := done[k] + (if key != 0 then [(key as int + 1) % 0x100] else [])]
    ensures Keyed(o, dst[..], now, next)
  {
    assert |done| == 4;
    next, now := ptr, done;
    hide Keyed;
    if key != 0 { next, now := Emit(dst, next, k, (key as int + 1) % 0x100, o, now); }
    assert done[k] + [] == done[k];
  }

  method EmitPrimary(a: Alphabet, wch: nat, dst: array<Byte>, ptr: seq<nat>, ghost o: Layout,
                     ghost done: seq<seq<Byte>>)
    returns (next: seq<nat>, ghost now: seq<seq<Byte>>)
    requires Keyed(o, dst[..], done, ptr) && Fits(o, done, 0, Part(a, 0, wch))
    modifies dst
    ensures now == done[0 := done[0] + Part(a, 0, wch)] && Keyed(o, dst[..], now, next)
  {
    hide Keyed, OwnBytes;
    next, now := ptr, done;
    var ce := a.element(wch);
    if ce == NO_ELEMENT {
      next, now := Emit(dst, next, 0, 0xFF, o, now);
      next, now := Emit(dst, next, 0, 0xFE, o, now);
      next, now := EmitOwnBytes(dst, next, 0, wch, o, now);
      assert now[0] == done[0] + ([0xFF, 0xFE] + OwnBytes(wch));
    } else if ce / 0x10000 != 0 {
      next, now := Emit(dst, next, 0, ce / 0x1000000 % 0x100, o, now);
      next, now := Emit(dst, next, 0, ce / 0x10000 % 0x100, o, now);
      assert now[0] == done[0] + [ce / 0x1000000 % 0x100, ce / 0x10000 % 0x100];
    } else {
      assert done[0] + [] == done[0];
    }
  }

  // One character of the fill pass.
  method EmitChar(a: Alphabet, wch: nat, dst: array<Byte>, ptr: seq<nat>, ghost o: Layout, ghost done: seq<seq<Byte>>)
    returns (next: seq<nat>, ghost now: seq<seq<Byte>>)
    requires Keyed(o, dst[..], done, ptr)
    requires forall k :: 0 <= k < 4 ==> Fits(o, done, k, Part(a, k, wch))
    modifies dst
    ensures |now| == 4 && (forall k :: 0 <= k < 4 ==> now[k] == done[k] + Part(a, k, wch))
    ensures Keyed(o, dst[..], now, next)
  {
    PartsAboveZero(a, wch);
    hide Keyed, OwnBytes, Part;
    assert Fits(o, done, 0, Part(a, 0, wch)) && Fits(o, done, 1, Part(a, 1, wch));
    assert Fits(o, done, 2, Part(a, 2, wch)) && Fits(o, done, 3, Part(a, 3, wch));
    var ce := a.element(wch);
    next, now := EmitPrimary(a, wch, dst, ptr, o, done);
    if ce != NO_ELEMENT {
      next, now := EmitWeight(dst, next, 1, ce / 0x100 % 0x100, o, now);
      next, now := EmitWeight(dst, next, 2, ce / 0x10 % 0x10, o, now);
      if ce % 2 == 1 { next, now := EmitOwnBytes(dst, next, 3, wch, o, now); }
    }
  }

  lemma PartsAboveZero(a: Alphabet, wch: nat)
    ensures var ce := a.element(wch);
            && Part(a, 1, wch) == (if ce != NO_ELEMENT && ce / 0x100 % 0x100 != 0
                                   then [(ce / 0x100 % 0x100 + 1) % 0x100] else [])
            && Part(a, 2, wch) == (if ce != NO_ELEMENT && ce / 0x10 % 0x10 != 0 then [(ce / 0x10 % 0x10 + 1) % 0x100]
                                   else [])
            && Part(a, 3, wch) == (if ce != NO_ELEMENT && ce % 2 == 1 then OwnBytes(wch) else [])
  {
  }

  // ---------------------------------------------------------------- both passes

  // What the two passes go through: the characters seen, and those to come.
  ghost predicate Seen(a: Alphabet, f: Flags, src: seq<nat>, i: nat, seen: seq<nat>, all: seq<nat>) {
    i <= |src| && seen + Effective(a, f, src[i..]) == all
  }

  // One character of either pass: whether it ends the string, is skipped, or counts.
  method Next(a: Alphabet, f: Flags, src: seq<nat>, i: nat, ghost seen: seq<nat>, ghost all: seq<nat>)
    returns (stop: bool, skip: bool, wch: nat, ghost now: seq<nat>)
    requires i < |src| && Seen(a, f, src, i, seen, all)
    ensures stop ==> seen == all
    ensures !stop && skip ==> now == seen
    ensures !stop && !skip ==> now == seen + [wch] && now <= all
    ensures !stop ==> Seen(a, f, src, i + 1, now, all)
  {
    wch, now := src[i], seen;
    assert src[i..][1..] == src[i + 1..];
    stop := wch == 0 && f.stopOnNull;
    skip := f.ignoreSymbols && a.isSymbol(wch);
    if f.ignoreCase { wch := a.lower(wch); }
    if !stop && !skip {
      now := seen + [wch];
      assert seen + ([wch] + Effective(a, f, src[i + 1..])) == now + Effective(a, f, src[i + 1..]);
    }
  }

  lemma OneMore(a: Alphabet, k: nat, t: seq<nat>, wch: nat)
    requires k < 4
    ensures Section(a, k, t + [wch]) == Section(a, k, t) + Part(a, k, wch)
    ensures Count(a, k, t + [wch]) == Count(a, k, t) + Counted(a, k, wch)
  {
  }

  lemma {:induction false} CountGrows(a: Alphabet, k: nat, t: seq<nat>, all: seq<nat>)
    requires k < 4 && t <= all
    ensures Count(a, k, t) <= Count(a, k, all)
  {
    hide Counted;
    if |t| < |all| {
      assert t <= all[..|all| - 1];
      CountGrows(a, k, t, all[..|all| - 1]);
    } else {
      assert t == all;
    }
  }

  method CountChar(a: Alphabet, wch: nat, n: seq<nat>) returns (m: seq<nat>)
    requires |n| == 4
    ensures |m| == 4 && forall k :: 0 <= k < 4 ==> m[k] == n[k] + Counted(a, k, wch)
  {
    var ce := a.element(wch);
    m := n;
    if ce != NO_ELEMENT {
      if ce / 0x10000 != 0 { m := m[0 := m[0] + 2]; }
      if ce / 0x100 % 0x100 != 0 { m := m[1 := m[1] + 1]; }
      if ce / 0x10 % 0x10 != 0 { m := m[2 := m[2] + 1]; }
      if ce % 2 == 1 {
        if wch / 0x100 != 0 { m := m[3 := m[3] + 1]; }
        m := m[3 := m[3] + 1];
      }
    } else {
      m := m[0 := m[0] + 2];
      if wch / 0x100 != 0 { m := m[0 := m[0] + 1]; }
      if wch % 0x100 != 0 { m := m[0 := m[0] + 1]; }
    }
  }

  ghost predicate Counts(a: Alphabet, t: seq<nat>, n: seq<nat>) {
    |n| == 4 && forall k :: 0 <= k < 4 ==> n[k] == Count(a, k, t)
  }

  // The first pass.
  method Measure(a: Alphabet, f: Flags, src: seq<nat>) returns (n: seq<nat>)
    ensures Counts(a, Effective(a, f, src), n)
  {
    hide Effective, Count, Counted, Seen;
    ghost var all := Effective(a, f, src);
    ghost var seen: seq<nat> := [];
    n := [0, 0, 0, 0];
    var i := 0;
    AtStart(a, f, src);
    while i < |src|
      invariant 0 <= i <= |src| && Seen(a, f, src, i, seen, all) && Counts(a, seen, n)
    {
      ghost var before := seen;
      var stop, skip, wch;
      stop, skip, wch, seen := Next(a, f, src, i, seen, all);
      if stop { return; }
      if !skip {
        n := CountChar(a, wch, n);
        forall k | 0 <= k < 4 ensures n[k] == Count(a, k, seen) { OneMore(a, k, before, wch); }
      }
      i := i + 1;
    }
    AtEnd(a, f, src, i, seen, all);
  }

  lemma AtStart(a: Alphabet, f: Flags, src: seq<nat>)
    ensures Seen(a, f, src, 0, [], Effective(a, f, src)) && Counts(a, [], [0, 0, 0, 0])
    ensures forall k :: 0 <= k < 4 ==> Section(a, k, []) == []
  {
  }

  lemma AtEnd(a: Alphabet, f: Flags, src: seq<nat>, i: nat, seen: seq<nat>, all: seq<nat>)
    requires i == |src| && Seen(a, f, src, i, seen, all)
    ensures seen == all
  {
  }

  ghost predicate Sections(a: Alphabet, t: seq<nat>, done: seq<seq<Byte>>) {
    |done| == 4 && forall k :: 0 <= k < 4 ==> done[k] == Section(a, k, t)
  }

  // The room that was counted.
  ghost predicate RoomFor(a: Alphabet, all: seq<nat>, o: Layout) {
    |o.room| == 4 && (forall k :: 0 <= k < 4 ==> o.room[k] == Count(a, k, all) + (if k < 3 then 1 else 2))
  }

  lemma RoomSuffices(a: Alphabet, all: seq<nat>, o: Layout, seen: seq<nat>, wch: nat, done: seq<seq<Byte>>)
    requires RoomFor(a, all, o) && seen + [wch] <= all && Sections(a, seen, done)
    ensures forall k :: 0 <= k < 4 ==> Fits(o, done, k, Part(a, k, wch))
    ensures forall k :: 0 <= k < 4 ==> done[k] + Part(a, k, wch) == Section(a, k, seen + [wch])
  {
    forall k | 0 <= k < 4
      ensures Fits(o, done, k, Part(a, k, wch)) && done[k] + Part(a, k, wch) == Section(a, k, seen + [wch])
    {
      OneMore(a, k, seen, wch);
      CountIsSize(a, k, seen + [wch]);
      CountGrows(a, k, seen + [wch], all);
    }
  }

  // The second pass.
  method Fill(a: Alphabet, f: Flags, src: seq<nat>, dst: array<Byte>, start: seq<nat>, ghost o: Layout)
    returns (ptr: seq<nat>, ghost done: seq<seq<Byte>>)
    requires RoomFor(a, Effective(a, f, src), o) && Keyed(o, dst[..], [[], [], [], []], start)
    modifies dst
    ensures Sections(a, Effective(a, f, src), done) && Keyed(o, dst[..], done, ptr)
  {
    hide Effective, Section, Part, Seen, Keyed, RoomFor, Fits;
    ghost var all := Effective(a, f, src);
    ghost var seen: seq<nat> := [];
    ptr, done := start, [[], [], [], []];
    var i := 0;
    AtStart(a, f, src);
    while i < |src|
      invariant 0 <= i <= |src| && Seen(a, f, src, i, seen, all)
      invariant Sections(a, seen, done) && Keyed(o, dst[..], done, ptr)
    {
      ghost var before := seen;
      var stop, skip, wch;
      stop, skip, wch, seen := Next(a, f, src, i, seen, all);
      if stop { return; }
      if !skip {
        RoomSuffices(a, all, o, before, wch, done);
        ptr, done := EmitChar(a, wch, dst, ptr, o, done);
      }
      i := i + 1;
    }
    AtEnd(a, f, src, i, seen, all);
  }

  // All four sections closed.
  lemma Assembled(a: Alphabet, t: seq<nat>, o: Layout, d: seq<Byte>, done: seq<seq<Byte>>, ptr: seq<nat>)
    requires Keyed(o, d, done, ptr) && RoomFor(a, t, o)
    requires forall k :: 0 <= k < 3 ==> done[k] == Section(a, k, t) + [1]
    requires done[3] == Section(a, 3, t) + [1] + [0]
    ensures ptr[3] == |Key(a, t)| <= |d| && d == Key(a, t) + o.was[|Key(a, t)|..]
  {
    hide Section, Count, Keyed;
    Offsets(a, t, o, d, done, ptr);
    SectionStands(o, d, done, ptr, 0);
    SectionStands(o, d, done, ptr, 1);
    SectionStands(o, d, done, ptr, 2);
    SectionStands(o, d, done, ptr, 3);
    RestStands(o, d, done, ptr);
    FourInARow(d, done[0], done[1], done[2], done[3]);
  }

  // The first three sections fill the room counted for them.
  lemma Offsets(a: Alphabet, t: seq<nat>, o: Layout, d: seq<Byte>, done: seq<seq<Byte>>, ptr: seq<nat>)
    requires Keyed(o, d, done, ptr) && RoomFor(a, t, o)
    requires forall k :: 0 <= k < 3 ==> done[k] == Section(a, k, t) + [1]
    ensures |done| == |o.start| == |ptr| == 4 && o.start[0] == 0 && o.start[1] == |done[0]|
    ensures o.start[2] == |done[0]| + |done[1]| && o.start[3] == |done[0]| + |done[1]| + |done[2]|
    ensures ptr[3] == o.start[3] + |done[3]| <= |d| == |o.was|
  {
    CountIsSize(a, 0, t);
    CountIsSize(a, 1, t);
    CountIsSize(a, 2, t);
    hide Section, Count, Inside;
    assert |done[0]| == o.room[0] && |done[1]| == o.room[1] && |done[2]| == o.room[2];
  }

  lemma SectionStands(o: Layout, d: seq<Byte>, done: seq<seq<Byte>>, ptr: seq<nat>, k: nat)
    requires Keyed(o, d, done, ptr) && k < 4
    ensures o.start[k] + |done[k]| <= |d| && d[o.start[k]..o.start[k] + |done[k]|] == done[k]
  {
  }

  // Past the fourth section, when the first three leave no gap.
  lemma RestStands(o: Layout, d: seq<Byte>, done: seq<seq<Byte>>, ptr: seq<nat>)
    requires Keyed(o, d, done, ptr)
    ensures o.start[3] + |done[3]| <= |d| && d[o.start[3] + |done[3]|..] == o.was[o.start[3] + |done[3]|..]
  {
  }

  lemma FourInARow(d: seq<Byte>, s0: seq<Byte>, s1: seq<Byte>, s2: seq<Byte>, s3: seq<Byte>)
    requires |s0| + |s1| + |s2| + |s3| <= |d|
    requires d[..|s0|] == s0 && d[|s0|..|s0| + |s1|] == s1
    requires d[|s0| + |s1|..|s0| + |s1| + |s2|] == s2
    requires d[|s0| + |s1| + |s2|..|s0| + |s1| + |s2| + |s3|] == s3
    ensures var key := s0 + s1 + s2 + s3; d == key + d[|key|..]
  {
  }

  // wine_get_sortkey
  method GetSortKey(a: Alphabet, f: Flags, src: seq<nat>, dst: array<Byte>, dstlen: nat) returns (n: nat)
    requires dstlen <= dst.Length
    modifies dst
    ensures var t := Effective(a, f, src);
            if dstlen == 0 then n == Size(a, t) && dst[..] == old(dst[..])
            else if dstlen < Size(a, t) + 1 then n == 0 && dst[..] == old(dst[..])
            else n + 1 == |Key(a, t)| <= dstlen && dst[..] == Key(a, t) + old(dst[|Key(a, t)|..])
  {
    hide Effective, Section, Count, Keyed, LosesByte;
    ghost var t := Effective(a, f, src);
    KeyLength(a, t);
    var len := Measure(a, f, src);
    if dstlen == 0 { return len[0] + len[1] + len[2] + len[3] + 4; }
    if dstlen < len[0] + len[1] + len[2] + len[3] + 4 + 1 { return 0; }
    var start := [0, len[0] + 1, len[0] + 1 + len[1] + 1, len[0] + 1 + len[1] + 1 + len[2] + 1];
    ghost var o := Layout(dst[..], start, [len[0] + 1, len[1] + 1, len[2] + 1, len[3] + 2]);
    NothingWritten(o);
    var ptr;
    ghost var done;
    ptr, done := Fill(a, f, src, dst, start, o);
    n := Close(a, t, dst, ptr, o, done);
  }

  lemma NothingWritten(o: Layout)
    requires LaidOut(o)
    ensures Keyed(o, o.was, [[], [], [], []], o.start)
  {
  }

  // The separators and the terminator.
  method Close(a: Alphabet, ghost t: seq<nat>, dst: array<Byte>, ptr: seq<nat>, ghost o: Layout,
               ghost done: seq<seq<Byte>>)
    returns (n: nat)
    requires RoomFor(a, t, o) && Sections(a, t, done) && Keyed(o, dst[..], done, ptr)
    modifies dst
    ensures n + 1 == |Key(a, t)| <= dst.Length && dst[..] == Key(a, t) + o.was[|Key(a, t)|..]
  {
    assert |ptr| == 4;
    CountIsSize(a, 0, t);
    CountIsSize(a, 1, t);
    CountIsSize(a, 2, t);
    CountIsSize(a, 3, t);
    hide Keyed, Section, Count, Key;
    var p := ptr;
    ghost var now := done;
    p, now := Emit(dst, p, 0, 1, o, now);
    p, now := Emit(dst, p, 1, 1, o, now);
    p, now := Emit(dst, p, 2, 1, o, now);
    p, now := Emit(dst, p, 3, 1, o, now);
    p, now := Emit(dst, p, 3, 0, o, now);
    Assembled(a, t, o, dst[..], now, p);
    return p[3] - 1;
  }
}
