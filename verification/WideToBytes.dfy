/**
 * Conversion to a single- or double-byte codepage (wctomb.c). The tables are
 * abstract, and so is composition of two characters; text is 16-bit units.
 */
module WideToBytes {
  import opened Basics
  import opened Buffers
  import opened Unrolled

  datatype Tables =
    | Sbcs(defChar: Unit, cp2uni: seq<Unit>, low: seq<Unit>, high: seq<Unit>)
    | Dbcs(defChar: Unit, cp2uni: seq<Unit>, low: seq<Unit>, high: seq<Unit>, leadBytes: seq<Byte>)

  // 'other' stands for flag bits without effect here except that flags are given.
  datatype Flags = Flags(compositeCheck: bool, discardNS: bool, defaultChar: bool, noBestFit: bool, other: bool)

  // The caller's default character: none, or a NUL-terminated string of up to two bytes.
  datatype DefChar = Absent | Given(first: Byte, second: Byte)

  ghost predicate WellFormed(t: Tables) {
    && |t.high| == 0x100 && (forall h :: 0 <= h < 0x100 ==> t.high[h] as int + 0x100 <= |t.low|)
    && |t.cp2uni| >= 0x100
    && (t.Sbcs? ==> forall i :: 0 <= i < |t.low| ==> t.low[i] < 0x100)
    && (t.Dbcs? ==> |t.leadBytes| == 0x100)
    && (t.Dbcs? ==> forall b :: 0 <= b < 0x100 ==> (t.leadBytes[b] as int + 1) * 0x100 <= |t.cp2uni|)
  }

  type Table = t: Tables | WellFormed(t)
    witness Sbcs(0, seq(0x100, i => 0), seq(0x100, i => 0), seq(0x100, i => 0))

  // uni2cp_low[uni2cp_high[wch >> 8] + (wch & 0xff)]
  function Lookup(t: Table, wch: Unit): (res: Unit)
    ensures t.Sbcs? ==> res < 0x100
  {
    t.low[t.high[wch / 0x100] as int + wch % 0x100]
  }

  function OwnDefault(t: Table): Unit { if t.Sbcs? then t.defChar % 0x100 else t.defChar }

  // def in the single-byte case, get_defchar_dbcs in the other
  function Default(t: Table, d: DefChar): Unit {
    if d.Absent? then OwnDefault(t)
    else if t.Sbcs? || d.second == 0 then d.first
    else d.first as int * 0x100 + d.second
  }

  // is_valid_sbcs_mapping, is_valid_dbcs_mapping
  predicate IsValid(t: Table, fl: Flags, wch: Unit, ch: Unit)
    requires t.Sbcs? ==> ch < 0x100
  {
    fl.noBestFit || ch == OwnDefault(t) ==>
      if t.Dbcs? && ch / 0x100 != 0 then t.cp2uni[t.leadBytes[ch / 0x100] as int * 0x100 + ch % 0x100] == wch
      else t.cp2uni[ch % 0x100] == wch
  }

  // The code for the units at the front of s, how many it stands for, and
  // whether the default character had to be used.
  datatype Step = Step(res: Unit, taken: nat, used: bool)

  function OneStep(t: Table, fl: Flags, compose: (Unit, Unit) -> Unit, d: DefChar, s: seq<Unit>): (r: Step)
    requires s != []
    ensures 1 <= r.taken <= |s|
  {
    var own := if IsValid(t, fl, s[0], Lookup(t, s[0])) then Step(Lookup(t, s[0]), 1, false)
               else Step(Default(t, d), 1, true);
    if fl.compositeCheck && |s| > 1 && compose(s[0], s[1]) != 0 then
      var composed := compose(s[0], s[1]);
      if IsValid(t, fl, composed, Lookup(t, composed)) then Step(Lookup(t, composed), 2, false)
      else if fl.defaultChar then Step(Default(t, d), 2, true)
      else if fl.discardNS then own.(taken := 2)
      else own
    else own
  }

  // One byte, or two in a double-byte codepage.
  function Spell(t: Table, res: Unit): (b: seq<Byte>)
    ensures 1 <= |b| <= 2
  {
    if t.Dbcs? && res / 0x100 != 0 then [res / 0x100, res % 0x100] else [res % 0x100]
  }

  datatype Text = Text(bytes: seq<Byte>, used: bool)

  function Encoded(t: Table, fl: Flags, compose: (Unit, Unit) -> Unit, d: DefChar, s: seq<Unit>): Text
    decreases |s|
  {
    if s == [] then Text([], false)
    else
      var step := OneStep(t, fl, compose, d, s);
      var rest := Encoded(t, fl, compose, d, s[step.taken..]);
      Text(Spell(t, step.res) + rest.bytes, step.used || rest.used)
  }

  // Every unit by its table entry, as the fast paths do it.
  function Raw(t: Table, s: seq<Unit>): seq<Byte>
  {
    if s == [] then [] else Spell(t, Lookup(t, s[0])) + Raw(t, s[1..])
  }

  // Slow and fast paths agree: best fits allowed, no composing, no default of the caller's.
  lemma {:induction false} SlowIsFast(t: Table, fl: Flags, compose: (Unit, Unit) -> Unit, s: seq<Unit>)
    requires !fl.compositeCheck && !fl.noBestFit
    ensures Encoded(t, fl, compose, Absent, s).bytes == Raw(t, s)
  {
    hide Lookup, Spell;
    if s != [] {
      SlowIsFast(t, fl, compose, s[1..]);
      assert Spell(t, OneStep(t, fl, compose, Absent, s).res) == Spell(t, Lookup(t, s[0]));
    }
  }

  function Code(t: Table): Unit -> Byte { x => Lookup(t, x) % 0x100 }

  // In a single-byte codepage that is an elementwise map.
  lemma {:induction false} RawIsMap(t: Table, s: seq<Unit>)
    requires t.Sbcs?
    ensures Raw(t, s) == Map(Code(t), s)
  {
    if s != [] {
      RawIsMap(t, s[1..]);
      assert Map(Code(t), s) == [Code(t)(s[0])] + Map(Code(t), s[1..]);
    }
  }

  // ---------------------------------------------------------------- size queries

  // The query of a double-byte codepage that looks at the table alone.
  predicate Shortcut(t: Table, fl: Flags, d: DefChar, wantUsed: bool) {
    t.Dbcs? && d.Absent? && !wantUsed && !fl.compositeCheck
  }

  lemma RawFrom(t: Table, s: seq<Unit>, i: nat)
    requires i < |s|
    ensures Raw(t, s[i..]) == Spell(t, Lookup(t, s[i])) + Raw(t, s[i + 1..])
  {
  }

  lemma EncodedFrom(t: Table, fl: Flags, compose: (Unit, Unit) -> Unit, d: DefChar, s: seq<Unit>, i: nat)
    requires i < |s|
    ensures var step := OneStep(t, fl, compose, d, s[i..]);
            var e, rest := Encoded(t, fl, compose, d, s[i..]), Encoded(t, fl, compose, d, s[i + step.taken..]);
            e == Text(Spell(t, step.res) + rest.bytes, step.used || rest.used)
  {
    hide OneStep, Spell;
    var step := OneStep(t, fl, compose, d, s[i..]);
    assert s[i..][step.taken..] == s[i + step.taken..];
  }

  lemma NothingEncoded(t: Table, fl: Flags, compose: (Unit, Unit) -> Unit, d: DefChar, s: seq<Unit>)
    requires s == []
    ensures Encoded(t, fl, compose, d, s) == Text([], false)
  {
  }

  lemma NothingRaw(t: Table, s: seq<Unit>)
    requires s == []
    ensures Raw(t, s) == []
  {
  }

  // get_length_sbcs, get_length_dbcs
  method Length(t: Table, fl: Flags, compose: (Unit, Unit) -> Unit, d: DefChar, src: seq<Unit>, wantUsed: bool)
    returns (n: nat, used: bool)
    ensures Shortcut(t, fl, d, wantUsed) ==> n == |Raw(t, src)|
    ensures !Shortcut(t, fl, d, wantUsed) ==>
              n == |Encoded(t, fl, compose, d, src).bytes| && used == Encoded(t, fl, compose, d, src).used
  {
    hide Raw, Encoded, OneStep, Lookup;
    n, used := 0, false;
    var i := 0;
    assert src[0..] == src;
    if Shortcut(t, fl, d, wantUsed) {
      while i < |src|
        invariant 0 <= i <= |src| && n + |Raw(t, src[i..])| == |Raw(t, src)|
      {
        RawFrom(t, src, i);
        n := n + 1;
        if Lookup(t, src[i]) / 0x100 != 0 { n := n + 1; }
        i := i + 1;
      }
    } else {
      while i < |src|
        invariant 0 <= i <= |src|
        invariant var e, all := Encoded(t, fl, compose, d, src[i..]), Encoded(t, fl, compose, d, src);
                  n + |e.bytes| == |all.bytes| && (used || e.used) == all.used
      {
        EncodedFrom(t, fl, compose, d, src, i);
        var step := OneStep(t, fl, compose, d, src[i..]);
        n := n + 1;
        if t.Dbcs? && step.res / 0x100 != 0 { n := n + 1; }
        used := used || step.used;
        i := i + step.taken;
      }
    }
    NothingEncoded(t, fl, compose, d, src[i..]);
    NothingRaw(t, src[i..]);
  }

  // ---------------------------------------------------------------- conversion

  // One character into dst; the caller has checked that there is room.
  method Put(t: Table, res: Unit, dst: array<Byte>, pos: nat, ghost was: seq<Byte>, ghost dstlen: nat,
             ghost done: seq<Byte>)
    returns (next: nat)
    requires Holds(dst[..], was, dstlen, done) && pos == |done| && 0 < dstlen && pos + |Spell(t, res)| <= dstlen
    modifies dst
    ensures Holds(dst[..], was, dstlen, done + Spell(t, res)) && next == pos + |Spell(t, res)|
  {
    ghost var before := dst[..];
    next := pos;
    if t.Dbcs? && res / 0x100 != 0 {
      dst[next] := res / 0x100;
      next := next + 1;
    }
    dst[next] := res % 0x100;
    next := next + 1;
    hide Holds;
    Appended(before, dst[..], was, dstlen, done, Spell(t, res));
  }

  lemma MoreThanFits(dst: seq<Byte>, was: seq<Byte>, dstlen: nat, done: seq<Byte>, more: seq<Byte>, rest: seq<Byte>,
                     out: seq<Byte>)
    requires Holds(dst, was, dstlen, done) && 0 < dstlen && done + (more + rest) == out
    ensures (done + more) + rest == out
    ensures |done| + |more| > dstlen ==> Delivered(-1, dst, was, dstlen, out)
  {
  }

  // wcstombs_dbcs
  method FastDbcs(t: Table, src: seq<Unit>, dst: array<Byte>, dstlen: nat) returns (n: int)
    requires t.Dbcs? && 0 < dstlen <= dst.Length
    modifies dst
    ensures Delivered(n, dst[..], old(dst[..]), dstlen, Raw(t, src))
  {
    hide Raw, Lookup, Holds, Delivered;
    ghost var was, out := dst[..], Raw(t, src);
    ghost var done: seq<Byte> := [];
    var len, pos, i := dstlen, 0, 0;
    NothingYet(was, dstlen);
    assert src[0..] == src && [] + out == out;
    while i < |src| && len > 0
      invariant 0 <= i <= |src| && pos == |done| && len == dstlen - pos >= 0
      invariant Holds(dst[..], was, dstlen, done) && done + Raw(t, src[i..]) == out
    {
      RawFrom(t, src, i);
      var res := Lookup(t, src[i]);
      MoreThanFits(dst[..], was, dstlen, done, Spell(t, res), Raw(t, src[i + 1..]), out);
      if res / 0x100 != 0 && len == 1 { return -1; }
      pos := Put(t, res, dst, pos, was, dstlen, done);
      done := done + Spell(t, res);
      len := dstlen - pos;
      i := i + 1;
    }
    if i < |src| {
      RawFrom(t, src, i);
      MoreThanFits(dst[..], was, dstlen, done, Spell(t, Lookup(t, src[i])), Raw(t, src[i + 1..]), out);
      return -1;
    }
    NothingRaw(t, src[i..]);
    assert done == out;
    AllWritten(dst[..], was, dstlen, out);
    return dstlen - len;
  }

  // wcstombs_sbcs_slow, wcstombs_dbcs_slow
  method Slow(t: Table, fl: Flags, compose: (Unit, Unit) -> Unit, d: DefChar, src: seq<Unit>, dst: array<Byte>,
              dstlen: nat)
    returns (n: int, used: bool)
    requires 0 < dstlen <= dst.Length
    modifies dst
    ensures Delivered(n, dst[..], old(dst[..]), dstlen, Encoded(t, fl, compose, d, src).bytes)
    ensures n != -1 ==> used == Encoded(t, fl, compose, d, src).used
  {
    hide Encoded, OneStep, Holds, Delivered;
    ghost var was, all := dst[..], Encoded(t, fl, compose, d, src);
    ghost var done: seq<Byte> := [];
    var len, pos, i := dstlen, 0, 0;
    used := false;
    NothingYet(was, dstlen);
    assert src[0..] == src && [] + all.bytes == all.bytes;
    while i < |src| && len > 0
      invariant 0 <= i <= |src| && pos == |done| && len == dstlen - pos >= 0
      invariant Holds(dst[..], was, dstlen, done)
      invariant var e := Encoded(t, fl, compose, d, src[i..]);
                done + e.bytes == all.bytes && (used || e.used) == all.used
    {
      EncodedFrom(t, fl, compose, d, src, i);
      var step := OneStep(t, fl, compose, d, src[i..]);
      ghost var rest := Encoded(t, fl, compose, d, src[i + step.taken..]).bytes;
      MoreThanFits(dst[..], was, dstlen, done, Spell(t, step.res), rest, all.bytes);
      used := used || step.used;
      if t.Dbcs? && step.res / 0x100 != 0 && len == 1 { return -1, used; }
      pos := Put(t, step.res, dst, pos, was, dstlen, done);
      done := done + Spell(t, step.res);
      len := dstlen - pos;
      i := i + step.taken;
    }
    if i < |src| {
      EncodedFrom(t, fl, compose, d, src, i);
      ghost var step := OneStep(t, fl, compose, d, src[i..]);
      MoreThanFits(dst[..], was, dstlen, done, Spell(t, step.res),
                   Encoded(t, fl, compose, d, src[i + step.taken..]).bytes, all.bytes);
      return -1, used;
    }
    NothingEncoded(t, fl, compose, d, src[i..]);
    assert done == all.bytes;
    AllWritten(dst[..], was, dstlen, all.bytes);
    return dstlen - len, used;
  }

  predicate NoFlags(fl: Flags) { fl == Flags(false, false, false, false, false) }

  // The default character takes as many bytes as the refused best fit of u.
  predicate TakesSameRoom(t: Table, fl: Flags, u: Unit) {
    !IsValid(t, fl, u, Lookup(t, u)) ==> |Spell(t, Lookup(t, u))| == |Spell(t, OwnDefault(t))|
  }

  ghost predicate AllTakeSameRoom(t: Table, fl: Flags, s: seq<Unit>) {
    forall i :: 0 <= i < |s| ==> TakesSameRoom(t, fl, s[i])
  }

  // The short-cut query is right about a string exactly if each of its refused
  // best fits takes the room of the default character. Differences do not
  // cancel: they all have the sign that the default character's size gives them.
  lemma {:induction false} ShortcutIsRightIff(t: Table, fl: Flags, compose: (Unit, Unit) -> Unit, s: seq<Unit>)
    requires !fl.compositeCheck
    ensures |Raw(t, s)| == |Encoded(t, fl, compose, Absent, s).bytes| <==> AllTakeSameRoom(t, fl, s)
    ensures if |Spell(t, OwnDefault(t))| == 1 then |Raw(t, s)| >= |Encoded(t, fl, compose, Absent, s).bytes|
            else |Raw(t, s)| <= |Encoded(t, fl, compose, Absent, s).bytes|
  {
    hide Lookup, IsValid, Spell, OwnDefault;
    if s != [] {
      ShortcutIsRightIff(t, fl, compose, s[1..]);
      assert AllTakeSameRoom(t, fl, s) <==> TakesSameRoom(t, fl, s[0]) && AllTakeSameRoom(t, fl, s[1..]);
    }
  }

  // So it is right about every string exactly if the table says so of every unit.
  lemma ShortcutIsRightForTableIff(t: Table, fl: Flags, compose: (Unit, Unit) -> Unit)
    requires !fl.compositeCheck
    ensures (forall s :: |Raw(t, s)| == |Encoded(t, fl, compose, Absent, s).bytes|)
            <==> (forall u: Unit :: TakesSameRoom(t, fl, u))
  {
    hide TakesSameRoom, Raw, Encoded;
    if forall u: Unit :: TakesSameRoom(t, fl, u) {
      forall s: seq<Unit> ensures |Raw(t, s)| == |Encoded(t, fl, compose, Absent, s).bytes| {
        ShortcutIsRightIff(t, fl, compose, s);
      }
    } else {
      var u: Unit :| !TakesSameRoom(t, fl, u);
      ShortcutIsRightIff(t, fl, compose, [u]);
      assert [u][0] == u;
    }
  }

  // wine_cp_wcstombs: whichever paths are taken, the query gives the least
  // buffer that suffices and a call that succeeds returns it. The one exception
  // is the double-byte short cut, which is wrong exactly for strings with a
  // refused best fit of another size than the default character.
  method CpWcsToMbs(t: Table, fl: Flags, compose: (Unit, Unit) -> Unit, src: seq<Unit>, dst: array<Byte>, dstlen: nat,
                    d: DefChar, wantUsed: bool) returns (n: int, used: bool)
    requires dstlen <= dst.Length
    modifies dst
    ensures var e, miscounts := Encoded(t, fl, compose, d, src),
                                dstlen == 0 && Shortcut(t, fl, d, wantUsed) && !AllTakeSameRoom(t, fl, src);
            && (!miscounts ==>
                Delivered(n, dst[..], old(dst[..]), dstlen, e.bytes) && (wantUsed && n != -1 ==> used == e.used))
            && (miscounts ==> n == |Raw(t, src)| != |e.bytes| && dst[..] == old(dst[..]))
  {
    hide Encoded, Raw, Map, AllTakeSameRoom;
    used := false;
    if d.Absent? && !fl.compositeCheck && !fl.noBestFit { SlowIsFast(t, fl, compose, src); }
    if dstlen == 0 && (t.Dbcs? || !NoFlags(fl) || d.Given? || wantUsed) {
      n, used := Length(t, fl, compose, d, src, wantUsed);
      if Shortcut(t, fl, d, wantUsed) { ShortcutIsRightIff(t, fl, compose, src); }
    } else if !NoFlags(fl) || d.Given? || wantUsed {
      n, used := Slow(t, fl, compose, d, src, dst, dstlen);
    } else if t.Dbcs? {
      n := FastDbcs(t, src, dst, dstlen);
    } else {
      RawIsMap(t, src);
      MapLength(Code(t), src);
      if dstlen == 0 { return |src|, used; }
      n := Convert(Code(t), src, dst, dstlen);
      if n >= 0 { assert src[..|src|] == src; }
    }
  }

  // There are such tables: a character whose best fit takes two bytes and whose
  // replacement takes one.
  lemma ShortcutMiscounts()
    ensures exists t: Table, fl: Flags, compose: (Unit, Unit) -> Unit, s: seq<Unit> ::
      fl.noBestFit && Shortcut(t, fl, Absent, false) && |Raw(t, s)| != |Encoded(t, fl, compose, Absent, s).bytes|
  {
    var zeros: seq<Byte> := seq(0x100, i => 0);
    var tables := Dbcs(0x3F, seq(0x100, i => 0), seq(0x100, i => 0x8140), seq(0x100, i => 0), zeros);
    assert WellFormed(tables);
    var t: Table := tables;
    var fl := Flags(false, false, false, true, false);
    var compose: (Unit, Unit) -> Unit := (x, y) => 0;
    var s: seq<Unit> := [1];
    assert s[1..] == [];
    assert Lookup(t, 1) == 0x8140 && !IsValid(t, fl, 1, 0x8140);
    assert OneStep(t, fl, compose, Absent, s) == Step(0x3F, 1, true);
    assert |Raw(t, s)| == 2 && |Encoded(t, fl, compose, Absent, s).bytes| == 1;
  }
}
