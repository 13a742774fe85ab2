/**
 * Conversion from a single- or double-byte codepage (mbtowc.c), plain and with
 * decomposition, and its refusal of invalid characters.
 */
module BytesToWide {
  import opened Basics
  import opened Buffers
  import opened Unrolled
  import D = Decompose

  datatype Page = Single(cp2uni: seq<nat>) | Double(cp2uni: seq<nat>, leadBytes: seq<Byte>)

  ghost predicate WellFormed(p: Page) {
    && |p.cp2uni| >= 0x100
    && (p.Double? ==> |p.leadBytes| == 0x100)
    && (p.Double? ==> forall b :: 0 <= b < 0x100 ==> (p.leadBytes[b] as int + 1) * 0x100 <= |p.cp2uni|)
  }

  type Codepage = p: Page | WellFormed(p) witness Single(seq(0x100, i => 0))

  // Whether a lead byte stands first with a byte to go with it.
  predicate IsPair(p: Codepage, s: seq<Byte>)
    requires s != []
  {
    p.Double? && p.leadBytes[s[0]] != 0 && |s| > 1 && s[1] != 0
  }

  function First(p: Codepage, s: seq<Byte>): nat
    requires s != []
  {
    if IsPair(p, s) then p.cp2uni[p.leadBytes[s[0]] as int * 0x100 + s[1]] else p.cp2uni[s[0]]
  }

  function Chars(p: Codepage, s: seq<Byte>): seq<nat> {
    if s == [] then [] else [First(p, s)] + Chars(p, s[if IsPair(p, s) then 2 else 1..])
  }

  lemma CharsFrom(p: Codepage, s: seq<Byte>, i: nat)
    requires i < |s|
    ensures var k := if IsPair(p, s[i..]) then 2 else 1;
            i + k <= |s| && Chars(p, s[i..]) == [First(p, s[i..])] + Chars(p, s[i + k..])
  {
  }

  lemma NoChars(p: Codepage, s: seq<Byte>)
    requires s == []
    ensures Chars(p, s) == []
  {
  }

  // In a single-byte codepage: one character for each byte.
  function ByCode(p: Codepage, x: Byte): nat { p.cp2uni[x] }

  function ByCodepage(p: Codepage): Byte -> nat { x => ByCode(p, x) }

  lemma {:induction false} CharsIsMap(p: Codepage, s: seq<Byte>)
    requires p.Single?
    ensures Chars(p, s) == Map(ByCodepage(p), s)
  {
    if s != [] {
      CharsIsMap(p, s[1..]);
      assert Map(ByCodepage(p), s) == [ByCodepage(p)(s[0])] + Map(ByCodepage(p), s[1..]);
    }
  }

  // ---------------------------------------------------------------- plain

  // get_length_dbcs
  method LengthDbcs(p: Codepage, src: seq<Byte>) returns (len: nat)
    requires p.Double?
    ensures len == |Chars(p, src)|
  {
    hide Chars, First;
    len := 0;
    var i := 0;
    assert src[0..] == src;
    while i < |src|
      invariant 0 <= i <= |src| && len + |Chars(p, src[i..])| == |Chars(p, src)|
    {
      CharsFrom(p, src, i);
      if IsPair(p, src[i..]) { i := i + 1; }
      i := i + 1;
      len := len + 1;
    }
    NoChars(p, src[i..]);
  }

  // mbstowcs_dbcs
  method MbsToWcsDbcs(p: Codepage, src: seq<Byte>, dst: array<nat>, dstlen: nat) returns (n: int)
    requires p.Double? && dstlen <= dst.Length
    modifies dst
    ensures Delivered(n, dst[..], old(dst[..]), dstlen, Chars(p, src))
  {
    hide Chars, First, Holds, Delivered;
    ghost var was, out := dst[..], Chars(p, src);
    if dstlen == 0 {
      n := LengthDbcs(p, src);
      CountedOnly(was, out);
      return;
    }
    ghost var done: seq<nat> := [];
    var len, pos, i := dstlen, 0, 0;
    NothingYet(was, dstlen);
    assert src[0..] == src && [] + out == out;
    while i < |src| && len > 0
      invariant 0 <= i <= |src| && pos == |done| && len == dstlen - pos
      invariant Holds(dst[..], was, dstlen, done) && done + Chars(p, src[i..]) == out
    {
      CharsFrom(p, src, i);
      ghost var before, c, k := dst[..], First(p, src[i..]), if IsPair(p, src[i..]) then 2 else 1;
      dst[pos] := First(p, src[i..]);
      Appended(before, dst[..], was, dstlen, done, [c]);
      assert done + ([c] + Chars(p, src[i + k..])) == (done + [c]) + Chars(p, src[i + k..]);
      done := done + [c];
      if IsPair(p, src[i..]) { i := i + 1; }
      len, i, pos := len - 1, i + 1, pos + 1;
    }
    if i < |src| {
      CharsFrom(p, src, i);
      Overflowed(dst[..], was, dstlen, done, Chars(p, src[i..]), out);
      return -1;
    }
    NoChars(p, src[i..]);
    assert done == out;
    AllWritten(dst[..], was, dstlen, out);
    return dstlen - len;
  }

  // ---------------------------------------------------------------- with decomposition

  // What the decomposing variants need: acyclic tables with no expansion beyond four characters.
  ghost predicate Decomposes(t: D.Tables, rank: nat -> nat) {
    D.Acyclic(t, false, rank) && forall ch: nat :: |D.Expand(t, false, ch, rank)| <= 4
  }

  ghost function Decomposed(t: D.Tables, rank: nat -> nat, cs: seq<nat>): seq<nat>
    requires Decomposes(t, rank)
  {
    if cs == [] then [] else D.Expand(t, false, cs[0], rank) + Decomposed(t, rank, cs[1..])
  }

  lemma DecomposedFrom(p: Codepage, t: D.Tables, rank: nat -> nat, s: seq<Byte>, i: nat)
    requires Decomposes(t, rank) && i < |s|
    ensures var k := if IsPair(p, s[i..]) then 2 else 1;
            var e := D.Expand(t, false, First(p, s[i..]), rank);
            && i + k <= |s| && 1 <= |e| <= 4
            && Decomposed(t, rank, Chars(p, s[i..])) == e + Decomposed(t, rank, Chars(p, s[i + k..]))
  {
  }

  lemma NothingDecomposed(p: Codepage, t: D.Tables, rank: nat -> nat, s: seq<Byte>)
    requires Decomposes(t, rank) && s == []
    ensures Decomposed(t, rank, Chars(p, s)) == []
  {
  }

  // The query of mbstowcs_sbcs_decompose and mbstowcs_dbcs_decompose, which
  // decomposes into four characters of scratch.
  method LengthDecompose(p: Codepage, t: D.Tables, src: seq<Byte>, ghost rank: nat -> nat) returns (len: nat)
    requires Decomposes(t, rank)
    ensures len == |Decomposed(t, rank, Chars(p, src))|
  {
    hide Decomposed, Chars, First, IsPair, D.Expand, D.Acyclic;
    var dummy := new nat[4];
    len := 0;
    var i := 0;
    assert src[0..] == src;
    while i < |src|
      invariant 0 <= i <= |src|
      invariant len + |Decomposed(t, rank, Chars(p, src[i..]))| == |Decomposed(t, rank, Chars(p, src))|
    {
      DecomposedFrom(p, t, rank, src, i);
      var ch := First(p, src[i..]);
      if IsPair(p, src[i..]) { i := i + 1; }
      var res := D.WineDecompose(t, false, ch, dummy, 0, 4, rank);
      len := len + res;
      i := i + 1;
    }
    NothingDecomposed(p, t, rank, src[i..]);
  }

  // The two variants themselves.
  method MbsToWcsDecompose(p: Codepage, t: D.Tables, src: seq<Byte>, dst: array<nat>, dstlen: nat,
                           ghost rank: nat -> nat)
    returns (n: int)
    requires Decomposes(t, rank) && dstlen <= dst.Length
    modifies dst
    ensures Delivered(n, dst[..], old(dst[..]), dstlen, Decomposed(t, rank, Chars(p, src)))
  {
    hide Decomposed, Chars, First, IsPair, D.Expand, D.Acyclic, D.Done, Holds, Delivered;
    ghost var was, out := dst[..], Decomposed(t, rank, Chars(p, src));
    if dstlen == 0 {
      n := LengthDecompose(p, t, src, rank);
      CountedOnly(was, out);
      return;
    }
    ghost var done: seq<nat> := [];
    var len, pos, i := dstlen, 0, 0;
    NothingYet(was, dstlen);
    assert src[0..] == src && [] + out == out;
    while i < |src| && len > 0
      invariant 0 <= i <= |src| && pos == |done| && len == dstlen - pos
      invariant Holds(dst[..], was, dstlen, done) && done + Decomposed(t, rank, Chars(p, src[i..])) == out
    {
      DecomposedFrom(p, t, rank, src, i);
      var ch, k := First(p, src[i..]), if IsPair(p, src[i..]) then 2 else 1;
      ghost var before, e := dst[..], D.Expand(t, false, ch, rank);
      ghost var more := Decomposed(t, rank, Chars(p, src[i + k..]));
      assert done + (e + more) == (done + e) + more;
      var res := D.WineDecompose(t, false, ch, dst, pos, len, rank);
      OneDecomposed(before, dst[..], was, dstlen, done, e, more, out, res);
      if res == 0 { return -1; }
      done := done + e;
      len, pos, i := len - res, pos + res, i + k;
    }
    if i < |src| {
      DecomposedFrom(p, t, rank, src, i);
      Overflowed(dst[..], was, dstlen, done, Decomposed(t, rank, Chars(p, src[i..])), out);
      return -1;
    }
    NothingDecomposed(p, t, rank, src[i..]);
    assert done == out;
    AllWritten(dst[..], was, dstlen, out);
    return dstlen - len;
  }

  // What one call of wine_decompose leaves in the buffer.
  lemma OneDecomposed(d: seq<nat>, d': seq<nat>, was: seq<nat>, dstlen: nat, done: seq<nat>, e: seq<nat>,
                      more: seq<nat>, out: seq<nat>, res: nat)
    requires Holds(d, was, dstlen, done) && |done| < dstlen && e != [] && done + (e + more) == out
    requires D.Done(e, d, d', |done|, dstlen - |done|, res)
    ensures res == 0 ==> Delivered(-1, d', was, dstlen, out)
    ensures res > 0 ==> res == |e| && |done| + res <= dstlen && Holds(d', was, dstlen, done + e)
  {
  }

  // ---------------------------------------------------------------- invalid characters

  // One code as it stands in the text.
  datatype Code = One(byte: Byte) | Two(lead: Byte, trail: Byte)

  // The Unicode default character and the code that the page has for it.
  datatype Default = Default(defChar: nat, code: nat)

  predicate IsLead(p: Codepage, b: Byte) { p.Double? && p.leadBytes[b] != 0 }

  predicate IsPrivateUse(ch: nat) { 0xE000 <= ch <= 0xF8FF }

  function CharOf(p: Codepage, c: Code): nat
    requires c.Two? ==> p.Double?
  {
    match c
    case One(b) => p.cp2uni[b]
    case Two(a, b) => p.cp2uni[p.leadBytes[a] as int * 0x100 + b]
  }

  // A lead byte on its own, a stand-in for the default character under another
  // code, or a private character that is one byte.
  predicate IsInvalid(p: Codepage, d: Default, c: Code)
    requires c.Two? ==> p.Double?
  {
    match c
    case One(b) => IsLead(p, b) || (CharOf(p, c) == d.defChar && b != d.code) || IsPrivateUse(CharOf(p, c))
    case Two(a, b) => CharOf(p, c) == d.defChar && a as int * 0x100 + b != d.code
  }

  // The codes that are converted.
  function Codes(p: Codepage, s: seq<Byte>): (cs: seq<Code>)
    ensures forall i :: 0 <= i < |cs| && cs[i].Two? ==> p.Double?
  {
    if s == [] then []
    else if IsPair(p, s) then [Two(s[0], s[1])] + Codes(p, s[2..])
    else [One(s[0])] + Codes(p, s[1..])
  }

  lemma {:induction false} CharsOfCodes(p: Codepage, s: seq<Byte>)
    ensures |Codes(p, s)| == |Chars(p, s)|
    ensures forall i :: 0 <= i < |Codes(p, s)| ==> Chars(p, s)[i] == CharOf(p, Codes(p, s)[i])
  {
    if s != [] { CharsOfCodes(p, s[if IsPair(p, s) then 2 else 1..]); }
  }

  // The codes that are checked: here a NUL can be a trail byte.
  function CheckedCodes(p: Codepage, s: seq<Byte>): (cs: seq<Code>)
    ensures forall i :: 0 <= i < |cs| && cs[i].Two? ==> p.Double?
  {
    if s == [] then []
    else if IsLead(p, s[0]) && |s| > 1 then [Two(s[0], s[1])] + CheckedCodes(p, s[2..])
    else [One(s[0])] + CheckedCodes(p, s[1..])
  }

  predicate NoneInvalid(p: Codepage, d: Default, cs: seq<Code>)
    requires forall i :: 0 <= i < |cs| && cs[i].Two? ==> p.Double?
  {
    cs == [] || (!IsInvalid(p, d, cs[0]) && NoneInvalid(p, d, cs[1..]))
  }

  predicate Accepted(p: Codepage, d: Default, s: seq<Byte>) { NoneInvalid(p, d, CheckedCodes(p, s)) }

  // A lead byte that the check takes for a pair with the NUL behind it.
  predicate LeadBeforeNul(p: Codepage, s: seq<Byte>) {
    exists i :: 0 <= i < |CheckedCodes(p, s)| && CheckedCodes(p, s)[i].Two? && CheckedCodes(p, s)[i].trail == 0
  }

  // The check guarantees what it is for if and only if there is no such pair: text
  // that is accepted has no invalid code in what is converted, unless a lead byte
  // in it stands before a NUL.
  lemma {:induction false} AcceptsValidIff(p: Codepage, d: Default, s: seq<Byte>)
    ensures NoneInvalid(p, d, Codes(p, s)) <==> Accepted(p, d, s) && !LeadBeforeNul(p, s)
  {
    if s != [] {
      var pair := IsLead(p, s[0]) && |s| > 1;
      var rest := s[if pair then 2 else 1..];
      var cs := CheckedCodes(p, s);
      assert cs == [cs[0]] + CheckedCodes(p, rest);
      assert LeadBeforeNul(p, s) <==> (cs[0].Two? && cs[0].trail == 0) || LeadBeforeNul(p, rest) by {
        LeadBeforeNulFrom(p, s, cs[0], rest);
      }
      if pair && s[1] == 0 {
        assert Codes(p, s)[0] == One(s[0]);
      } else {
        assert Codes(p, s) == [cs[0]] + Codes(p, rest);
        AcceptsValidIff(p, d, rest);
      }
    }
  }

  lemma LeadBeforeNulFrom(p: Codepage, s: seq<Byte>, c: Code, rest: seq<Byte>)
    requires CheckedCodes(p, s) == [c] + CheckedCodes(p, rest)
    ensures LeadBeforeNul(p, s) <==> (c.Two? && c.trail == 0) || LeadBeforeNul(p, rest)
  {
    var cs, more := CheckedCodes(p, s), CheckedCodes(p, rest);
    hide CheckedCodes;
    assert cs[0] == c && forall k :: 0 <= k < |more| ==> more[k] == cs[k + 1];
    if i :| 0 <= i < |more| && more[i].Two? && more[i].trail == 0 {
      assert cs[i + 1] == more[i];
    }
    if i :| 0 <= i < |cs| && cs[i].Two? && cs[i].trail == 0 {
      assert i > 0 ==> more[i - 1] == cs[i];
    }
  }

  // And it does let one through: a pair that is checked for its own character is
  // converted as a lead byte, here the default character, and a NUL.
  lemma NulIsMischecked()
    ensures exists p: Codepage, d: Default, s: seq<Byte> ::
              Accepted(p, d, s) && Chars(p, s) == [d.defChar, 0] && !NoneInvalid(p, d, Codes(p, s))
  {
    var lead := seq(0x100, b => 0)[0x81 := 1];
    var p := Double(seq(0x200, i => if i == 0x81 then 0x3F else 0), lead);
    var d, s := Default(0x3F, 0x3F), [0x81, 0];
    assert CheckedCodes(p, s) == [Two(0x81, 0)] + CheckedCodes(p, s[2..]);
    assert Codes(p, s) == [One(0x81)] + Codes(p, s[1..]);
    assert Chars(p, s[1..]) == [0] + Chars(p, s[2..]);
    assert Chars(p, s) == [0x3F] + Chars(p, s[1..]);
    assert !NoneInvalid(p, d, Codes(p, s));
    assert Chars(p, s) == [d.defChar, 0];
    assert Accepted(p, d, s);
  }

  lemma AcceptedFrom(p: Codepage, d: Default, s: seq<Byte>, i: nat)
    requires i < |s|
    ensures var pair := IsLead(p, s[i]) && i + 1 < |s|;
            && Accepted(p, d, s[i..])
               == (!IsInvalid(p, d, if pair then Two(s[i], s[i + 1]) else One(s[i]))
                   && Accepted(p, d, s[i + (if pair then 2 else 1)..]))
  {
    var n := if IsLead(p, s[i]) && i + 1 < |s| then 2 else 1;
    assert s[i..][n..] == s[i + n..];
  }

  // check_invalid_chars_sbcs, check_invalid_chars_dbcs: how many bytes are left at
  // the first invalid one
  method CheckInvalidChars(p: Codepage, d: Default, src: seq<Byte>) returns (left: nat)
    ensures left == 0 <==> Accepted(p, d, src)
  {
    hide Accepted;
    var i := 0;
    assert src[0..] == src;
    while i < |src|
      invariant 0 <= i <= |src| && (Accepted(p, d, src[i..]) <==> Accepted(p, d, src))
    {
      AcceptedFrom(p, d, src, i);
      if IsLead(p, src[i]) {
        if i + 1 == |src| { break; }
        var ch := p.cp2uni[p.leadBytes[src[i]] as int * 0x100 + src[i + 1]];
        if ch == d.defChar && src[i] as int * 0x100 + src[i + 1] != d.code { break; }
        i := i + 1;
      } else if (p.cp2uni[src[i]] == d.defChar && src[i] != d.code) || IsPrivateUse(p.cp2uni[src[i]]) {
        break;
      }
      i := i + 1;
    }
    if i == |src| { NothingRefused(p, d, src[i..]); }
    return |src| - i;
  }

  lemma NothingRefused(p: Codepage, d: Default, s: seq<Byte>)
    requires s == []
    ensures Accepted(p, d, s)
  {
  }

  // ---------------------------------------------------------------- the whole

  datatype Flags = Flags(errInvalidChars: bool, composite: bool)

  // What the text is converted to.
  ghost function Converted(p: Codepage, fl: Flags, t: D.Tables, rank: nat -> nat, s: seq<Byte>): seq<nat>
    requires fl.composite ==> Decomposes(t, rank)
  {
    if fl.composite then Decomposed(t, rank, Chars(p, s)) else Chars(p, s)
  }

  // wine_cp_mbstowcs
  method CpMbsToWcs(p: Codepage, fl: Flags, d: Default, t: D.Tables, src: seq<Byte>, dst: array<nat>, dstlen: nat,
                    ghost rank: nat -> nat)
    returns (n: int)
    requires dstlen <= dst.Length && (fl.composite ==> Decomposes(t, rank))
    modifies dst
    ensures n == -2 <==> fl.errInvalidChars && !Accepted(p, d, src)
    ensures n == -2 ==> dst[..] == old(dst[..])
    ensures n != -2 ==> Delivered(n, dst[..], old(dst[..]), dstlen, Converted(p, fl, t, rank, src))
  {
    hide Chars, Map, Accepted, Decomposes, Decomposed;
    if fl.errInvalidChars {
      var left := CheckInvalidChars(p, d, src);
      if left != 0 { return -2; }
    }
    if fl.composite {
      n := MbsToWcsDecompose(p, t, src, dst, dstlen, rank);
    } else if p.Single? {
      CharsIsMap(p, src);
      MapLength(ByCodepage(p), src);
      if dstlen == 0 {
        CountedOnly(dst[..], Chars(p, src));
        return |src|;
      }
      n := Convert(ByCodepage(p), src, dst, dstlen);
      if n >= 0 { assert src[..|src|] == src; }
    } else {
      n := MbsToWcsDbcs(p, src, dst, dstlen);
    }
  }
}
