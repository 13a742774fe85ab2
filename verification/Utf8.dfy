/**
 * UTF-8 conversion (utf8.c; RFC 3629, section 3). A wide character here is a
 * 16-bit unit, the form these routines are written for.
 */
module Utf8 {
  import opened Basics
  import opened Buffers

  type Point = x: int | 0 <= x <= 0x10FFFF

  // ---------------------------------------------------------------- the two encodings of a code point

  // The shortest form of RFC 3629, section 3, for surrogates too, which that
  // section prohibits and this code does not.
  function Form(v: Point): (f: seq<Byte>)
    ensures 1 <= |f| <= 4
  {
    if v < 0x80 then [v]
    else if v < 0x800 then [0xC0 + v / 0x40, 0x80 + v % 0x40]
    else if v < 0x10000 then [0xE0 + v / 0x1000, 0x80 + v / 0x40 % 0x40, 0x80 + v % 0x40]
    else [0xF0 + v / 0x40000, 0x80 + v / 0x1000 % 0x40, 0x80 + v / 0x40 % 0x40, 0x80 + v % 0x40]
  }

  function Units(v: Point): (u: seq<Unit>)
    ensures 1 <= |u| <= 2
  {
    if v < 0x10000 then [v] else [0xD800 + (v - 0x10000) / 0x400, 0xDC00 + (v - 0x10000) % 0x400]
  }

  function Forms(cs: seq<Point>): seq<Byte> { if cs == [] then [] else Form(cs[0]) + Forms(cs[1..]) }

  function AllUnits(cs: seq<Point>): seq<Unit> { if cs == [] then [] else Units(cs[0]) + AllUnits(cs[1..]) }

  predicate IsContinuation(x: Byte) { 0x80 <= x < 0xC0 }

  // utf8_length: how many bytes follow a lead byte
  function FollowLength(lead: Byte): (n: nat)
    ensures n <= 3
  {
    if 0xC2 <= lead <= 0xDF then 1 else if 0xE0 <= lead <= 0xEF then 2 else if 0xF0 <= lead <= 0xF4 then 3 else 0
  }

  function Append(res: int, ch: int): int { res * 0x40 + (ch - 0x80) }

  // The value in a lead byte and its continuation bytes.
  function Sum(f: seq<Byte>): int
    requires 2 <= |f| <= 4
  {
    var lead: int, next: int := f[0], f[1];
    if |f| == 2 then Append(lead - 0xC0, next)
    else if |f| == 3 then Append(Append(lead - 0xE0, next), f[2])
    else Append(Append(Append(lead - 0xF0, next), f[2]), f[3])
  }

  // utf8_minval
  function MinValue(n: nat): int { if n == 1 then 0x80 else if n == 2 then 0x800 else 0x10000 }

  // A lead byte and the continuation bytes it asks for.
  ghost predicate Shaped(f: seq<Byte>) {
    2 <= |f| <= 4 && |f| == FollowLength(f[0]) + 1 && (forall i :: 1 <= i < |f| ==> IsContinuation(f[i]))
  }

  lemma Digits(v: nat)
    ensures v == v / 0x40 * 0x40 + v % 0x40 && v / 0x1000 == v / 0x40 / 0x40 && v / 0x40000 == v / 0x40 / 0x40 / 0x40
  {
  }

  lemma AppendDigit(q: nat, c: int)
    requires 0x80 <= c < 0xC0
    ensures Append(q, c) / 0x40 == q && Append(q, c) % 0x40 == c - 0x80
  {
  }

  lemma ShapedForm2(v: Point)
    requires 0x80 <= v < 0x800
    ensures Shaped(Form(v)) && Sum(Form(v)) == v
  {
  }

  lemma ShapedForm3(v: Point)
    requires 0x800 <= v < 0x10000
    ensures Shaped(Form(v)) && Sum(Form(v)) == v
  {
    Digits(v);
    Digits(v / 0x40);
    ghost var lead, f := v / 0x1000, Form(v);
    assert lead < 0x10 && f == [0xE0 + lead, 0x80 + v / 0x40 % 0x40, 0x80 + v % 0x40];
    assert Sum(f) == Append(Append(lead, f[1]), f[2]);
  }

  lemma ShapedForm4(v: Point)
    requires 0x10000 <= v
    ensures Shaped(Form(v)) && Sum(Form(v)) == v
  {
    Digits(v);
    Digits(v / 0x40);
    Digits(v / 0x1000);
    ghost var lead, f := v / 0x40000, Form(v);
    assert lead < 5 && f == [0xF0 + lead, 0x80 + v / 0x1000 % 0x40, 0x80 + v / 0x40 % 0x40, 0x80 + v % 0x40];
    assert Sum(f) == Append(Append(Append(lead, f[1]), f[2]), f[3]);
  }

  // What a form looks like byte by byte, and how it adds up.
  lemma FormShape(v: Point)
    requires v >= 0x80
    ensures Shaped(Form(v)) && Sum(Form(v)) == v
  {
    if v < 0x800 {
      ShapedForm2(v);
    } else if v < 0x10000 {
      ShapedForm3(v);
    } else {
      ShapedForm4(v);
    }
  }

  // A sequence of the right shape is a form unless it spells out a shorter one.
  lemma ShapeIsForm(f: seq<Byte>)
    requires Shaped(f) && MinValue(|f| - 1) <= Sum(f) <= 0x10FFFF
    ensures Form(Sum(f)) == f
  {
    var v: Point := Sum(f);
    Digits(v);
    if |f| == 2 {
      AppendDigit(f[0] - 0xC0, f[1]);
    } else if |f| == 3 {
      AppendDigit(f[0] - 0xE0, f[1]);
      AppendDigit(Append(f[0] - 0xE0, f[1]), f[2]);
    } else {
      AppendDigit(f[0] - 0xF0, f[1]);
      AppendDigit(Append(f[0] - 0xF0, f[1]), f[2]);
      AppendDigit(Append(Append(f[0] - 0xF0, f[1]), f[2]), f[3]);
    }
    hide Append;
    assert v < 0x800 <==> |f| == 2;
    assert v < 0x10000 <==> |f| <= 3;
  }

  // No form is the beginning of another.
  lemma FormsPrefixFree(v: Point, w: Point, b: seq<Byte>)
    requires Form(v) <= b && Form(w) <= b
    ensures v == w
  {
    assert Form(v)[0] == b[0] == Form(w)[0];
    if v >= 0x80 {
      FormShape(v);
      FormShape(w);
      assert Form(v) == b[..|Form(v)|] == Form(w);
    }
  }

  // ---------------------------------------------------------------- reading bytes

  datatype Char = Good(value: Point) | Ignored(bytes: nat)

  // The continuation bytes a failed sequence swallows: none when it is cut off by the end.
  function Swallowed(b: seq<Byte>): (k: nat)
    requires b != []
    ensures k < |b|
  {
    var n := FollowLength(b[0]);
    if 1 + n > |b| || n == 0 || !IsContinuation(b[1]) then 0
    else if n == 1 || !IsContinuation(b[2]) then 1
    else if n == 2 || !IsContinuation(b[3]) then 2
    else 3
  }

  ghost predicate StartsWith(b: seq<Byte>, v: Point) { Form(v) <= b }

  // What stands first: a code point in its form, or bytes to be ignored.
  ghost function CharAt(b: seq<Byte>): (c: Char)
    requires b != []
    ensures c.Good? ==> StartsWith(b, c.value)
    ensures c.Ignored? ==> 1 <= c.bytes <= |b|
  {
    if exists v: Point :: StartsWith(b, v) then
      var v: Point :| StartsWith(b, v);
      Good(v)
    else Ignored(1 + Swallowed(b))
  }

  lemma CharAtForm(v: Point, b: seq<Byte>)
    requires b != [] && StartsWith(b, v)
    ensures CharAt(b) == Good(v)
  {
    var w := CharAt(b).value;
    FormsPrefixFree(v, w, b);
  }

  // The points read, whether reading stopped at a fault, and whether input remains after the last point.
  datatype Reading = Reading(points: seq<Point>, bad: bool, leftover: bool)

  ghost function Read(b: seq<Byte>, strict: bool): Reading
    decreases |b|
  {
    if b == [] then Reading([], false, false)
    else
      match CharAt(b)
      case Good(v) =>
        var r := Read(b[|Form(v)|..], strict);
        Reading([v] + r.points, r.bad, r.leftover)
      case Ignored(k) =>
        if strict then Reading([], true, true)
        else
          var r := Read(b[k..], strict);
          Reading(r.points, r.bad, r.points == [] || r.leftover)
  }

  // Reading is the inverse of writing in shortest form.
  lemma {:induction false} ReadForms(cs: seq<Point>, strict: bool)
    ensures Read(Forms(cs), strict) == Reading(cs, false, false)
  {
    hide Form, CharAt;
    if cs == [] {
    } else {
      var b, rest := Forms(cs), Forms(cs[1..]);
      assert b == Form(cs[0]) + rest;
      CharAtForm(cs[0], b);
      assert b[|Form(cs[0])|..] == rest;
      ReadForms(cs[1..], strict);
      assert [cs[0]] + cs[1..] == cs;
    }
  }

  // Strict reading accepts exactly the strings of shortest forms: nothing
  // overlong, cut off, or above 0x10FFFF, but encoded surrogates.
  lemma StrictAcceptsForms(b: seq<Byte>)
    ensures !Read(b, true).bad <==> exists cs :: Forms(cs) == b
    ensures !Read(b, true).bad ==> Forms(Read(b, true).points) == b
  {
    hide Read, Forms;
    if !Read(b, true).bad {
      AcceptedIsForms(b);
    }
    forall cs | Forms(cs) == b ensures !Read(b, true).bad {
      ReadForms(cs, true);
    }
  }

  lemma {:induction false} AcceptedIsForms(b: seq<Byte>)
    requires !Read(b, true).bad
    ensures Forms(Read(b, true).points) == b
    decreases |b|
  {
    hide Form;
    if b != [] {
      match CharAt(b)
      case Good(v) =>
        var rest := b[|Form(v)|..];
        AcceptedIsForms(rest);
        var r := Read(rest, true);
        assert ([v] + r.points)[1..] == r.points;
        assert Forms([v] + r.points) == Form(v) + rest == b;
      case Ignored(k) =>
    }
  }

  // ---------------------------------------------------------------- reading units

  // get_surrogate_value: 0 for a surrogate without its partner
  function SurrogateValue(s: seq<Unit>): (v: Point)
    requires s != []
  {
    var hi: int := s[0];
    if 0xD800 <= hi <= 0xDFFF then
      if hi > 0xDBFF || |s| <= 1 || s[1] < 0xDC00 || s[1] > 0xDFFF then 0
      else
        var lo: int := s[1];
        0x10000 + hi % 0x400 * 0x400 + lo % 0x400
    else hi
  }

  predicate Unpaired(s: seq<Unit>)
    requires s != []
  {
    s[0] != 0 && SurrogateValue(s) == 0
  }

  function ReadUnits(s: seq<Unit>, strict: bool): Reading
    decreases |s|
  {
    if s == [] then Reading([], false, false)
    else if Unpaired(s) then
      if strict then Reading([], true, true)
      else
        var r := ReadUnits(s[1..], strict);
        Reading(r.points, r.bad, r.points == [] || r.leftover)
    else
      var v := SurrogateValue(s);
      var r := ReadUnits(s[|Units(v)|..], strict);
      Reading([v] + r.points, r.bad, r.leftover)
  }

  // The value read off the front of a string is the one whose units stand there.
  lemma SurrogateValueIs(s: seq<Unit>)
    requires s != [] && !Unpaired(s)
    ensures Units(SurrogateValue(s)) <= s
  {
  }

  predicate IsScalar(v: Point) { v < 0xD800 || 0xE000 <= v }

  ghost predicate Scalars(cs: seq<Point>) { forall i :: 0 <= i < |cs| ==> IsScalar(cs[i]) }

  // UTF-16: the units of some scalar values, each surrogate with its partner.
  ghost predicate WellFormed(s: seq<Unit>) { exists cs :: Scalars(cs) && AllUnits(cs) == s }

  lemma {:induction false} ReadUnitsGivesScalars(s: seq<Unit>, strict: bool)
    ensures Scalars(ReadUnits(s, strict).points)
    decreases |s|
  {
    if s == [] {
    } else if Unpaired(s) {
      ReadUnitsGivesScalars(s[1..], strict);
    } else {
      var v := SurrogateValue(s);
      SurrogateValueIs(s);
      ReadUnitsGivesScalars(s[|Units(v)|..], strict);
    }
  }

  lemma {:induction false} ReadAllUnits(cs: seq<Point>, strict: bool)
    requires Scalars(cs)
    ensures ReadUnits(AllUnits(cs), strict) == Reading(cs, false, false)
  {
    if cs == [] {
    } else {
      var s, rest := AllUnits(cs), AllUnits(cs[1..]);
      ReadAllUnits(cs[1..], strict);
      assert s == Units(cs[0]) + rest;
      assert IsScalar(cs[0]);
      assert s[|Units(cs[0])|..] == rest;
      assert [cs[0]] + cs[1..] == cs;
      FirstScalar(cs[0], rest);
    }
  }

  lemma FirstScalar(v: Point, rest: seq<Unit>)
    requires IsScalar(v)
    ensures var s := Units(v) + rest; !Unpaired(s) && SurrogateValue(s) == v
  {
  }

  // Strict reading accepts exactly the well-formed strings and loses nothing of them.
  lemma {:induction false} StrictAcceptsWellFormed(s: seq<Unit>)
    ensures !ReadUnits(s, true).bad <==> WellFormed(s)
    ensures !ReadUnits(s, true).bad ==> AllUnits(ReadUnits(s, true).points) == s
    decreases |s|
  {
    hide Units, SurrogateValue;
    if s == [] {
      assert Scalars([]) && AllUnits([]) == s;
    } else if !Unpaired(s) {
      var v := SurrogateValue(s);
      SurrogateValueIs(s);
      var rest := s[|Units(v)|..];
      StrictAcceptsWellFormed(rest);
      var r := ReadUnits(rest, true);
      assert ([v] + r.points)[1..] == r.points;
      ReadUnitsGivesScalars(s, true);
      if !r.bad {
        assert AllUnits([v] + r.points) == Units(v) + rest == s;
      }
    }
    forall cs | Scalars(cs) && AllUnits(cs) == s ensures !ReadUnits(s, true).bad {
      ReadAllUnits(cs, true);
    }
  }

  // ---------------------------------------------------------------- round trip

  // Through UTF-8 and back: the string without its unpaired surrogates.
  lemma RoundTrip(s: seq<Unit>)
    ensures var cs := ReadUnits(s, false).points;
            var back := Read(Forms(cs), false);
            back == Reading(cs, false, false) && WellFormed(AllUnits(back.points))
  {
    ReadForms(ReadUnits(s, false).points, false);
    ReadUnitsGivesScalars(s, false);
  }

  // The round trip is the identity exactly on well-formed UTF-16.
  lemma RoundTripIff(s: seq<Unit>)
    ensures AllUnits(Read(Forms(ReadUnits(s, false).points), false).points) == s <==> WellFormed(s)
  {
    RoundTrip(s);
    if WellFormed(s) {
      var cs :| Scalars(cs) && AllUnits(cs) == s;
      ReadAllUnits(cs, false);
    }
  }

  // UTF-8 of RFC 3629, section 3: shortest forms of scalar values.
  ghost predicate WellFormedBytes(b: seq<Byte>) { exists cs :: Scalars(cs) && Forms(cs) == b }

  // Strictly accepted bytes are that exactly if no surrogate is among the values read.
  lemma AcceptsWellFormedIff(b: seq<Byte>)
    ensures WellFormedBytes(b) <==> !Read(b, true).bad && Scalars(Read(b, true).points)
  {
    StrictAcceptsForms(b);
    hide Read, Forms, Scalars;
    if WellFormedBytes(b) {
      var cs :| Scalars(cs) && Forms(cs) == b;
      ReadForms(cs, true);
    }
    assert !Read(b, true).bad ==> Forms(Read(b, true).points) == b;
  }

  lemma SurrogateIsAccepted()
    ensures !Read([0xED, 0xA0, 0x80], true).bad && !WellFormedBytes([0xED, 0xA0, 0x80])
  {
    var b := [0xED, 0xA0, 0x80];
    assert Forms([0xD800]) == b by {
      assert [0xD800][1..] == [];
      assert Form(0xD800) + [] == b;
    }
    ReadForms([0xD800], true);
    AcceptsWellFormedIff(b);
    assert !IsScalar([0xD800][0]);
  }

  // Through UTF-16 and back is the identity exactly on well-formed UTF-8.
  lemma BytesRoundTripIff(b: seq<Byte>)
    ensures Forms(ReadUnits(AllUnits(Read(b, false).points), false).points) == b <==> WellFormedBytes(b)
  {
    hide Read, ReadUnits;
    ReadUnitsGivesScalars(AllUnits(Read(b, false).points), false);
    if WellFormedBytes(b) {
      var cs :| Scalars(cs) && Forms(cs) == b;
      ReadForms(cs, false);
      ReadAllUnits(cs, false);
    }
  }

  // ---------------------------------------------------------------- to bytes

  // What a conversion gives: -2 for a fault met before the buffer was too short,
  // else the size-query convention.
  ghost predicate Converted<T>(n: int, dst: seq<T>, was: seq<T>, dstlen: nat, out: seq<T>, bad: bool) {
    && (n == -2 <==> bad && !(0 < dstlen < |out|))
    && Delivered(if n == -2 then |out| else n, dst, was, dstlen, out)
  }

  function FormLength(v: Point): nat { if v < 0x80 then 1 else if v < 0x800 then 2 else if v < 0x10000 then 3 else 4 }

  lemma ReadUnitsHead(s: seq<Unit>, strict: bool)
    requires s != [] && !Unpaired(s)
    ensures var v := SurrogateValue(s);
            var r, rest := ReadUnits(s, strict), ReadUnits(s[|Units(v)|..], strict);
            Units(v) <= s && r.bad == rest.bad && Forms(r.points) == Form(v) + Forms(rest.points)
    ensures |Form(SurrogateValue(s))| == FormLength(SurrogateValue(s))
  {
    SurrogateValueIs(s);
    hide Form;
    var v := SurrogateValue(s);
    var rest := ReadUnits(s[|Units(v)|..], strict);
    assert ([v] + rest.points)[1..] == rest.points;
  }

  // get_length_wcs_utf8
  method LengthWcs(strict: bool, src: seq<Unit>) returns (n: int)
    ensures var r := ReadUnits(src, strict);
            n == if r.bad then -2 else |Forms(r.points)|
  {
    hide Forms, ReadUnits, Form;
    n := 0;
    var i := 0;
    assert src[0..] == src;
    while i < |src|
      invariant 0 <= i <= |src|
      invariant n >= 0
      invariant var r, all := ReadUnits(src[i..], strict), ReadUnits(src, strict);
                r.bad == all.bad && n + |Forms(r.points)| == |Forms(all.points)|
    {
      ghost var s := src[i..];
      assert src[i] < 0x800 ==> !Unpaired(s);
      if !Unpaired(s) { ReadUnitsHead(s, strict); } else { ReadUnitsSkips(s, strict); }
      assert s[1..] == src[i + 1..];
      if src[i] < 0x80 {
        n := n + 1;
      } else if src[i] < 0x800 {
        n := n + 2;
      } else {
        var v := SurrogateValue(src[i..]);
        if v == 0 {
          if strict { return -2; }
        } else if v < 0x10000 {
          n := n + 3;
        } else {
          assert s[2..] == src[i + 2..];
          n := n + 4;
          i := i + 1;
        }
      }
      i := i + 1;
    }
    assert src[i..] == [];
    ReadNoUnits(strict);
  }

  lemma ReadUnitsSkips(s: seq<Unit>, strict: bool)
    requires s != [] && Unpaired(s)
    ensures ReadUnits(s, strict).bad == (strict || ReadUnits(s[1..], strict).bad)
    ensures !strict ==> ReadUnits(s, strict).points == ReadUnits(s[1..], strict).points
    ensures strict ==> ReadUnits(s, strict).points == []
  {
  }

  lemma ReadNoUnits(strict: bool)
    ensures ReadUnits([], strict) == Reading([], false, false) && Forms([]) == []
  {
  }

  // The bytes of a form, six bits at a time.
  lemma FormBySixBits(v: Point)
    ensures v < 0x80 ==> Form(v) == [v]
    ensures 0x80 <= v < 0x800 ==> Form(v) == [0xC0 + v / 0x40, 0x80 + v % 0x40]
    ensures 0x800 <= v < 0x10000 ==> Form(v) == [0xE0 + v / 0x40 / 0x40, 0x80 + v / 0x40 % 0x40, 0x80 + v % 0x40]
    ensures 0x10000 <= v ==>
              Form(v) == [0xF0 + v / 0x40 / 0x40 / 0x40, 0x80 + v / 0x40 / 0x40 % 0x40, 0x80 + v / 0x40 % 0x40,
                          0x80 + v % 0x40]
  {
  }

  // One character into dst, low byte first, as each branch of wine_utf8_wcstombs stores it.
  method PutForm(dst: array<Byte>, pos: nat, v: Point, ghost was: seq<Byte>, ghost dstlen: nat, ghost done: seq<Byte>)
    requires Holds(dst[..], was, dstlen, done) && pos == |done| && 0 < dstlen && pos + |Form(v)| <= dstlen
    modifies dst
    ensures Holds(dst[..], was, dstlen, done + Form(v))
  {
    ghost var before := dst[..];
    FormBySixBits(v);
    hide Holds, Form;
    var val: int := v;
    if v < 0x80 {
      dst[pos] := v;
    } else if v < 0x800 {
      dst[pos + 1] := 0x80 + val % 0x40;
      val := val / 0x40;
      dst[pos] := 0xC0 + val;
    } else if v < 0x10000 {
      dst[pos + 2] := 0x80 + val % 0x40;
      val := val / 0x40;
      dst[pos + 1] := 0x80 + val % 0x40;
      val := val / 0x40;
      dst[pos] := 0xE0 + val;
    } else {
      dst[pos + 3] := 0x80 + val % 0x40;
      val := val / 0x40;
      dst[pos + 2] := 0x80 + val % 0x40;
      val := val / 0x40;
      dst[pos + 1] := 0x80 + val % 0x40;
      val := val / 0x40;
      dst[pos] := 0xF0 + val;
    }
    Appended(before, dst[..], was, dstlen, done, Form(v));
  }

  // wine_utf8_wcstombs
  method WcsToMbs(strict: bool, src: seq<Unit>, dst: array<Byte>, dstlen: nat) returns (n: int)
    requires dstlen <= dst.Length
    modifies dst
    ensures var r := ReadUnits(src, strict);
            Converted(n, dst[..], old(dst[..]), dstlen, Forms(r.points), r.bad)
  {
    hide Forms, ReadUnits, Form, Holds, Delivered;
    ghost var was, all := dst[..], ReadUnits(src, strict);
    ghost var out, done: seq<Byte> := Forms(all.points), [];
    if dstlen == 0 {
      n := LengthWcs(strict, src);
      CountedOnly(was, out);
      return;
    }
    var len: int, pos, i := dstlen, 0, 0;
    NothingYet(was, dstlen);
    assert src[0..] == src && [] + out == out;
    while i < |src|
      invariant 0 <= i <= |src|
      invariant pos == |done| && len == dstlen - pos && Holds(dst[..], was, dstlen, done)
      invariant Remains(src[i..], strict, done, out, all.bad)
    {
      ghost var s := src[i..];
      var ch := src[i];
      var v := SurrogateValue(src[i..]);
      if ch >= 0x800 && v == 0 {
        SkipUnit(src, i, strict, done, out, all.bad);
        if strict {
          AllWritten(dst[..], was, dstlen, out);
          return -2;
        }
      } else {
        var size := if ch < 0x80 then 1 else if ch < 0x800 then 2 else if v < 0x10000 then 3 else 4;
        len := len - size;
        ghost var now := TakeUnit(src, i, v, strict, done, out, all.bad, dst[..], was, dstlen, size);
        if len < 0 { return -1; }
        PutForm(dst, pos, v, was, dstlen, done);
        done := now;
        pos := pos + size;
        if size == 4 { i := i + 1; }
      }
      i := i + 1;
    }
    assert src[i..] == [];
    ReadNoUnits(strict);
    assert done == out;
    AllWritten(dst[..], was, dstlen, out);
    return dstlen - len;
  }

  // The bytes still to come are those of the units still to be read.
  ghost predicate Remains(s: seq<Unit>, strict: bool, done: seq<Byte>, out: seq<Byte>, bad: bool) {
    var r := ReadUnits(s, strict);
    done + Forms(r.points) == out && r.bad == bad
  }

  lemma SkipUnit(src: seq<Unit>, i: nat, strict: bool, done: seq<Byte>, out: seq<Byte>, bad: bool)
    requires i < |src| && Unpaired(src[i..]) && Remains(src[i..], strict, done, out, bad)
    ensures strict ==> bad && done == out
    ensures !strict ==> Remains(src[i + 1..], strict, done, out, bad)
  {
  }

  lemma TakeUnit(src: seq<Unit>, i: nat, v: Point, strict: bool, done: seq<Byte>, out: seq<Byte>, bad: bool,
                 dst: seq<Byte>, was: seq<Byte>, dstlen: nat, size: nat) returns (now: seq<Byte>)
    requires i < |src| && !Unpaired(src[i..]) && v == SurrogateValue(src[i..])
    requires Remains(src[i..], strict, done, out, bad) && Holds(dst, was, dstlen, done) && 0 < dstlen
    requires size == FormLength(v)
    ensures now == done + Form(v) && |Form(v)| == size && |Units(v)| <= |src| - i
    ensures Remains(src[i + |Units(v)|..], strict, now, out, bad)
    ensures |now| > dstlen ==> Converted(-1, dst, was, dstlen, out, bad)
  {
    hide Unpaired;
    ReadUnitsHead(src[i..], strict);
    ghost var rest := src[i + |Units(v)|..];
    assert src[i..][|Units(v)|..] == rest;
    hide Forms, ReadUnits, Form, Holds, Delivered;
    now := done + Form(v);
    ghost var more := Forms(ReadUnits(rest, strict).points);
    assert now + more == done + (Form(v) + more);
    if |now| > dstlen {
      Overflowed(dst, was, dstlen, done, Form(v) + more, out);
    }
  }

  // ---------------------------------------------------------------- to units

  const INVALID := 0xFFFF_FFFF

  // When the bytes at the front are a character, said byte by byte.
  lemma CharAtIs(b: seq<Byte>)
    requires b != [] && b[0] >= 0x80
    ensures var n := FollowLength(b[0]);
            CharAt(b) ==
            if n > 0 && n < |b| && Shaped(b[..n + 1]) && MinValue(n) <= Sum(b[..n + 1]) <= 0x10FFFF
            then Good(Sum(b[..n + 1])) else Ignored(1 + Swallowed(b))
    ensures CharAt(b).Good? ==> |Form(CharAt(b).value)| == FollowLength(b[0]) + 1
  {
    var n := FollowLength(b[0]);
    if n > 0 && n < |b| && Shaped(b[..n + 1]) && MinValue(n) <= Sum(b[..n + 1]) <= 0x10FFFF {
      ShapeIsForm(b[..n + 1]);
      hide Form, Sum;
      CharAtForm(Sum(b[..n + 1]), b);
    } else {
      forall v: Point ensures !StartsWith(b, v) {
        if StartsWith(b, v) {
          assert v >= 0x80 by { assert Form(v)[0] == b[0]; }
          FormShape(v);
          FormAtLeast(v);
          hide Form, Sum;
        }
      }
    }
  }

  lemma FormAtLeast(v: Point)
    requires v >= 0x80
    ensures MinValue(|Form(v)| - 1) <= v
  {
  }

  // utf8_mask: the value bits of a lead byte
  function LeadBits(lead: Byte): nat {
    var n, x: nat := FollowLength(lead), lead;
    if n == 1 then x % 0x20 else if n == 2 then x % 0x10 else x % 8
  }

  lemma SumIs(b: seq<Byte>, n: nat)
    requires n < |b| && n == FollowLength(b[0]) > 0
    ensures Sum(b[..n + 1])
         == if n == 1 then Append(LeadBits(b[0]), b[1])
            else if n == 2 then Append(Append(LeadBits(b[0]), b[1]), b[2])
            else Append(Append(Append(LeadBits(b[0]), b[1]), b[2]), b[3])
  {
    LeadBitsAre(b[0]);
    hide LeadBits, Append, FollowLength;
    assert forall k :: 0 <= k <= n ==> b[..n + 1][k] == b[k];
  }

  lemma LeadBitsAre(lead: Byte)
    requires FollowLength(lead) > 0
    ensures var n := FollowLength(lead);
            LeadBits(lead) == lead - (if n == 1 then 0xC0 else if n == 2 then 0xE0 else 0xF0)
  {
  }

  function Verdict(v: int, n: nat): Char { if MinValue(n) <= v <= 0x10FFFF then Good(v) else Ignored(n + 1) }

  // What decode_utf8_char makes of the bytes from just past the lead byte on.
  function Decided(src: seq<Byte>, at: nat): Char
    requires 0 < at <= |src|
  {
    var n := FollowLength(src[at - 1]);
    if n == 0 || at + n > |src| || !IsContinuation(src[at]) then Ignored(1)
    else
      var one := Append(LeadBits(src[at - 1]), src[at]);
      if n == 1 then Verdict(one, 1)
      else if !IsContinuation(src[at + 1]) then Ignored(2)
      else
        var two := Append(one, src[at + 1]);
        if n == 2 then Verdict(two, 2)
        else if !IsContinuation(src[at + 2]) then Ignored(3)
        else Verdict(Append(two, src[at + 2]), 3)
  }

  lemma DecidedFrom(src: seq<Byte>, at: nat)
    requires 0 < at <= |src|
    ensures Decided(src, at) == Decided(src[at - 1..], 1)
  {
  }

  lemma DecidedIsCharAt(b: seq<Byte>)
    requires b != [] && b[0] >= 0x80
    ensures CharAt(b) == Decided(b, 1)
    ensures CharAt(b).Good? ==> |Form(CharAt(b).value)| == FollowLength(b[0]) + 1
  {
    var n := FollowLength(b[0]);
    CharAtIs(b);
    if n > 0 && n < |b| { SumIs(b, n); }
    hide CharAt, Sum, Form, Append, LeadBits, MinValue;
    if n > 0 && n < |b| {
      assert Shaped(b[..n + 1])
             <==> IsContinuation(b[1]) && (n >= 2 ==> IsContinuation(b[2])) && (n == 3 ==> IsContinuation(b[3]));
    }
  }

  // What reading the character that stands first gives, from its place on.
  ghost predicate IsRead(c: Char, res: int, pos: nat, from: nat) {
    && (c.Good? ==> res == c.value && pos == from + |Form(c.value)|)
    && (c.Ignored? ==> res > 0x10FFFF && pos == from + c.bytes)
  }

  lemma ReadAsDecided(src: seq<Byte>, at: nat, res: int, pos: nat)
    requires 0 < at <= |src| && src[at - 1] >= 0x80
    requires var c := Decided(src, at);
             if c.Good? then res == c.value && pos == at + FollowLength(src[at - 1])
             else res > 0x10FFFF && pos == at - 1 + c.bytes
    ensures IsRead(CharAt(src[at - 1..]), res, pos, at - 1)
  {
    DecidedFrom(src, at);
    DecidedIsCharAt(src[at - 1..]);
    hide CharAt, Form, Decided, FollowLength;
  }

  // decode_utf8_char: *str is src from 'at', just past the lead byte ch
  method DecodeUtf8Char(ch: Byte, src: seq<Byte>, at: nat) returns (res: int, pos: nat)
    requires 0 < at <= |src| && src[at - 1] == ch >= 0x80
    ensures IsRead(CharAt(src[at - 1..]), res, pos, at - 1)
  {
    hide CharAt, IsRead, Append, MinValue, LeadBits, FollowLength, IsContinuation;
    var len := FollowLength(ch);
    var end := at + len;
    pos := at;
    if end > |src| || len == 0 {
      ReadAsDecided(src, at, INVALID, pos);
      return INVALID, pos;
    }
    res := LeadBits(ch);
    if len == 3 {
      if !IsContinuation(src[end - 3]) {
        ReadAsDecided(src, at, INVALID, pos);
        return INVALID, pos;
      }
      res := Append(res, src[end - 3]);
      pos := pos + 1;
    }
    if len >= 2 {
      if !IsContinuation(src[end - 2]) {
        ReadAsDecided(src, at, INVALID, pos);
        return INVALID, pos;
      }
      res := Append(res, src[end - 2]);
      pos := pos + 1;
    }
    if !IsContinuation(src[end - 1]) {
      ReadAsDecided(src, at, INVALID, pos);
      return INVALID, pos;
    }
    res := Append(res, src[end - 1]);
    pos := pos + 1;
    if res < MinValue(len) {
      ReadAsDecided(src, at, INVALID, pos);
      return INVALID, pos;
    }
    ReadAsDecided(src, at, res, pos);
  }

  lemma CharAtAscii(b: seq<Byte>)
    requires b != [] && b[0] < 0x80
    ensures CharAt(b) == Good(b[0]) && |Form(b[0])| == 1
  {
    assert Form(b[0]) <= b;
    hide Form;
    CharAtForm(b[0], b);
  }

  lemma ReadGood(b: seq<Byte>, strict: bool, v: Point)
    requires b != [] && CharAt(b) == Good(v)
    ensures Form(v) <= b
    ensures var r, rest := Read(b, strict), Read(b[|Form(v)|..], strict);
            && r.bad == rest.bad && r.leftover == rest.leftover && r.points == [v] + rest.points
            && AllUnits(r.points) == Units(v) + AllUnits(rest.points)
  {
  }

  lemma ReadIgnored(b: seq<Byte>, strict: bool, k: nat)
    requires b != [] && CharAt(b) == Ignored(k)
    ensures 1 <= k <= |b|
    ensures strict ==> Read(b, strict) == Reading([], true, true)
    ensures !strict ==> var rest := Read(b[k..], strict);
                        Read(b, strict) == Reading(rest.points, rest.bad, rest.points == [] || rest.leftover)
  {
    hide CharAt;
  }

  lemma ReadNothing(strict: bool)
    ensures Read([], strict) == Reading([], false, false) && AllUnits([]) == []
  {
  }

  // One step of the three loops below: what stands at 'at', and where the next one starts.
  method NextChar(src: seq<Byte>, at: nat) returns (res: int, pos: nat)
    requires at < |src|
    ensures at < pos <= |src|
    ensures var c := CharAt(src[at..]);
            && (c.Good? ==> res == c.value && pos == at + |Form(c.value)|)
            && (c.Ignored? ==> res > 0x10FFFF && pos == at + c.bytes)
  {
    var ch := src[at];
    pos := at + 1;
    if ch < 0x80 {
      CharAtAscii(src[at..]);
      return ch, pos;
    }
    hide CharAt, Form;
    res, pos := DecodeUtf8Char(ch, src, pos);
    if CharAt(src[at..]).Good? { assert StartsWith(src[at..], CharAt(src[at..]).value); }
  }

  // What is read from 'at' on continues what was read so far.
  lemma NextStep(src: seq<Byte>, at: nat, strict: bool, res: int, pos: nat)
    requires at < pos <= |src|
    requires var c := CharAt(src[at..]);
             && (c.Good? ==> res == c.value && pos == at + |Form(c.value)|)
             && (c.Ignored? ==> res > 0x10FFFF && pos == at + c.bytes)
    ensures var r, rest := Read(src[at..], strict), Read(src[pos..], strict);
            if res <= 0x10FFFF then
              && 0 <= res && r.bad == rest.bad && r.leftover == rest.leftover && r.points == [res] + rest.points
              && AllUnits(r.points) == Units(res) + AllUnits(rest.points)
            else if strict then r == Reading([], true, true)
            else r == Reading(rest.points, rest.bad, rest.points == [] || rest.leftover)
  {
    hide CharAt, Form, Units, Read, AllUnits;
    var b := src[at..];
    match CharAt(b)
    case Good(v) =>
      ReadGood(b, strict, v);
      assert b[|Form(v)|..] == src[pos..];
    case Ignored(k) =>
      ReadIgnored(b, strict, k);
      assert b[k..] == src[pos..];
  }

  // get_length_mbs_utf8
  method LengthMbs(strict: bool, src: seq<Byte>) returns (n: int)
    ensures var r := Read(src, strict);
            n == if r.bad then -2 else |AllUnits(r.points)|
  {
    hide Read, AllUnits, CharAt, Form;
    n := 0;
    var i := 0;
    assert src[0..] == src;
    while i < |src|
      invariant 0 <= i <= |src| && n >= 0
      invariant var r, all := Read(src[i..], strict), Read(src, strict);
                r.bad == all.bad && n + |AllUnits(r.points)| == |AllUnits(all.points)|
    {
      var res, pos := NextChar(src, i);
      NextStep(src, i, strict, res, pos);
      i := pos;
      if res <= 0x10FFFF {
        if res > 0xFFFF { n := n + 1; }
        n := n + 1;
      } else if strict {
        return -2;
      }
    }
    assert src[i..] == [];
    ReadNothing(strict);
  }

  // One character into dst, as the branches of the loops below store it.
  method PutUnits(dst: array<Unit>, pos: nat, res: Point, ghost was: seq<Unit>, ghost dstlen: nat,
                  ghost done: seq<Unit>)
    requires Holds(dst[..], was, dstlen, done) && pos == |done| && 0 < dstlen && pos + |Units(res)| <= dstlen
    modifies dst
    ensures Holds(dst[..], was, dstlen, done + Units(res))
  {
    ghost var before := dst[..];
    if res <= 0xFFFF {
      dst[pos] := res;
    } else {
      var r: int := res - 0x10000;
      dst[pos] := 0xD800 + r / 0x400;
      dst[pos + 1] := 0xDC00 + r % 0x400;
    }
    hide Holds;
    Appended(before, dst[..], was, dstlen, done, Units(res));
  }

  // What wine_utf8_mbstowcs answers: a buffer the text just fits is too small
  // if ignored bytes follow its last character.
  ghost predicate Filled(n: int, dst: seq<Unit>, was: seq<Unit>, dstlen: nat, out: seq<Unit>, bad: bool,
                         leftover: bool) {
    && dstlen <= |dst| == |was|
    && (dstlen == 0 ==> n == if bad then -2 else |out|)
    && (dstlen > 0 ==>
        n == if |out| > dstlen || (|out| == dstlen && leftover) then -1 else if bad then -2 else |out|)
    && (n >= 0 ==> Holds(dst, was, dstlen, out))
    && (forall k :: dstlen <= k < |was| ==> dst[k] == was[k])
  }

  // The units still to come, and whether ignored bytes will end the input.
  ghost predicate Coming(r: Reading, done: seq<Unit>, pending: bool, out: seq<Unit>, bad: bool, leftover: bool) {
    && done + AllUnits(r.points) == out && r.bad == bad
    && leftover == (r.leftover || (r.points == [] && pending))
  }

  lemma HoldsUntouched(dst: seq<Unit>, was: seq<Unit>, dstlen: nat, done: seq<Unit>)
    requires Holds(dst, was, dstlen, done)
    ensures dstlen <= |dst| == |was| && forall k :: dstlen <= k < |was| ==> dst[k] == was[k]
  {
  }

  // wine_utf8_mbstowcs without MB_COMPOSITE
  method MbsToWcs(strict: bool, src: seq<Byte>, dst: array<Unit>, dstlen: nat) returns (n: int)
    requires dstlen <= dst.Length
    modifies dst
    ensures var r := Read(src, strict);
            Filled(n, dst[..], old(dst[..]), dstlen, AllUnits(r.points), r.bad, r.leftover)
  {
    hide Read, AllUnits, CharAt, Form, Holds;
    ghost var was, all := dst[..], Read(src, strict);
    ghost var out := AllUnits(all.points);
    if dstlen == 0 {
      n := LengthMbs(strict, src);
      NothingYetZero(was, out);
      return;
    }
    ghost var done: seq<Unit>, pending := [], false;
    var i, pos := 0, 0;
    NothingYet(was, dstlen);
    assert src[0..] == src && [] + out == out;
    while pos < dstlen && i < |src|
      invariant 0 <= i <= |src| && pos == |done| && Holds(dst[..], was, dstlen, done)
      invariant Coming(Read(src[i..], strict), done, pending, out, all.bad, all.leftover)
      invariant pos <= dstlen && (pending ==> pos < dstlen)
    {
      HoldsUntouched(dst[..], was, dstlen, done);
      var res, next := NextChar(src, i);
      NextStep(src, i, strict, res, next);
      ghost var rest := Read(src[next..], strict);
      i := next;
      if res > 0x10FFFF {
        if strict { ReadNothing(true); return -2; }
        pending := true;
      } else {
        ghost var now := done + Units(res);
        assert now + AllUnits(rest.points) == done + (Units(res) + AllUnits(rest.points));
        if res > 0xFFFF && pos == dstlen - 1 { return -1; }
        PutUnits(dst, pos, res, was, dstlen, done);
        pos := if res <= 0xFFFF then pos + 1 else pos + 2;
        done, pending := now, false;
      }
    }
    HoldsUntouched(dst[..], was, dstlen, done);
    ReadNothing(strict);
    if i < |src| {
      Leftovers(src[i..], strict);
      return -1;
    }
    assert src[i..] == [] && done + [] == done;
    return pos;
  }

  // One letter and one byte that starts no form: the query says one unit, and a
  // buffer of one unit is too small.
  lemma QueryFallsShort()
    ensures var r := Read([0x41, 0xFF], false);
            && r == Reading([0x41], false, true) && |AllUnits(r.points)| == 1
            && forall n, dst, was :: Filled(n, dst, was, 1, AllUnits(r.points), r.bad, r.leftover) ==> n == -1
  {
    var b := [0x41, 0xFF];
    assert StartsWith(b, 0x41);
    CharAtForm(0x41, b);
    var rest := b[|Form(0x41)|..];
    assert rest == [0xFF];
    forall v: Point
      ensures !StartsWith(rest, v)
    {
      assert Form(v)[0] != 0xFF;
    }
    hide CharAt;
    assert CharAt(rest) == Ignored(1) by { NoFormIgnored(rest); }
    ReadIgnored(rest, false, 1);
    assert rest[1..] == [];
    ReadNothing(false);
    ReadGood(b, false, 0x41);
  }

  lemma NoFormIgnored(b: seq<Byte>)
    requires b != [] && forall v: Point :: !StartsWith(b, v)
    ensures CharAt(b) == Ignored(1 + Swallowed(b))
  {
  }

  lemma NothingYetZero(was: seq<Unit>, out: seq<Unit>)
    ensures Holds(was, was, 0, out)
  {
  }

  // Input that is left holds a unit or is left over.
  lemma Leftovers(b: seq<Byte>, strict: bool)
    requires b != []
    ensures |AllUnits(Read(b, strict).points)| > 0 || (Read(b, strict).points == [] && Read(b, strict).leftover)
  {
  }

  // ---------------------------------------------------------------- with composition

  // The text with each character above 0x7F joined to the one before it where
  // 'compose' has a character for the two; surrogate pairs are left alone.
  function Composing(cs: seq<Point>, out: seq<Unit>, last: Unit, compose: (Unit, Unit) -> Unit): seq<Unit> {
    if cs == [] then out
    else if 0x80 <= cs[0] < 0x10000 && last != 0 && out != [] && compose(last, cs[0]) != 0 then
      Composing(cs[1..], out[..|out| - 1] + [compose(last, cs[0])], compose(last, cs[0]), compose)
    else if cs[0] < 0x10000 then Composing(cs[1..], out + [cs[0]], cs[0], compose)
    else Composing(cs[1..], out + Units(cs[0]), 0, compose)
  }

  // Composition never takes a unit back.
  lemma {:induction false} ComposingGrows(cs: seq<Point>, out: seq<Unit>, last: Unit, compose: (Unit, Unit) -> Unit)
    ensures |out| <= |Composing(cs, out, last, compose)| <= |out| + |AllUnits(cs)|
  {
    hide Units;
    if cs == [] {
    } else if 0x80 <= cs[0] < 0x10000 && last != 0 && out != [] && compose(last, cs[0]) != 0 {
      ComposingGrows(cs[1..], out[..|out| - 1] + [compose(last, cs[0])], compose(last, cs[0]), compose);
    } else if cs[0] < 0x10000 {
      ComposingGrows(cs[1..], out + [cs[0]], cs[0], compose);
    } else {
      ComposingGrows(cs[1..], out + Units(cs[0]), 0, compose);
    }
  }

  // Without composed characters it is the plain conversion.
  lemma {:induction false} ComposingNothing(cs: seq<Point>, out: seq<Unit>, last: Unit, compose: (Unit, Unit) -> Unit)
    requires forall x, y :: compose(x, y) == 0
    ensures Composing(cs, out, last, compose) == out + AllUnits(cs)
  {
    if cs == [] {
      assert out + [] == out;
    } else {
      var v, rest := cs[0], cs[1..];
      assert (out + Units(v)) + AllUnits(rest) == out + (Units(v) + AllUnits(rest));
      assert v < 0x10000 ==> Units(v) == [v];
      hide Units;
      ComposingNothing(rest, out + Units(v), if v < 0x10000 then v else 0, compose);
    }
  }

  // One character more in front of what is still to come.
  lemma ComposingStep(v: Point, rest: seq<Point>, out: seq<Unit>, last: Unit, compose: (Unit, Unit) -> Unit)
    ensures Composing([v] + rest, out, last, compose) ==
      if 0x80 <= v < 0x10000 && last != 0 && out != [] && compose(last, v) != 0 then
        Composing(rest, out[..|out| - 1] + [compose(last, v)], compose(last, v), compose)
      else if v < 0x10000 then Composing(rest, out + [v], v, compose)
      else Composing(rest, out + Units(v), 0, compose)
  {
  }

  // get_length_mbs_utf8_compose
  method LengthMbsCompose(strict: bool, src: seq<Byte>, compose: (Unit, Unit) -> Unit) returns (n: int)
    ensures var r := Read(src, strict);
            n == if r.bad then -2 else |Composing(r.points, [], 0, compose)|
  {
    hide Read, AllUnits, CharAt, Form, Composing;
    ghost var all := Read(src, strict);
    ghost var done: seq<Unit> := [];
    var ret, i, last: Unit := 0, 0, 0;
    assert src[0..] == src;
    while i < |src|
      invariant 0 <= i <= |src| && ret == |done| && (last != 0 ==> done != [])
      invariant var r := Read(src[i..], strict);
                r.bad == all.bad && Composing(r.points, done, last, compose) == Composing(all.points, [], 0, compose)
    {
      var res, pos := NextChar(src, i);
      NextStep(src, i, strict, res, pos);
      i := pos;
      if res <= 0x10FFFF {
        ComposingStep(res, Read(src[pos..], strict).points, done, last, compose);
      }
      if res <= 0xFFFF {
        if 0x80 <= res && last != 0 {
          last := compose(last, res);
          if last != 0 {
            done := done[..|done| - 1] + [last];
            continue;
          }
        }
        done := done + [res];
        last := res;
        ret := ret + 1;
      } else if res <= 0x10FFFF {
        done := done + Units(res);
        ret := ret + 2;
        last := 0;
      } else if strict {
        return -2;
      }
    }
    assert src[i..] == [];
    ReadNothing(strict);
    ComposedAll(done, last, compose);
    return ret;
  }

  lemma ComposedAll(done: seq<Unit>, last: Unit, compose: (Unit, Unit) -> Unit)
    ensures Composing([], done, last, compose) == done
  {
  }

  // dst[-1] = composed[0]
  method ReplaceLast(dst: array<Unit>, pos: nat, c: Unit, ghost was: seq<Unit>, ghost dstlen: nat,
                     ghost done: seq<Unit>)
    requires Holds(dst[..], was, dstlen, done) && pos == |done| > 0 && 0 < dstlen
    modifies dst
    ensures Holds(dst[..], was, dstlen, done[..|done| - 1] + [c])
  {
    ghost var before := dst[..];
    dst[pos - 1] := c;
    assert dst[..] == before[pos - 1 := c];
  }

  // utf8_mbstowcs_compose: for every query result n >= 0, n units when they fit and -1 when not.
  method MbsToWcsCompose(strict: bool, src: seq<Byte>, dst: array<Unit>, dstlen: nat, compose: (Unit, Unit) -> Unit)
    returns (n: int)
    requires dstlen <= dst.Length
    modifies dst
    ensures var r := Read(src, strict);
            Converted(n, dst[..], old(dst[..]), dstlen, Composing(r.points, [], 0, compose), r.bad)
  {
    hide Read, AllUnits, CharAt, Form, Composing, Holds, Delivered;
    ghost var was, all := dst[..], Read(src, strict);
    ghost var out := Composing(all.points, [], 0, compose);
    if dstlen == 0 {
      n := LengthMbsCompose(strict, src, compose);
      CountedOnly(was, out);
      return;
    }
    ghost var done: seq<Unit> := [];
    var last: Unit, i, pos := 0, 0, 0;
    NothingYet(was, dstlen);
    assert src[0..] == src;
    while i < |src|
      invariant 0 <= i <= |src| && pos == |done| <= dstlen && Holds(dst[..], was, dstlen, done)
      invariant last != 0 ==> done != []
      invariant var r := Read(src[i..], strict);
                r.bad == all.bad && Composing(r.points, done, last, compose) == out
    {
      var res, next := NextChar(src, i);
      NextStep(src, i, strict, res, next);
      i := next;
      ghost var rest := Read(src[i..], strict).points;
      if res <= 0x10FFFF {
        ComposingStep(res, rest, done, last, compose);
      }
      if 0x80 <= res <= 0xFFFF && last != 0 {
        last := compose(last, res);
        if last != 0 {
          ReplaceLast(dst, pos, last, was, dstlen, done);
          done := done[..|done| - 1] + [last];
          continue;
        }
      }
      if res <= 0x10FFFF {
        if pos >= (if res <= 0xFFFF then dstlen else dstlen - 1) {
          TooLong(dst[..], was, dstlen, done, Units(res), rest, if res <= 0xFFFF then res else 0, out, compose);
          return -1;
        }
        PutUnits(dst, pos, res, was, dstlen, done);
        done := done + Units(res);
        pos := if res <= 0xFFFF then pos + 1 else pos + 2;
        last := if res <= 0xFFFF then res else 0;
      } else if strict {
        ComposedAll(done, last, compose);
        AllWritten(dst[..], was, dstlen, out);
        return -2;
      }
    }
    assert src[i..] == [];
    ReadNothing(strict);
    ComposedAll(done, last, compose);
    AllWritten(dst[..], was, dstlen, out);
    return pos;
  }

  lemma TooLong(dst: seq<Unit>, was: seq<Unit>, dstlen: nat, done: seq<Unit>, more: seq<Unit>,
                rest: seq<Point>, last: Unit, out: seq<Unit>, compose: (Unit, Unit) -> Unit)
    requires Holds(dst, was, dstlen, done) && 0 < dstlen < |done| + |more|
    requires Composing(rest, done + more, last, compose) == out
    ensures Delivered(-1, dst, was, dstlen, out) && dstlen < |out|
  {
    ComposingGrows(rest, done + more, last, compose);
  }
}
