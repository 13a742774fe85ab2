/**
 * UTF-7 conversion (APIStringCodepages.cpp; RFC 2152, "UTF-7 Definition").
 * WCHAR and DWORD are 32 bits wide, and are bit vectors here.
 */
module Utf7 {
  import opened Buffers

  type Octet = bv8
  type Wide = bv32

  // A WCHAR to encode: it is signed, and a negative one would index the table of
  // directly encodable characters below its start.
  type WideChar = x: Wide | x < 0x8000_0000

  const PLUS: Octet := 0x2B
  const DASH: Octet := 0x2D

  // ---------------------------------------------------------------- tables

  // directly_encodable_table: letters, digits, '()+,-./:?, space, tab, line ends and NUL.
  predicate CanDirectlyEncode(c: Wide) {
    || c == 0 || c == 9 || c == 10 || c == 13 || c == 0x20 || c == 0x3F
    || 0x27 <= c <= 0x29 || 0x2B <= c <= 0x3A || 0x41 <= c <= 0x5A || 0x61 <= c <= 0x7A
  }

  // base64_encoding_table
  function Base64(x: Wide): (c: Octet)
    requires x < 64
    ensures c < 0x80 && c != DASH
  {
    if x < 26 then x as Octet + 0x41
    else if x < 52 then (x - 26) as Octet + 0x61
    else if x < 62 then (x - 52) as Octet + 0x30
    else if x == 62 then PLUS
    else 0x2F
  }

  predicate IsBase64(c: Octet) {
    0x41 <= c <= 0x5A || 0x61 <= c <= 0x7A || 0x30 <= c <= 0x39 || c == PLUS || c == 0x2F
  }

  // base64_decoding_table
  function Sextet(c: Octet): (x: Wide)
    requires IsBase64(c)
    ensures x < 64
  {
    if 0x41 <= c <= 0x5A then (c - 0x41) as Wide
    else if 0x61 <= c <= 0x7A then (c - 0x61) as Wide + 26
    else if 0x30 <= c <= 0x39 then (c - 0x30) as Wide + 52
    else if c == PLUS then 62
    else 63
  }

  lemma SextetOfBase64(x: Wide)
    requires x < 64
    ensures IsBase64(Base64(x)) && Sextet(Base64(x)) == x
  {
  }

  // ---------------------------------------------------------------- bit buffers

  type Digit = x: Wide | x < 64

  // byte_pair with 16 or 6 more bits shifted in, and what is read off it above its low k bits.
  function Push16(p: Wide, u: Wide): Wide { (p << 16) | u }
  function Push6(p: Wide, x: Digit): Wide { (p << 6) | x }
  function SixAt(p: Wide, k: nat): Digit
    requires k <= 31
  {
    (p >> k) & 0x3F
  }
  function SixteenAt(p: Wide, k: nat): (u: Wide)
    requires k <= 31
    ensures u <= 0xFFFF
  {
    (p >> k) & 0xFFFF
  }

  // The o pending bits, filled up with zeros to a group.
  function Padding(p: Wide, o: nat): Digit
    requires o < 6
  {
    (p << (6 - o)) & 0x3F
  }

  // ---------------------------------------------------------------- encoding

  // The six-bit groups of the low 'offset' bits, high ones first, and how many bits remain.
  function Groups(pair: Wide, offset: nat): seq<Octet>
    requires offset <= 32
  {
    if offset < 6 then [] else [Base64(SixAt(pair, offset - 6))] + Groups(pair, offset - 6)
  }

  function Encode(s: seq<WideChar>): seq<Octet>
    decreases |s|, if s != [] && !CanDirectlyEncode(s[0]) then 2 else 0
  {
    if s == [] then []
    else if s[0] == 0x2B then [PLUS, DASH] + Encode(s[1..])
    else if CanDirectlyEncode(s[0]) then [s[0] as Octet] + Encode(s[1..])
    else [PLUS] + EncodeRun(s, 0, 0)
  }

  // Inside a base64 run, with 'offset' bits of 'pair' not yet written.
  function EncodeRun(s: seq<WideChar>, pair: Wide, offset: nat): seq<Octet>
    requires offset < 6
    decreases |s|, 1
  {
    if s == [] || CanDirectlyEncode(s[0]) then
      (if offset != 0 then [Base64(Padding(pair, offset))] else []) + [DASH] + Encode(s)
    else
      var next := Push16(pair, s[0]);
      Groups(next, offset + 16) + EncodeRun(s[1..], next, (offset + 16) % 6)
  }

  // ---------------------------------------------------------------- decoding

  function Decode(b: seq<Octet>, pair: Wide, offset: nat): seq<Wide>
    requires offset < 16
    decreases |b|, 0
  {
    if b == [] then []
    else if b[0] != PLUS then [b[0] as Wide] + Decode(b[1..], pair, offset)
    else if |b| == 1 then []
    else if b[1] == DASH then [0x2B] + Decode(b[2..], pair, offset)
    else DecodeRun(b[1..], pair, offset)
  }

  function DecodeRun(b: seq<Octet>, pair: Wide, offset: nat): seq<Wide>
    requires offset < 16
    decreases |b|, 1
  {
    if b == [] then []
    else if b[0] == DASH then Decode(b[1..], pair, 0)
    else if b[0] >= 0x80 then Decode(b, pair, offset)
    else if !IsBase64(b[0]) then Decode(b, pair, 0)
    else
      var next := Push6(pair, Sextet(b[0]));
      if offset + 6 >= 16 then [SixteenAt(next, offset - 10)] + DecodeRun(b[1..], next, offset - 10)
      else DecodeRun(b[1..], next, offset + 6)
  }

  // ---------------------------------------------------------------- round trip

  ghost predicate Units16(s: seq<Wide>) { forall i :: 0 <= i < |s| ==> s[i] <= 0xFFFF }

  // The decoder in a run lags the encoder: it lacks the encoder's o pending
  // bits and holds the upper bits of the same unit.
  ghost predicate InStep(p: Wide, o: nat, b: Wide, d: nat) {
    || (o == 0 && d == 0)
    || (o == 4 && d == 12 && Agrees(b, p, 0xFFF, 4))
    || (o == 2 && d == 14 && Agrees(b, p, 0x3FFF, 2))
  }

  // The low bits of b are those of p above its lowest k.
  predicate Agrees(b: Wide, p: Wide, mask: Wide, k: nat)
    requires k <= 31
  {
    b & mask == (p >> k) & mask
  }

  // The unit still to come out of the decoder.
  function PendingUnit(p: Wide, o: nat): seq<Wide> { if o == 0 then [] else [SixteenAt(p, 0)] }

  // One base64 character through the decoder: it completes a unit, or not yet.
  lemma DecodeEmits(x: Digit, rest: seq<Octet>, pair: Wide, d: nat)
    requires 10 <= d < 16
    ensures DecodeRun([Base64(x)] + rest, pair, d)
            == [SixteenAt(Push6(pair, x), d - 10)] + DecodeRun(rest, Push6(pair, x), d - 10)
  {
  }

  lemma DecodeHolds(x: Digit, rest: seq<Octet>, pair: Wide, d: nat)
    requires d < 10
    ensures DecodeRun([Base64(x)] + rest, pair, d) == DecodeRun(rest, Push6(pair, x), d + 6)
  {
  }

  lemma GroupStep(p: Wide, offset: nat)
    requires 6 <= offset <= 32
    ensures Groups(p, offset) == [Base64(SixAt(p, offset - 6))] + Groups(p, offset - 6)
  {
  }

  // The groups of one more unit, by how many bits were pending.
  lemma GroupsFrom0(p: Wide)
    ensures Groups(p, 16) == [Base64(SixAt(p, 10))] + [Base64(SixAt(p, 4))]
  {
    hide Groups, Base64, SixAt;
    GroupStep(p, 16);
    GroupStep(p, 10);
    GroupEnd(p, 4);
  }

  lemma GroupEnd(p: Wide, offset: nat)
    requires offset < 6
    ensures Groups(p, offset) == []
  {
  }

  lemma GroupsFrom2(p: Wide)
    ensures Groups(p, 18) == [Base64(SixAt(p, 12))] + ([Base64(SixAt(p, 6))] + [Base64(SixAt(p, 0))])
  {
    hide Groups, Base64, SixAt;
    GroupStep(p, 18);
    GroupStep(p, 12);
    GroupStep(p, 6);
    GroupEnd(p, 0);
  }

  lemma GroupsFrom4(p: Wide)
    ensures Groups(p, 20) == [Base64(SixAt(p, 14))] + ([Base64(SixAt(p, 8))] + [Base64(SixAt(p, 2))])
  {
    hide Groups, Base64, SixAt;
    GroupStep(p, 20);
    GroupStep(p, 14);
    GroupStep(p, 8);
    GroupEnd(p, 2);
  }

  lemma NewUnit(p: Wide, u: Wide)
    requires u <= 0xFFFF
    ensures SixteenAt(Push16(p, u), 0) == u
  {
  }

  // Two, three and three characters later the decoder is in step again.
  lemma InStepFrom0(p: Wide, u: Wide, b: Wide, q: Wide)
    requires u <= 0xFFFF && q == Push16(p, u)
    ensures InStep(q, 4, Push6(Push6(b, SixAt(q, 10)), SixAt(q, 4)), 12)
  {
  }

  lemma EmittedFrom4(p: Wide, u: Wide, b: Wide, q: Wide)
    requires u <= 0xFFFF && q == Push16(p, u) && Agrees(b, p, 0xFFF, 4)
    ensures SixteenAt(Push6(b, SixAt(q, 14)), 2) == SixteenAt(p, 0)
  {
  }

  lemma HeldFrom4(b: Wide, q: Wide)
    ensures Agrees(Push6(Push6(Push6(b, SixAt(q, 14)), SixAt(q, 8)), SixAt(q, 2)), q, 0x3FFF, 2)
  {
    hide Push6, SixAt, Agrees;
    HeldByOne(b, q);
    HeldByTwo(Push6(b, SixAt(q, 14)), q);
    HeldByThree(Push6(Push6(b, SixAt(q, 14)), SixAt(q, 8)), q);
  }

  lemma HeldByOne(b: Wide, q: Wide)
    ensures Agrees(Push6(b, SixAt(q, 14)), q, 0x3F, 14)
  {
  }

  lemma HeldByTwo(b: Wide, q: Wide)
    requires Agrees(b, q, 0x3F, 14)
    ensures Agrees(Push6(b, SixAt(q, 8)), q, 0xFF, 8)
  {
    var y := SixAt(q, 8);
    hide SixAt;
    EightBits(b, q, y);
  }

  lemma EightBits(b: Wide, q: Wide, y: Digit)
    requires Agrees(b, q, 0x3F, 14) && y == SixAt(q, 8)
    ensures Agrees(Push6(b, y), q, 0xFF, 8)
  {
    assert y == (q >> 8) & 0x3F;
    hide SixAt;
  }

  lemma HeldByThree(b: Wide, q: Wide)
    requires Agrees(b, q, 0xFF, 8)
    ensures Agrees(Push6(b, SixAt(q, 2)), q, 0x3FFF, 2)
  {
  }

  lemma InStepFrom4(p: Wide, u: Wide, b: Wide, q: Wide)
    requires u <= 0xFFFF && q == Push16(p, u) && InStep(p, 4, b, 12)
    ensures SixteenAt(Push6(b, SixAt(q, 14)), 2) == SixteenAt(p, 0)
    ensures InStep(q, 2, Push6(Push6(Push6(b, SixAt(q, 14)), SixAt(q, 8)), SixAt(q, 2)), 14)
  {
    hide Push6, Push16, SixAt, SixteenAt, Agrees;
    EmittedFrom4(p, u, b, q);
    HeldFrom4(b, q);
  }

  lemma InStepFrom2(p: Wide, u: Wide, b: Wide, q: Wide)
    requires u <= 0xFFFF && q == Push16(p, u) && InStep(p, 2, b, 14)
    ensures SixteenAt(Push6(b, SixAt(q, 12)), 4) == SixteenAt(p, 0)
    ensures SixteenAt(Push6(Push6(Push6(b, SixAt(q, 12)), SixAt(q, 6)), SixAt(q, 0)), 0) == u
  {
  }

  lemma PaddingCompletes(p: Wide, o: nat, b: Wide, d: nat)
    requires o != 0 && InStep(p, o, b, d)
    ensures SixteenAt(Push6(b, Padding(p, o)), d - 10) == SixteenAt(p, 0)
  {
    if o == 4 {
      PaddingBits4(p, b);
    } else {
      PaddingBits2(p, b);
    }
  }

  lemma PaddingBits4(p: Wide, b: Wide)
    requires InStep(p, 4, b, 12)
    ensures SixteenAt(Push6(b, Padding(p, 4)), 2) == SixteenAt(p, 0)
  {
  }

  lemma PaddingBits2(p: Wide, b: Wide)
    requires InStep(p, 2, b, 14)
    ensures SixteenAt(Push6(b, Padding(p, 2)), 4) == SixteenAt(p, 0)
  {
  }

  // What the decoder makes of the groups of one more unit: the unit that was
  // pending, then the new one if it is complete.
  ghost predicate UnitDecoded(u: Wide, q: Wide, p: Wide, o: nat, b: Wide, d: nat, rest: seq<Octet>, b': Wide, d': nat) {
    && o < 6 && d < 16 && d' < 16
    && DecodeRun(Groups(q, o + 16) + rest, b, d)
       == PendingUnit(p, o) + ((if (o + 16) % 6 == 0 then [u] else []) + DecodeRun(rest, b', d'))
  }

  lemma ThreeAndRest(x: Octet, y: Octet, z: Octet, rest: seq<Octet>)
    ensures ([x] + ([y] + [z])) + rest == [x] + ([y] + ([z] + rest))
  {
  }

  lemma UnitFrom0(u: Wide, p: Wide, b: Wide, rest: seq<Octet>, q: Wide) returns (b': Wide)
    requires u <= 0xFFFF && q == Push16(p, u)
    ensures UnitDecoded(u, q, p, 0, b, 0, rest, b', 12) && InStep(q, 4, b', 12)
  {
    hide DecodeRun, Groups, Base64, InStep, SixAt, SixteenAt, Push6, Push16;
    var x, y := SixAt(q, 10), SixAt(q, 4);
    var b1 := Push6(b, x);
    b' := Push6(b1, y);
    InStepFrom0(p, u, b, q);
    GroupsFrom0(q);
    DecodeHolds(x, [Base64(y)] + rest, b, 0);
    DecodeHolds(y, rest, b1, 6);
    assert ([Base64(x)] + [Base64(y)]) + rest == [Base64(x)] + ([Base64(y)] + rest);
  }

  lemma UnitFrom4(u: Wide, p: Wide, b: Wide, rest: seq<Octet>, q: Wide) returns (b': Wide)
    requires u <= 0xFFFF && q == Push16(p, u) && InStep(p, 4, b, 12)
    ensures UnitDecoded(u, q, p, 4, b, 12, rest, b', 14) && InStep(q, 2, b', 14)
  {
    hide DecodeRun, Groups, Base64, InStep, SixAt, SixteenAt, Push6, Push16;
    var x, y, z := SixAt(q, 14), SixAt(q, 8), SixAt(q, 2);
    var b1 := Push6(b, x);
    var b2 := Push6(b1, y);
    b' := Push6(b2, z);
    InStepFrom4(p, u, b, q);
    GroupsFrom4(q);
    DecodeEmits(x, [Base64(y)] + ([Base64(z)] + rest), b, 12);
    DecodeHolds(y, [Base64(z)] + rest, b1, 2);
    DecodeHolds(z, rest, b2, 8);
    ThreeAndRest(Base64(x), Base64(y), Base64(z), rest);
  }

  lemma UnitFrom2(u: Wide, p: Wide, b: Wide, rest: seq<Octet>, q: Wide) returns (b': Wide)
    requires u <= 0xFFFF && q == Push16(p, u) && InStep(p, 2, b, 14)
    ensures UnitDecoded(u, q, p, 2, b, 14, rest, b', 0) && InStep(q, 0, b', 0)
  {
    InStepFrom2(p, u, b, q);
    hide DecodeRun, Groups, Base64, SixAt, SixteenAt, Push6, Push16;
    var x, y, z := SixAt(q, 12), SixAt(q, 6), SixAt(q, 0);
    var b1 := Push6(b, x);
    var b2 := Push6(b1, y);
    b' := Push6(b2, z);
    GroupsFrom2(q);
    DecodeEmits(x, [Base64(y)] + ([Base64(z)] + rest), b, 14);
    DecodeHolds(y, [Base64(z)] + rest, b1, 4);
    DecodeEmits(z, rest, b2, 10);
    ThreeAndRest(Base64(x), Base64(y), Base64(z), rest);
  }

  lemma UnitInStep(u: Wide, p: Wide, o: nat, b: Wide, d: nat, rest: seq<Octet>, q: Wide) returns (b': Wide, d': nat)
    requires u <= 0xFFFF && InStep(p, o, b, d) && q == Push16(p, u)
    ensures UnitDecoded(u, q, p, o, b, d, rest, b', d') && InStep(q, (o + 16) % 6, b', d')
  {
    InStepBounds(p, o, b, d);
    hide UnitDecoded, Push16;
    if o == 0 {
      b' := UnitFrom0(u, p, b, rest, q);
      d' := 12;
    } else if o == 4 {
      b' := UnitFrom4(u, p, b, rest, q);
      d' := 14;
    } else {
      b' := UnitFrom2(u, p, b, rest, q);
      d' := 0;
    }
  }

  lemma InStepBounds(p: Wide, o: nat, b: Wide, d: nat)
    requires InStep(p, o, b, d)
    ensures (o == 0 && d == 0) || (o == 4 && d == 12) || (o == 2 && d == 14)
  {
  }

  lemma DashEnds(rest: seq<Octet>, pair: Wide, d: nat)
    requires d < 16
    ensures DecodeRun([DASH] + rest, pair, d) == Decode(rest, pair, 0)
  {
  }

  // Decoding undoes encoding, from any decoder state outside a run.
  lemma {:induction false} RoundTrip(s: seq<WideChar>, b: Wide)
    requires Units16(s)
    ensures Decode(Encode(s), b, 0) == s
    decreases |s|, if s != [] && !CanDirectlyEncode(s[0]) then 2 else 0
  {
    hide EncodeRun, DecodeRun;
    if s == [] {
    } else if s[0] == 0x2B {
      RoundTrip(s[1..], b);
      assert ([PLUS, DASH] + Encode(s[1..]))[2..] == Encode(s[1..]);
      assert [0x2B as Wide] + s[1..] == s;
    } else if CanDirectlyEncode(s[0]) {
      RoundTrip(s[1..], b);
      DirectByte(s[0], Encode(s[1..]), b);
      assert [s[0]] + s[1..] == s;
    } else {
      RunRoundTrip(s, 0, 0, b, 0);
      RunStarts(s);
      assert ([PLUS] + EncodeRun(s, 0, 0))[1..] == EncodeRun(s, 0, 0);
    }
  }

  lemma DirectByte(c: Wide, rest: seq<Octet>, b: Wide)
    requires CanDirectlyEncode(c) && c != 0x2B
    ensures Decode([c as Octet] + rest, b, 0) == [c] + Decode(rest, b, 0)
  {
  }

  // A run never starts with the dash that would make it an escaped plus.
  lemma RunStarts(s: seq<WideChar>)
    requires s != [] && !CanDirectlyEncode(s[0])
    ensures |EncodeRun(s, 0, 0)| > 0 && EncodeRun(s, 0, 0)[0] != DASH
  {
  }

  lemma EncodeRunEnd(s: seq<WideChar>, p: Wide, o: nat)
    requires o < 6 && (s == [] || CanDirectlyEncode(s[0]))
    ensures EncodeRun(s, p, o) == if o == 0 then [DASH] + Encode(s) else [Base64(Padding(p, o))] + ([DASH] + Encode(s))
  {
  }

  lemma EncodeRunUnit(s: seq<WideChar>, p: Wide, o: nat)
    requires o < 6 && s != [] && !CanDirectlyEncode(s[0])
    ensures EncodeRun(s, p, o)
         == Groups(Push16(p, s[0]), o + 16) + EncodeRun(s[1..], Push16(p, s[0]), (o + 16) % 6)
  {
    hide Encode, Base64, Padding, Push16, Groups;
  }

  // A unit that is through: what the decoder gives now and what it gives later.
  lemma UnitThrough(s: seq<WideChar>, q: Wide, p: Wide, o: nat, b: Wide, d: nat, rest: seq<Octet>, b': Wide, d': nat)
    requires s != [] && s[0] <= 0xFFFF && q == Push16(p, s[0]) && UnitDecoded(s[0], q, p, o, b, d, rest, b', d')
    requires DecodeRun(rest, b', d') == PendingUnit(q, (o + 16) % 6) + s[1..]
    ensures DecodeRun(Groups(q, o + 16) + rest, b, d) == PendingUnit(p, o) + s
  {
    NewUnit(p, s[0]);
    hide DecodeRun, Groups, Push16, SixteenAt;
    var o' := (o + 16) % 6;
    assert (if o' == 0 then [s[0]] else []) + (PendingUnit(q, o') + s[1..]) == s;
  }

  // Ending the run with the pending unit complete.
  lemma RunEndRoundTrip(s: seq<WideChar>, p: Wide, o: nat, b: Wide, d: nat)
    requires InStep(p, o, b, d) && (s == [] || CanDirectlyEncode(s[0]))
    requires forall b' :: Decode(Encode(s), b', 0) == s
    ensures DecodeRun(EncodeRun(s, p, o), b, d) == PendingUnit(p, o) + s
  {
    InStepBounds(p, o, b, d);
    EncodeRunEnd(s, p, o);
    if o == 0 {
      hide Encode, EncodeRun, Decode, DecodeRun, InStep;
      DashEnds(Encode(s), b, d);
    } else {
      var x := Padding(p, o);
      PaddingCompletes(p, o, b, d);
      DecodeEmits(x, [DASH] + Encode(s), b, d);
      hide Encode, EncodeRun, Decode, DecodeRun, Base64, Padding, Push6, SixteenAt, InStep;
      DashEnds(Encode(s), Push6(b, x), d - 10);
    }
  }

  lemma {:induction false} RunRoundTrip(s: seq<WideChar>, p: Wide, o: nat, b: Wide, d: nat)
    requires Units16(s) && InStep(p, o, b, d)
    ensures DecodeRun(EncodeRun(s, p, o), b, d) == PendingUnit(p, o) + s
    decreases |s|, 1
  {
    InStepBounds(p, o, b, d);
    hide Encode, EncodeRun, Decode, DecodeRun, Groups, Push16, PendingUnit, UnitDecoded, InStep;
    if s == [] || CanDirectlyEncode(s[0]) {
      forall b' {
        RoundTrip(s, b');
      }
      RunEndRoundTrip(s, p, o, b, d);
    } else {
      var q, o' := Push16(p, s[0]), (o + 16) % 6;
      EncodeRunUnit(s, p, o);
      var b', d' := UnitInStep(s[0], p, o, b, d, EncodeRun(s[1..], q, o'), q);
      RunRoundTrip(s[1..], q, o', b', d');
      UnitThrough(s, q, p, o, b, d, EncodeRun(s[1..], q, o'), b', d');
    }
  }

  // ---------------------------------------------------------------- exactly the 16-bit units

  lemma {:induction false} DecodesToUnits16(b: seq<Octet>, pair: Wide, offset: nat, inRun: bool)
    requires offset < 16
    ensures Units16(if inRun then DecodeRun(b, pair, offset) else Decode(b, pair, offset))
    decreases |b|, inRun
  {
    hide Push6, SixteenAt, Sextet;
    if b == [] {
    } else if !inRun {
      if b[0] != PLUS {
        DecodesToUnits16(b[1..], pair, offset, false);
      } else if |b| > 1 && b[1] == DASH {
        DecodesToUnits16(b[2..], pair, offset, false);
      } else if |b| > 1 {
        DecodesToUnits16(b[1..], pair, offset, true);
      }
    } else if b[0] == DASH {
      DecodesToUnits16(b[1..], pair, 0, false);
    } else if b[0] >= 0x80 || !IsBase64(b[0]) {
      DecodesToUnits16(b, pair, if b[0] >= 0x80 then offset else 0, false);
    } else {
      var next := Push6(pair, Sextet(b[0]));
      DecodesToUnits16(b[1..], next, if offset + 6 >= 16 then offset - 10 else offset + 6, true);
    }
  }

  // Encoding can be undone exactly for strings of 16-bit units.
  lemma RoundTripIff(s: seq<WideChar>)
    ensures Decode(Encode(s), 0, 0) == s <==> Units16(s)
  {
    if Units16(s) {
      RoundTrip(s, 0);
    }
    DecodesToUnits16(Encode(s), 0, 0, false);
  }

  // The encoding is what the format is for: seven bits to the byte.
  lemma {:induction false} EncodeIsSevenBit(s: seq<WideChar>, pair: Wide, offset: nat, inRun: bool)
    requires offset < 6
    ensures SevenBit(if inRun then EncodeRun(s, pair, offset) else Encode(s))
    decreases |s|, if inRun then 1 else if s != [] && !CanDirectlyEncode(s[0]) then 2 else 0
  {
    hide Base64, Padding, Push16, Groups;
    if inRun {
      if s == [] || CanDirectlyEncode(s[0]) {
        EncodeIsSevenBit(s, 0, 0, false);
      } else {
        GroupsAreSevenBit(Push16(pair, s[0]), offset + 16);
        EncodeIsSevenBit(s[1..], Push16(pair, s[0]), (offset + 16) % 6, true);
      }
    } else if s != [] {
      if CanDirectlyEncode(s[0]) {
        EncodeIsSevenBit(s[1..], 0, 0, false);
      } else {
        EncodeIsSevenBit(s, 0, 0, true);
      }
    }
  }

  ghost predicate SevenBit(b: seq<Octet>) { forall i :: 0 <= i < |b| ==> b[i] < 0x80 }

  lemma {:induction false} GroupsAreSevenBit(pair: Wide, offset: nat)
    requires offset <= 32
    ensures SevenBit(Groups(pair, offset))
  {
    hide Base64, SixAt;
    if offset >= 6 {
      GroupsAreSevenBit(pair, offset - 6);
    }
  }

  // ---------------------------------------------------------------- into buffers

  // utf7_write_w and utf7_write_c; 'more' is what remains to be written after c.
  method Put<T>(dst: array<T>, dstlen: nat, index: nat, c: T,
                ghost done: seq<T>, ghost more: seq<T>, ghost was: seq<T>, ghost out: seq<T>)
    returns (ok: bool, next: nat, ghost now: seq<T>)
    requires Holds(dst[..], was, dstlen, done) && index == |done|
    requires done + ([c] + more) == out
    modifies dst
    ensures ok <==> dstlen == 0 || index < dstlen
    ensures ok ==> now == done + [c] && next == |now| && Holds(dst[..], was, dstlen, now) && now + more == out
    ensures !ok ==> Delivered(-1, dst[..], was, dstlen, out)
  {
    now := done + [c];
    assert now + more == out;
    if dstlen > 0 {
      if index >= dstlen {
        Overflowed(dst[..], was, dstlen, done, [c] + more, out);
        return false, index, now;
      }
      dst[index] := c;
      assert dst[..] == old(dst[..])[index := c];
    }
    return true, index + 1, now;
  }

  lemma EncodeHead(s: seq<WideChar>)
    requires s != []
    ensures Encode(s) ==
      if s[0] == 0x2B then [PLUS] + ([DASH] + Encode(s[1..]))
      else if CanDirectlyEncode(s[0]) then [s[0] as Octet] + Encode(s[1..])
      else [PLUS] + EncodeRun(s, 0, 0)
  {
  }

  // utf7_wcstombs: -1 exactly when a given buffer is shorter than the query says.
  method Wcstombs(src: seq<WideChar>, dst: array<Octet>, dstlen: nat) returns (n: int)
    requires dstlen <= dst.Length
    modifies dst
    ensures Delivered(n, dst[..], old(dst[..]), dstlen, Encode(src))
  {
    hide Encode, EncodeRun, Holds, Delivered;
    ghost var was, out := dst[..], Encode(src);
    ghost var done: seq<Octet> := [];
    var i, index, ok := 0, 0, true;
    assert Holds(dst[..], was, dstlen, done) by { NothingYet(was, dstlen); }
    assert src[0..] == src && [] + out == out;
    while i < |src|
      invariant 0 <= i <= |src|
      invariant Holds(dst[..], was, dstlen, done) && index == |done|
      invariant done + Encode(src[i..]) == out
    {
      ghost var rest := Encode(src[i + 1..]);
      EncodeHead(src[i..]);
      assert src[i..][1..] == src[i + 1..];
      if src[i] == 0x2B {
        ok, index, done := Put(dst, dstlen, index, PLUS, done, [DASH] + rest, was, out);
        if !ok { return -1; }
        ok, index, done := Put(dst, dstlen, index, DASH, done, rest, was, out);
        if !ok { return -1; }
        i := i + 1;
      } else if CanDirectlyEncode(src[i]) {
        ok, index, done := Put(dst, dstlen, index, src[i] as Octet, done, rest, was, out);
        if !ok { return -1; }
        i := i + 1;
      } else {
        ok, index, done := Put(dst, dstlen, index, PLUS, done, EncodeRun(src[i..], 0, 0), was, out);
        if !ok { return -1; }
        ok, i, index, done := WriteRun(src, i, dst, dstlen, index, done, was, out);
        if !ok { return -1; }
      }
    }
    assert src[i..] == [] && done == out by { EncodeNothing(src[i..]); }
    AllWritten(dst[..], was, dstlen, out);
    return index;
  }

  lemma EncodeNothing(s: seq<WideChar>)
    requires s == []
    ensures Encode(s) == []
  {
  }

  // The complete groups of utf7_wcstombs's inner loop.
  method WriteGroups(pair: Wide, offset0: nat, dst: array<Octet>, dstlen: nat, index0: nat,
                     ghost done0: seq<Octet>, ghost rest: seq<Octet>, ghost was: seq<Octet>, ghost out: seq<Octet>)
    returns (ok: bool, offset: nat, index: nat, ghost done: seq<Octet>)
    requires offset0 <= 32
    requires Holds(dst[..], was, dstlen, done0) && index0 == |done0|
    requires done0 + (Groups(pair, offset0) + rest) == out
    modifies dst
    ensures ok ==> offset == offset0 % 6 && index == |done| && Holds(dst[..], was, dstlen, done) && done + rest == out
    ensures !ok ==> Delivered(-1, dst[..], was, dstlen, out)
  {
    hide Groups, Base64, SixAt, Holds, Delivered;
    ok, offset, index, done := true, offset0, index0, done0;
    while offset >= 6
      invariant ok && offset <= 32 && offset % 6 == offset0 % 6
      invariant Holds(dst[..], was, dstlen, done) && index == |done|
      invariant done + (Groups(pair, offset) + rest) == out
    {
      GroupStep(pair, offset);
      ghost var more := Groups(pair, offset - 6);
      assert ([Base64(SixAt(pair, offset - 6))] + more) + rest == [Base64(SixAt(pair, offset - 6))] + (more + rest);
      ok, index, done := Put(dst, dstlen, index, Base64(SixAt(pair, offset - 6)), done, more + rest, was, out);
      if !ok { return; }
      offset := offset - 6;
    }
    GroupEnd(pair, offset);
    assert [] + rest == rest;
  }

  // The base64 run of utf7_wcstombs.
  method WriteRun(src: seq<WideChar>, start: nat, dst: array<Octet>, dstlen: nat, index0: nat,
                  ghost done0: seq<Octet>, ghost was: seq<Octet>, ghost out: seq<Octet>)
    returns (ok: bool, i: nat, index: nat, ghost done: seq<Octet>)
    requires start < |src| && !CanDirectlyEncode(src[start])
    requires Holds(dst[..], was, dstlen, done0) && index0 == |done0|
    requires done0 + EncodeRun(src[start..], 0, 0) == out
    modifies dst
    ensures ok ==>
              && start < i <= |src| && index == |done| && Holds(dst[..], was, dstlen, done)
              && done + Encode(src[i..]) == out
    ensures !ok ==> Delivered(-1, dst[..], was, dstlen, out)
  {
    hide Encode, EncodeRun, Groups, Base64, Padding, Push16, CanDirectlyEncode, Holds, Delivered;
    i, index, done := start, index0, done0;
    var offset, pair: Wide := 0, 0;
    while i < |src| && !CanDirectlyEncode(src[i])
      invariant start <= i <= |src| && offset < 6 && (i == start ==> !CanDirectlyEncode(src[i]))
      invariant Holds(dst[..], was, dstlen, done) && index == |done|
      invariant done + EncodeRun(src[i..], pair, offset) == out
      decreases |src| - i
    {
      EncodeRunUnit(src[i..], pair, offset);
      assert src[i..][1..] == src[i + 1..];
      pair := Push16(pair, src[i]);
      ok, offset, index, done := WriteGroups(pair, offset + 16, dst, dstlen, index, done,
                                             EncodeRun(src[i + 1..], pair, (offset + 16) % 6), was, out);
      if !ok { return; }
      i := i + 1;
    }
    EncodeRunEnd(src[i..], pair, offset);
    ghost var tail := Encode(src[i..]);
    if offset != 0 {
      if dstlen > 0 && index + 1 >= dstlen {
        Overflowed(dst[..], was, dstlen, done, [Base64(Padding(pair, offset))] + ([DASH] + tail), out);
        return false, i, index, done;
      }
      ok, index, done := Put(dst, dstlen, index, Base64(Padding(pair, offset)), done, [DASH] + tail, was, out);
      if !ok { return; }
    }
    ok, index, done := Put(dst, dstlen, index, DASH, done, tail, was, out);
  }

  lemma DecodeHead(b: seq<Octet>, pair: Wide, offset: nat)
    requires b != [] && offset < 16
    ensures Decode(b, pair, offset) ==
      if b[0] != PLUS then [b[0] as Wide] + Decode(b[1..], pair, offset)
      else if |b| == 1 then []
      else if b[1] == DASH then [PLUS as Wide] + Decode(b[2..], pair, offset)
      else DecodeRun(b[1..], pair, offset)
  {
    hide DecodeRun;
  }

  lemma DecodeRunHead(b: seq<Octet>, pair: Wide, offset: nat)
    requires b != [] && offset < 16
    ensures DecodeRun(b, pair, offset) ==
      if b[0] == DASH then Decode(b[1..], pair, 0)
      else if b[0] >= 0x80 then Decode(b, pair, offset)
      else if !IsBase64(b[0]) then Decode(b, pair, 0)
      else if offset + 6 >= 16 then
        [SixteenAt(Push6(pair, Sextet(b[0])), offset - 10)] + DecodeRun(b[1..], Push6(pair, Sextet(b[0])), offset - 10)
      else DecodeRun(b[1..], Push6(pair, Sextet(b[0])), offset + 6)
  {
    hide Decode, Push6, SixteenAt, Sextet;
  }

  lemma DecodeNothing(b: seq<Octet>, pair: Wide, offset: nat)
    requires b == [] && offset < 16
    ensures Decode(b, pair, offset) == [] == DecodeRun(b, pair, offset)
  {
  }

  // utf7_mbstowcs
  method Mbstowcs(src: seq<Octet>, dst: array<Wide>, dstlen: nat) returns (n: int)
    requires dstlen <= dst.Length
    modifies dst
    ensures Delivered(n, dst[..], old(dst[..]), dstlen, Decode(src, 0, 0))
  {
    hide Decode, DecodeRun, Holds, Delivered;
    ghost var was, out := dst[..], Decode(src, 0, 0);
    ghost var done: seq<Wide> := [];
    var i, index, ok := 0, 0, true;
    var pair: Wide, offset := 0, 0;
    NothingYet(was, dstlen);
    assert src[0..] == src && [] + out == out;
    while i < |src|
      invariant 0 <= i <= |src| && offset < 16
      invariant Holds(dst[..], was, dstlen, done) && index == |done|
      invariant done + Decode(src[i..], pair, offset) == out
    {
      DecodeHead(src[i..], pair, offset);
      assert src[i..][1..] == src[i + 1..];
      if src[i] == PLUS {
        i := i + 1;
        if i >= |src| {
          assert src[i..] == [];
          DecodeNothing(src[i..], pair, offset);
          break;
        }
        if src[i] == DASH {
          assert src[i - 1..][2..] == src[i + 1..];
          ok, index, done := Put(dst, dstlen, index, PLUS as Wide, done, Decode(src[i + 1..], pair, offset), was, out);
          if !ok { return -1; }
          i := i + 1;
          continue;
        }
        ok, i, index, pair, offset, done := ReadRun(src, i, dst, dstlen, index, pair, offset, done, was, out);
        if !ok { return -1; }
      } else {
        ok, index, done := Put(dst, dstlen, index, src[i] as Wide, done, Decode(src[i + 1..], pair, offset), was, out);
        if !ok { return -1; }
        i := i + 1;
      }
    }
    assert src[i..] == [];
    DecodeNothing(src[i..], pair, offset);
    assert done == out;
    AllWritten(dst[..], was, dstlen, out);
    return index;
  }

  // The base64 run of utf7_mbstowcs.
  method ReadRun(src: seq<Octet>, start: nat, dst: array<Wide>, dstlen: nat, index0: nat, pair0: Wide, offset0: nat,
                 ghost done0: seq<Wide>, ghost was: seq<Wide>, ghost out: seq<Wide>)
    returns (ok: bool, i: nat, index: nat, pair: Wide, offset: nat, ghost done: seq<Wide>)
    requires start < |src| && offset0 < 16
    requires Holds(dst[..], was, dstlen, done0) && index0 == |done0|
    requires done0 + DecodeRun(src[start..], pair0, offset0) == out
    modifies dst
    ensures ok ==> start <= i <= |src| && index == |done| && offset < 16
    ensures ok ==> Holds(dst[..], was, dstlen, done) && done + Decode(src[i..], pair, offset) == out
    ensures !ok ==> Delivered(-1, dst[..], was, dstlen, out)
  {
    hide Decode, DecodeRun, Holds, Delivered, Push6, SixteenAt, Sextet;
    ok, i, index, pair, offset, done := true, start, index0, pair0, offset0, done0;
    while i < |src|
      invariant start <= i <= |src| && offset < 16
      invariant ok && Holds(dst[..], was, dstlen, done) && index == |done|
      invariant done + DecodeRun(src[i..], pair, offset) == out
    {
      DecodeRunHead(src[i..], pair, offset);
      assert src[i..][1..] == src[i + 1..];
      if src[i] == DASH {
        i, offset := i + 1, 0;
        return;
      }
      if src[i] >= 0x80 {
        return;
      }
      if !IsBase64(src[i]) {
        offset := 0;
        return;
      }
      pair := Push6(pair, Sextet(src[i]));
      offset := offset + 6;
      if offset >= 16 {
        ok, index, done := Put(dst, dstlen, index, SixteenAt(pair, offset - 16), done,
                               DecodeRun(src[i + 1..], pair, offset - 16), was, out);
        if !ok { return; }
        offset := offset - 16;
      }
      i := i + 1;
    }
    assert src[i..] == [];
    DecodeNothing(src[i..], pair, offset);
  }
}
