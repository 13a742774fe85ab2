/**
 * The form of what the UTF-7 encoder writes, said with the alphabet and the bits of
 * RFC 2152, "UTF-7 Definition", and not with the encoder's tables and bit buffer.
 */
module Utf7Format {
  import opened Utf7

  const UPPER := "ABCDEFGHIJKLMNOPQRSTUVWXYZ"
  const LOWER := "abcdefghijklmnopqrstuvwxyz"
  const DIGITS := "0123456789"
  const ALPHABET := UPPER + LOWER + DIGITS + "+/"

  // A base64 character is that of the alphabet.
  lemma Base64IsAlphabet(x: Digit)
    ensures Base64(x) as int == ALPHABET[x as int] as int
  {
    if x < 26 {
      assert ALPHABET[x as int] == UPPER[x as int];
      assert (x as Octet + 0x41) as int == x as int + 0x41;
    } else if x < 52 {
      assert ALPHABET[x as int] == LOWER[x as int - 26];
      assert ((x - 26) as Octet + 0x61) as int == x as int - 26 + 0x61;
    } else if x < 62 {
      assert ALPHABET[x as int] == DIGITS[x as int - 52];
      assert ((x - 52) as Octet + 0x30) as int == x as int - 52 + 0x30;
    }
  }

  // The characters that stand for themselves: letters, digits, these marks, blanks,
  // line ends and NUL; no other stands for itself.
  predicate IsDirect(c: int) {
    || 'A' as int <= c <= 'Z' as int || 'a' as int <= c <= 'z' as int || '0' as int <= c <= '9' as int
    || c in {0x27, 0x28, 0x29, 0x2C, 0x2D, 0x2E, 0x2F, 0x3A, 0x3F} || c in {0x20, 0x09, 0x0A, 0x0D, 0}
  }

  lemma DirectCharacters(c: Wide)
    ensures CanDirectlyEncode(c) <==> IsDirect(c as int) || c == 0x2B
  {
  }

  lemma DirectAndPlus(c: WideChar, s: seq<WideChar>)
    ensures IsDirect(c as int) ==> Encode([c] + s) == [c as Octet] + Encode(s)
    ensures c == 0x2B ==> Encode([c] + s) == [0x2B, 0x2D] + Encode(s)
  {
    DirectCharacters(c);
    assert ([c] + s)[1..] == s;
  }

  // ---------------------------------------------------------------- base64 runs

  // Bits k to k + 5 of a number.
  function SixBits(n: bv64, k: nat): (x: Digit)
    requires k <= 58
  {
    ((n >> k) & 0x3F) as Wide
  }

  // The numbers that one, two and three units spell, the first two filled up with zeros
  // to whole digits.
  function NumberOfOne(u: Wide): bv64 { u as bv64 << 2 }
  function NumberOfTwo(u: Wide, v: Wide): bv64 { ((u as bv64 << 16) | v as bv64) << 4 }
  function NumberOfThree(u: Wide, v: Wide, w: Wide): bv64 { (u as bv64 << 32) | (v as bv64 << 16) | w as bv64 }

  // Their six-bit digits.
  function BlockDigits(us: seq<Wide>): seq<Digit>
    requires 1 <= |us| <= 3
  {
    if |us| == 1 then
      var n := NumberOfOne(us[0]);
      [SixBits(n, 12), SixBits(n, 6), SixBits(n, 0)]
    else if |us| == 2 then
      var n := NumberOfTwo(us[0], us[1]);
      [SixBits(n, 30), SixBits(n, 24), SixBits(n, 18), SixBits(n, 12), SixBits(n, 6), SixBits(n, 0)]
    else
      var n := NumberOfThree(us[0], us[1], us[2]);
      [SixBits(n, 42), SixBits(n, 36), SixBits(n, 30), SixBits(n, 24), SixBits(n, 18), SixBits(n, 12), SixBits(n, 6),
       SixBits(n, 0)]
  }

  // Three units at a time: they make up whole digits.
  function Digits(us: seq<Wide>): seq<Digit> {
    if us == [] then [] else if |us| <= 3 then BlockDigits(us) else BlockDigits(us[..3]) + Digits(us[3..])
  }

  // Characters of the alphabet for digits.
  function Lettered(xs: seq<Digit>): (b: seq<Octet>)
    ensures |b| == |xs|
  {
    if xs == [] then [] else [Base64(xs[0])] + Lettered(xs[1..])
  }

  lemma {:induction false} LetteredAt(xs: seq<Digit>, i: nat)
    requires i < |xs|
    ensures Lettered(xs)[i] as int == ALPHABET[xs[i] as int] as int
  {
    if i == 0 { Base64IsAlphabet(xs[0]); } else { LetteredAt(xs[1..], i - 1); }
  }

  lemma {:induction false} LetteredConcat(xs: seq<Digit>, ys: seq<Digit>)
    ensures Lettered(xs + ys) == Lettered(xs) + Lettered(ys)
  {
    hide Base64;
    if xs == [] {
      assert xs + ys == ys;
    } else {
      LetteredConcat(xs[1..], ys);
      assert (xs + ys)[1..] == xs[1..] + ys;
      Associates([Base64(xs[0])], Lettered(xs[1..]), Lettered(ys));
    }
  }

  lemma Associates(x: seq<Octet>, y: seq<Octet>, z: seq<Octet>)
    ensures x + (y + z) == (x + y) + z
  {
  }

  // The bit buffer holds the bits of the number.
  lemma BitsOfOne(p: Wide, u: Wide)
    requires u <= 0xFFFF
    ensures var q, n := Push16(p, u), NumberOfOne(u);
            SixAt(q, 10) == SixBits(n, 12) && SixAt(q, 4) == SixBits(n, 6) && Padding(q, 4) == SixBits(n, 0)
  {
  }

  lemma BitsOfTwo(p: Wide, u: Wide, v: Wide)
    requires u <= 0xFFFF && v <= 0xFFFF
    ensures var q, n := Push16(p, u), NumberOfTwo(u, v);
            var r := Push16(q, v);
            && SixAt(q, 10) == SixBits(n, 30) && SixAt(q, 4) == SixBits(n, 24)
            && SixAt(r, 14) == SixBits(n, 18) && SixAt(r, 8) == SixBits(n, 12) && SixAt(r, 2) == SixBits(n, 6)
            && Padding(r, 2) == SixBits(n, 0)
  {
    FirstOfTwo(p, u, v);
    NextOfTwo(p, u, v);
    SecondOfTwo(p, u, v);
    hide SixAt, SixBits, Padding, Push16, NumberOfTwo;
  }

  // The upper two digits are bits of the first unit alone.
  function BitsOfUnit(u: Wide, k: nat): Wide
    requires k <= 31
  {
    (u >> k) & 0x3F
  }

  lemma FirstOfTwo(p: Wide, u: Wide, v: Wide)
    requires u <= 0xFFFF && v <= 0xFFFF
    ensures SixAt(Push16(p, u), 10) == SixBits(NumberOfTwo(u, v), 30)
  {
    assert SixAt(Push16(p, u), 10) == BitsOfUnit(u, 10);
    hide SixAt, Push16;
    assert SixBits(NumberOfTwo(u, v), 30) == BitsOfUnit(u, 10);
    hide SixBits, NumberOfTwo, BitsOfUnit;
  }

  lemma NextOfTwo(p: Wide, u: Wide, v: Wide)
    requires u <= 0xFFFF && v <= 0xFFFF
    ensures SixAt(Push16(p, u), 4) == SixBits(NumberOfTwo(u, v), 24)
  {
    assert SixAt(Push16(p, u), 4) == BitsOfUnit(u, 4);
    hide SixAt, Push16;
    assert SixBits(NumberOfTwo(u, v), 24) == BitsOfUnit(u, 4);
    hide SixBits, NumberOfTwo, BitsOfUnit;
  }

  lemma SecondOfTwo(p: Wide, u: Wide, v: Wide)
    requires u <= 0xFFFF && v <= 0xFFFF
    ensures var r, n := Push16(Push16(p, u), v), NumberOfTwo(u, v);
            && SixAt(r, 14) == SixBits(n, 18) && SixAt(r, 8) == SixBits(n, 12) && SixAt(r, 2) == SixBits(n, 6)
            && Padding(r, 2) == SixBits(n, 0)
  {
  }

  lemma BitsOfThree(p: Wide, u: Wide, v: Wide, w: Wide)
    requires u <= 0xFFFF && v <= 0xFFFF && w <= 0xFFFF
    ensures var q, n := Push16(p, u), NumberOfThree(u, v, w);
            var r := Push16(q, v);
            var t := Push16(r, w);
            && SixAt(q, 10) == SixBits(n, 42) && SixAt(q, 4) == SixBits(n, 36)
            && SixAt(r, 14) == SixBits(n, 30) && SixAt(r, 8) == SixBits(n, 24) && SixAt(r, 2) == SixBits(n, 18)
            && SixAt(t, 12) == SixBits(n, 12) && SixAt(t, 6) == SixBits(n, 6) && SixAt(t, 0) == SixBits(n, 0)
  {
  }

  // Units that are written in base64.
  predicate IsCoded(u: WideChar) { u <= 0xFFFF && !IsDirect(u as int) && u != 0x2B }

  ghost predicate InBase64(us: seq<WideChar>) {
    forall i :: 0 <= i < |us| ==> IsCoded(us[i])
  }

  // Where a run ends.
  predicate EndsRun(rest: seq<WideChar>) { rest == [] || IsDirect(rest[0] as int) || rest[0] == 0x2B }

  lemma OneUnit(u: WideChar, s: seq<WideChar>, p: Wide, o: nat)
    requires o < 6 && IsCoded(u)
    ensures var q := Push16(p, u);
            EncodeRun([u] + s, p, o) == Groups(q, o + 16) + EncodeRun(s, q, (o + 16) % 6)
  {
    DirectCharacters(u);
    assert ([u] + s)[1..] == s;
  }

  lemma RunEnds(rest: seq<WideChar>, p: Wide, o: nat)
    requires o < 6 && EndsRun(rest)
    ensures EncodeRun(rest, p, o) == (if o != 0 then [Base64(Padding(p, o))] else []) + [0x2D] + Encode(rest)
  {
    if rest != [] { DirectCharacters(rest[0]); }
  }

  lemma LetteredMore(x: Digit, xs: seq<Digit>)
    ensures Lettered([x] + xs) == [Base64(x)] + Lettered(xs)
  {
    assert ([x] + xs)[1..] == xs;
  }

  lemma LetteredTwo(x: Digit, y: Digit)
    ensures Lettered([x, y]) == [Base64(x)] + [Base64(y)]
  {
    hide Base64;
    assert [x, y][1..] == [y] && [y][1..] == [];
  }

  lemma LetteredThree(x: Digit, y: Digit, z: Digit)
    ensures Lettered([x, y, z]) == [Base64(x)] + ([Base64(y)] + [Base64(z)])
  {
    hide Base64, Lettered;
    LetteredTwo(y, z);
    LetteredMore(x, [y, z]);
    assert [x] + [y, z] == [x, y, z];
  }

  // The digits of a block as the bit buffer gives them.
  lemma BlockOfOne(p: Wide, u: WideChar)
    requires IsCoded(u)
    ensures var q := Push16(p, u);
            BlockDigits([u]) == [SixAt(q, 10), SixAt(q, 4), Padding(q, 4)]
  {
    BitsOfOne(p, u);
    hide SixAt, SixBits, Padding, Push16, NumberOfOne, NumberOfTwo, NumberOfThree;
  }

  lemma BlockOfTwo(p: Wide, u: WideChar, v: WideChar)
    requires IsCoded(u) && IsCoded(v)
    ensures var q := Push16(p, u);
            var r := Push16(q, v);
            BlockDigits([u, v]) == [SixAt(q, 10), SixAt(q, 4)] + [SixAt(r, 14), SixAt(r, 8), SixAt(r, 2)]
                                   + [Padding(r, 2)]
  {
    BitsOfTwo(p, u, v);
    hide SixAt, SixBits, Padding, Push16, NumberOfOne, NumberOfTwo, NumberOfThree;
  }

  lemma BlockOfThree(p: Wide, u: WideChar, v: WideChar, w: WideChar)
    requires IsCoded(u) && IsCoded(v) && IsCoded(w)
    ensures var q := Push16(p, u);
            var r := Push16(q, v);
            var t := Push16(r, w);
            BlockDigits([u, v, w]) == [SixAt(q, 10), SixAt(q, 4)] + [SixAt(r, 14), SixAt(r, 8), SixAt(r, 2)]
                                      + [SixAt(t, 12), SixAt(t, 6), SixAt(t, 0)]
  {
    BitsOfThree(p, u, v, w);
    hide SixAt, SixBits, Padding, Push16, NumberOfOne, NumberOfTwo, NumberOfThree;
  }

  // The groups of one unit are its digits, lettered.
  lemma GroupsLettered(q: Wide)
    ensures Groups(q, 16) == Lettered([SixAt(q, 10), SixAt(q, 4)])
    ensures Groups(q, 20) == Lettered([SixAt(q, 14), SixAt(q, 8), SixAt(q, 2)])
    ensures Groups(q, 18) == Lettered([SixAt(q, 12), SixAt(q, 6), SixAt(q, 0)])
  {
    hide Groups, Base64, SixAt, Lettered;
    GroupsFrom0(q);
    GroupsFrom4(q);
    GroupsFrom2(q);
    LetteredTwo(SixAt(q, 10), SixAt(q, 4));
    LetteredThree(SixAt(q, 14), SixAt(q, 8), SixAt(q, 2));
    LetteredThree(SixAt(q, 12), SixAt(q, 6), SixAt(q, 0));
  }

  // A run of one, two or three units.
  lemma OneInRun(u: WideChar, rest: seq<WideChar>, p: Wide)
    requires IsCoded(u) && EndsRun(rest)
    ensures EncodeRun([u] + rest, p, 0) == Lettered(BlockDigits([u])) + [0x2D] + Encode(rest)
  {
    hide EncodeRun, Encode, Groups, Base64, SixAt, Padding, Push16, Lettered, BlockDigits, IsCoded, EndsRun;
    var q := Push16(p, u);
    OneUnit(u, rest, p, 0);
    RunEnds(rest, q, 4);
    GroupsLettered(q);
    BlockOfOne(p, u);
    LetteredOne(Padding(q, 4));
    var xs := [SixAt(q, 10), SixAt(q, 4)];
    LetteredConcat(xs, [Padding(q, 4)]);
    OneBehind(SixAt(q, 10), SixAt(q, 4), Padding(q, 4));
    Regroup(Lettered(xs), [], Lettered([Padding(q, 4)]), Encode(rest));
  }

  lemma TwoInRun(u: WideChar, v: WideChar, rest: seq<WideChar>, p: Wide)
    requires IsCoded(u) && IsCoded(v) && EndsRun(rest)
    ensures EncodeRun([u] + ([v] + rest), p, 0) == Lettered(BlockDigits([u, v])) + [0x2D] + Encode(rest)
  {
    hide EncodeRun, Encode, Groups, Base64, SixAt, Padding, Push16, Lettered, BlockDigits, IsCoded, EndsRun;
    var q := Push16(p, u);
    var r := Push16(q, v);
    OneUnit(u, [v] + rest, p, 0);
    OneUnit(v, rest, q, 4);
    RunEnds(rest, r, 2);
    GroupsLettered(q);
    GroupsLettered(r);
    BlockOfTwo(p, u, v);
    LetteredOne(Padding(r, 2));
    var xs, ys := [SixAt(q, 10), SixAt(q, 4)], [SixAt(r, 14), SixAt(r, 8), SixAt(r, 2)];
    LetteredConcat(xs, ys);
    LetteredConcat(xs + ys, [Padding(r, 2)]);
    Regroup(Lettered(xs), Lettered(ys), Lettered([Padding(r, 2)]), Encode(rest));
  }

  lemma OneBehind(x: Digit, y: Digit, z: Digit)
    ensures [x, y] + [z] == [x, y, z]
  {
  }

  lemma Regroup(x: seq<Octet>, y: seq<Octet>, z: seq<Octet>, rest: seq<Octet>)
    ensures x + (y + (z + [0x2D] + rest)) == x + y + z + [0x2D] + rest
    ensures y == [] ==> x + (z + [0x2D] + rest) == x + z + [0x2D] + rest
    ensures x + (y + (z + rest)) == x + y + z + rest
  {
  }

  lemma LetteredOne(x: Digit)
    ensures Lettered([x]) == [Base64(x)]
  {
    assert [x][1..] == [];
  }

  lemma ThreeInRun(u: WideChar, v: WideChar, w: WideChar, rest: seq<WideChar>, p: Wide) returns (t: Wide)
    requires IsCoded(u) && IsCoded(v) && IsCoded(w)
    ensures EncodeRun([u] + ([v] + ([w] + rest)), p, 0) == Lettered(BlockDigits([u, v, w])) + EncodeRun(rest, t, 0)
  {
    hide EncodeRun, Encode, Groups, Base64, SixAt, Padding, Push16, Lettered, BlockDigits, IsCoded, EndsRun;
    var q := Push16(p, u);
    var r := Push16(q, v);
    t := Push16(r, w);
    OneUnit(u, [v] + ([w] + rest), p, 0);
    OneUnit(v, [w] + rest, q, 4);
    OneUnit(w, rest, r, 2);
    GroupsLettered(q);
    GroupsLettered(r);
    GroupsLettered(t);
    BlockOfThree(p, u, v, w);
    var xs, ys, zs := [SixAt(q, 10), SixAt(q, 4)], [SixAt(r, 14), SixAt(r, 8), SixAt(r, 2)],
                      [SixAt(t, 12), SixAt(t, 6), SixAt(t, 0)];
    LetteredConcat(xs, ys);
    LetteredConcat(xs + ys, zs);
    Regroup(Lettered(xs), Lettered(ys), Lettered(zs), EncodeRun(rest, t, 0));
  }

  lemma {:induction false} RunIsLettered(us: seq<WideChar>, rest: seq<WideChar>, p: Wide)
    requires us != [] && InBase64(us) && EndsRun(rest)
    ensures EncodeRun(us + rest, p, 0) == Lettered(Digits(us)) + [0x2D] + Encode(rest)
    decreases |us|
  {
    hide EncodeRun, Encode, Lettered, BlockDigits, IsCoded, EndsRun;
    if |us| == 1 {
      assert us == [us[0]];
      OneInRun(us[0], rest, p);
    } else if |us| == 2 {
      assert us == [us[0], us[1]] && us + rest == [us[0]] + ([us[1]] + rest);
      TwoInRun(us[0], us[1], rest, p);
    } else {
      var more := us[3..];
      assert us[..3] == [us[0], us[1], us[2]] && us + rest == [us[0]] + ([us[1]] + ([us[2]] + (more + rest)));
      var t := ThreeInRun(us[0], us[1], us[2], more + rest, p);
      if more == [] {
        assert more + rest == rest && us[..3] == us;
        RunEnds(rest, t, 0);
        Regroup(Lettered(Digits(us)), [], [], Encode(rest));
      } else {
        RunIsLettered(more, rest, t);
        LetteredConcat(BlockDigits(us[..3]), Digits(more));
        Regroup(Lettered(BlockDigits(us[..3])), Lettered(Digits(more)), [], Encode(rest));
      }
    }
  }

  lemma RunStartsWithPlus(u: WideChar, s: seq<WideChar>)
    requires IsCoded(u)
    ensures Encode([u] + s) == [0x2B] + EncodeRun([u] + s, 0, 0)
  {
    DirectCharacters(u);
  }

  // A run of units that are not written directly is a plus sign, the alphabet's
  // characters for the digits of the number that the units spell, and a minus sign.
  lemma RunIsAlphabet(us: seq<WideChar>, rest: seq<WideChar>)
    requires us != [] && InBase64(us) && EndsRun(rest)
    ensures var digits, run := Digits(us), Encode(us + rest);
            && |run| == 1 + |digits| + 1 + |Encode(rest)| && run[0] == 0x2B && run[1 + |digits|] == 0x2D
            && run[2 + |digits|..] == Encode(rest)
            && forall i :: 0 <= i < |digits| ==> run[1 + i] as int == ALPHABET[digits[i] as int] as int
  {
    var digits := Digits(us);
    RunStartsWithPlus(us[0], us[1..] + rest);
    HeadTail(us, rest);
    hide EncodeRun, Encode, Lettered, Digits, IsCoded, EndsRun, Base64;
    RunIsLettered(us, rest, 0);
    PartsOfRun(Encode(us + rest), Lettered(digits), Encode(rest));
    forall i | 0 <= i < |digits| ensures Lettered(digits)[i] as int == ALPHABET[digits[i] as int] as int {
      LetteredAt(digits, i);
    }
  }

  lemma HeadTail(us: seq<WideChar>, rest: seq<WideChar>)
    requires us != []
    ensures us + rest == [us[0]] + (us[1..] + rest)
  {
  }

  lemma PartsOfRun(run: seq<Octet>, letters: seq<Octet>, rest: seq<Octet>)
    requires run == [0x2B] + (letters + [0x2D] + rest)
    ensures |run| == 2 + |letters| + |rest| && run[0] == 0x2B && run[1 + |letters|] == 0x2D
    ensures run[2 + |letters|..] == rest && forall i :: 0 <= i < |letters| ==> run[1 + i] == letters[i]
  {
  }

  // The euro sign.
  lemma EuroSign()
    ensures Encode([0x20AC]) == [0x2B, 0x49, 0x4B, 0x77, 0x2D]
  {
  }

  // ---------------------------------------------------------------- what is read

  // Outside a run a byte stands for itself, but for the plus sign; a plus and a minus
  // sign are a plus.  Bits left over from before do not matter.
  lemma ReadDirectly(c: Octet, b: seq<Octet>, p: Wide, o: nat)
    requires o < 16
    ensures c != 0x2B ==> Decode([c] + b, p, o) == [c as Wide] + Decode(b, p, o)
    ensures Decode([0x2B, 0x2D] + b, p, o) == [0x2B] + Decode(b, p, o)
  {
    assert ([c] + b)[1..] == b && ([0x2B, 0x2D] + b)[2..] == b;
  }

  predicate InAlphabet(c: Octet) {
    0x30 <= c <= 0x39 || 0x41 <= c <= 0x5A || 0x61 <= c <= 0x7A || c == 0x2B || c == 0x2F
  }

  // A run ends at a minus sign, which is dropped, or at any other byte that is no base64
  // character, which is not; the bits left are dropped, but not at one above 0x7F.
  lemma RunEndsAt(c: Octet, b: seq<Octet>, p: Wide, o: nat)
    requires o < 16
    ensures DecodeRun([0x2D] + b, p, o) == Decode(b, p, 0)
    ensures c >= 0x80 ==> DecodeRun([c] + b, p, o) == Decode([c] + b, p, o)
    ensures c < 0x80 && c != 0x2D && !InAlphabet(c) ==> DecodeRun([c] + b, p, o) == Decode([c] + b, p, 0)
  {
    assert ([0x2D] + b)[1..] == b;
  }
}
