/**
 * The codepage tables read the other way round: laid out from a mapping, they give it
 * back (wctomb.c, mbtowc.c).
 */
module CodepageTable {
  import opened Basics
  import W = WideToBytes
  import B = BytesToWide

  // 256 blocks of 256 characters, one after the other.
  function Blocks(): seq<Unit> { seq(0x100, h requires 0 <= h < 0x100 => 0x100 * h) }

  function Flat(code: Unit -> Unit): seq<Unit> { seq(0x10000, i requires 0 <= i < 0x10000 => code(i)) }

  // The encoder finds the code of a character in its place.
  lemma CodeOfCharacter(t: W.Table, code: Unit -> Unit, ch: Unit)
    requires t.high == Blocks() && t.low == Flat(code)
    ensures W.Lookup(t, ch) == code(ch)
  {
    assert t.high[ch / 0x100] == 0x100 * (ch as int / 0x100);
    assert 0x100 * (ch as int / 0x100) + ch as int % 0x100 == ch;
  }

  // A code is one byte, or the upper and then the lower of two.
  lemma SpelledUpperFirst(t: W.Table, a: Byte, b: Byte)
    ensures W.Spell(t, b) == [b]
    ensures t.Dbcs? && a != 0 ==> W.Spell(t, a as int * 0x100 + b) == [a, b]
  {
    var code := a as int * 0x100 + b;
    assert code / 0x100 == a && code % 0x100 == b;
  }

  // The caller's default character is spelled as it was given, one byte or two.
  lemma DefaultAsGiven(t: W.Table, a: Byte, b: Byte)
    ensures W.Spell(t, W.Default(t, W.Given(a, 0))) == [a]
    ensures t.Dbcs? && a != 0 && b != 0 ==> W.Spell(t, W.Default(t, W.Given(a, b))) == [a, b]
  {
    var code := a as int * 0x100 + b;
    assert code / 0x100 == a && code % 0x100 == b;
  }

  // Two characters that compose are written as their composition, if it has a code; if
  // not, WC_DEFAULTCHAR asks for the default character instead of both, and else
  // WC_DISCARDNS for the first without the second.
  lemma ComposedPair(t: W.Table, fl: W.Flags, compose: (Unit, Unit) -> Unit, d: W.DefChar, u: Unit, v: Unit,
                     s: seq<Unit>)
    requires fl.compositeCheck && compose(u, v) != 0
    ensures var c := compose(u, v);
            var step := W.OneStep(t, fl, compose, d, [u, v] + s);
            if W.IsValid(t, fl, c, W.Lookup(t, c)) then step == W.Step(W.Lookup(t, c), 2, false)
            else if fl.defaultChar then step == W.Step(W.Default(t, d), 2, true)
            else step.taken == (if fl.discardNS then 2 else 1)
                 && step.res == (if W.IsValid(t, fl, u, W.Lookup(t, u)) then W.Lookup(t, u) else W.Default(t, d))
  {
  }

  // The decoder finds the character of a code in its place: a lead byte's block is at
  // its own number.
  lemma CharacterOfCode(p: B.Codepage, uni: nat -> nat, a: Byte, b: Byte, rest: seq<Byte>)
    requires p.Double? && |p.cp2uni| == 0x10000 && forall i :: 0 <= i < 0x10000 ==> p.cp2uni[i] == uni(i)
    requires p.leadBytes[a] == a && a != 0 && b != 0 && p.leadBytes[b] == 0
    ensures B.Chars(p, [a, b] + rest) == [uni(a as int * 0x100 + b)] + B.Chars(p, rest)
    ensures B.Chars(p, [b] + rest) == [uni(b)] + B.Chars(p, rest)
  {
    assert ([a, b] + rest)[2..] == rest && ([b] + rest)[1..] == rest;
  }
}
