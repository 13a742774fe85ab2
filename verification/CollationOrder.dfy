/**
 * How wine_compare_string orders single characters, and what it passes over, said in
 * character types and collation elements (sortkey.c, the second half).
 */
module CollationOrder {
  import opened Collation

  // Punctuation comes first, then blanks and controls, then digits, then the rest.
  predicate IsDigit(t: CharType) { t.digit }
  predicate IsRest(t: CharType) { !t.digit && !t.punct && !t.space && !t.cntrl && !t.blank }
  predicate IsBlankOrControl(t: CharType) { !t.digit && !t.punct && (t.space || t.cntrl || t.blank) }
  predicate IsPunctuation(t: CharType) { !t.digit && t.punct }

  predicate KindBefore(t: CharType, u: CharType) {
    || (IsPunctuation(t) && !IsPunctuation(u))
    || (IsBlankOrControl(t) && (IsDigit(u) || IsRest(u)))
    || (IsDigit(t) && IsRest(u))
  }

  // The collation element, or the character itself where there is none.
  function ElementOf(l: Locale, ch: nat): nat { if l.collation(ch) == 0xFFFF_FFFF then ch else l.collation(ch) }

  // Within a kind: upper case first, then byte 1 of the element, then its upper half.
  predicate SortsBefore(l: Locale, f: Flags, x: nat, y: nat) {
    var t, u, e, d := l.charType(x), l.charType(y), ElementOf(l, x), ElementOf(l, y);
    if KindBefore(t, u) || KindBefore(u, t) then KindBefore(t, u)
    else if !f.ignoreCase && t.upper != u.upper then t.upper
    else if !f.ignoreNonSpace && e / 0x100 % 0x100 != d / 0x100 % 0x100 then e / 0x100 % 0x100 < d / 0x100 % 0x100
    else e / 0x10000 % 0x10000 < d / 0x10000 % 0x10000
  }

  // The order of any two characters but the full stop.
  lemma WeightIsOrder(l: Locale, f: Flags, x: nat, y: nat)
    requires x != 0x2E && y != 0x2E
    ensures Weight(l, f, x) < Weight(l, f, y) <==> SortsBefore(l, f, x, y)
  {
    WeightOrder(l, f, x, y);
    LexOfFour(Class(l, x), Case(l, f, x), Diacritic(l, f, x), Primary(l, x),
              Class(l, y), Case(l, f, y), Diacritic(l, f, y), Primary(l, y));
    hide Weight, LexLess;
  }

  // Neither of two characters that meet is passed over.
  predicate Meet(l: Locale, f: Flags, x: nat, y: nat) {
    && (f.ignoreSymbols ==> !IsIgnorable(l, x) && !IsIgnorable(l, y))
    && (!f.stringSort ==> (x in {0x27, 0x2D} <==> y in {0x27, 0x2D}))
  }

  predicate IsIgnorable(l: Locale, ch: nat) { l.charType(ch).punct || l.charType(ch).space }

  lemma OneAgainstOne(l: Locale, f: Flags, x: nat, y: nat)
    requires x != 0x2E && y != 0x2E && Meet(l, f, x, y)
    ensures Compare(l, f, [x], [y]) == if SortsBefore(l, f, x, y) then -1 else if SortsBefore(l, f, y, x) then 1 else 0
  {
    WeightIsOrder(l, f, x, y);
    WeightIsOrder(l, f, y, x);
    DotIsFirst(l, f, x);
    DotIsFirst(l, f, y);
    hide Weight, SortsBefore;
    assert [x][1..] == [] && [y][1..] == [];
  }

  // The first pair that differs decides.
  lemma FirstDifferenceDecides(l: Locale, f: Flags, x: nat, y: nat, a: seq<nat>, b: seq<nat>)
    requires x != 0x2E && y != 0x2E && Meet(l, f, x, y)
    ensures SortsBefore(l, f, x, y) ==> Compare(l, f, [x] + a, [y] + b) == -1
    ensures !SortsBefore(l, f, x, y) && !SortsBefore(l, f, y, x) ==>
              Compare(l, f, [x] + a, [y] + b) == Compare(l, f, a, b)
  {
    WeightIsOrder(l, f, x, y);
    WeightIsOrder(l, f, y, x);
    DotIsFirst(l, f, x);
    DotIsFirst(l, f, y);
    hide Weight, SortsBefore;
    assert ([x] + a)[1..] == a && ([y] + b)[1..] == b;
  }

  // With NORM_IGNORESYMBOLS punctuation and white space are passed over, and without
  // SORT_STRINGSORT a hyphen or an apostrophe is, against any other character.
  lemma SymbolIsPassedOver(l: Locale, f: Flags, x: nat, y: nat, a: seq<nat>, b: seq<nat>)
    requires f.ignoreSymbols && IsIgnorable(l, x) && !IsIgnorable(l, y)
    ensures Compare(l, f, [x] + a, [y] + b) == Compare(l, f, a, [y] + b)
  {
    assert ([x] + a)[1..] == a;
  }

  lemma DashIsPassedOver(l: Locale, f: Flags, x: nat, y: nat, a: seq<nat>, b: seq<nat>)
    requires !f.stringSort && x in {0x27, 0x2D} && y !in {0x27, 0x2D}
    requires f.ignoreSymbols ==> !IsIgnorable(l, x) && !IsIgnorable(l, y)
    ensures Compare(l, f, [x] + a, [y] + b) == Compare(l, f, a, [y] + b)
  {
    assert ([x] + a)[1..] == a;
  }

  // What is compared: the decompositions in order, up to the first NUL under
  // NORM_STOP_ON_NULL.
  lemma {:induction false} StreamOfParts(l: Locale, f: Flags, s: seq<nat>, t: seq<nat>)
    requires f.stopOnNull ==> 0 !in s
    ensures Stream(l, f, s + t) == Stream(l, f, s) + Stream(l, f, t)
  {
    if s == [] {
      assert s + t == t;
    } else {
      StreamOfParts(l, f, s[1..], t);
      assert (s + t)[1..] == s[1..] + t;
      var d, a, b := l.decompose(s[0]), Stream(l, f, s[1..]), Stream(l, f, t);
      assert d + (a + b) == (d + a) + b;
    }
  }

  lemma StreamStopsAtNul(l: Locale, f: Flags, s: seq<nat>, t: seq<nat>)
    requires f.stopOnNull && 0 !in s
    ensures Stream(l, f, s + [0] + t) == Stream(l, f, s)
  {
    StreamOfParts(l, f, s, [0] + t);
    assert s + ([0] + t) == s + [0] + t;
  }

  lemma StreamOfOne(l: Locale, f: Flags, ch: nat)
    ensures Stream(l, f, [ch]) == if f.stopOnNull && ch == 0 then [] else l.decompose(ch)
  {
    assert [ch][1..] == [];
  }
}
