/**
 * String comparison (sortkey.c, the second half). Decomposition, character
 * types and collation weights are a parameter.
 */
module Collation {
  import D = Decompose

  datatype CharType = CharType(digit: bool, punct: bool, space: bool, cntrl: bool, blank: bool, upper: bool)

  datatype Locale = Locale(decompose: nat -> seq<nat>, charType: nat -> CharType, collation: nat -> nat)

  datatype Flags = Flags(stringSort: bool, ignoreSymbols: bool, stopOnNull: bool, ignoreNonSpace: bool,
                         ignoreCase: bool)

  // No character decomposes into nothing or into more than the four places kept for it.
  ghost predicate Sound(l: Locale) { forall ch :: 1 <= |l.decompose(ch)| <= 4 }

  const DOT := 0x2E
  const DASH := 0x2D
  const APOSTROPHE := 0x27

  // ---------------------------------------------------------------- weights

  function Element(l: Locale, ch: nat): nat {
    if l.collation(ch) == 0xFFFF_FFFF then ch else l.collation(ch)
  }

  function Primary(l: Locale, ch: nat): nat { Element(l, ch) / 0x10000 % 0x10000 }

  function Diacritic(l: Locale, f: Flags, ch: nat): nat {
    if f.ignoreNonSpace then 0 else Element(l, ch) / 0x100 % 0x100
  }

  // Full stop, punctuation, blanks and controls, digits, the rest.
  function Class(l: Locale, ch: nat): nat {
    var t := l.charType(ch);
    if ch == DOT then 0
    else if t.digit then 4
    else if !t.punct && !t.space && !t.cntrl && !t.blank then 6
    else if !t.punct then 2
    else 1
  }

  function Case(l: Locale, f: Flags, ch: nat): nat {
    if ch != DOT && !l.charType(ch).upper && !f.ignoreCase then 1 else 0
  }

  // eval_weight: the parts occupy disjoint bits, so or-ing them is adding.
  function Weight(l: Locale, f: Flags, ch: nat): nat {
    Primary(l, ch) + Diacritic(l, f, ch) * 0x1_0000 + Case(l, f, ch) * 0x800_0000 + Class(l, ch) * 0x1000_0000
  }

  ghost predicate LexLess(a: seq<nat>, b: seq<nat>) { Lex(a, b) < 0 }

  // Weights compare by class, then case, then diacritic, then primary weight.
  lemma WeightOrder(l: Locale, f: Flags, x: nat, y: nat)
    ensures Weight(l, f, x) < Weight(l, f, y) <==>
      LexLess([Class(l, x), Case(l, f, x), Diacritic(l, f, x), Primary(l, x)],
              [Class(l, y), Case(l, f, y), Diacritic(l, f, y), Primary(l, y)])
  {
    LexOfFour(Class(l, x), Case(l, f, x), Diacritic(l, f, x), Primary(l, x),
              Class(l, y), Case(l, f, y), Diacritic(l, f, y), Primary(l, y));
    assert Primary(l, x) < 0x10000 && Primary(l, y) < 0x10000;
    assert Diacritic(l, f, x) < 0x100 && Diacritic(l, f, y) < 0x100;
    hide Primary, Diacritic, Class, Lex;
  }

  lemma LexOfFour(a: nat, b: nat, c: nat, d: nat, a': nat, b': nat, c': nat, d': nat)
    ensures LexLess([a, b, c, d], [a', b', c', d']) <==>
      a < a' || (a == a' && (b < b' || (b == b' && (c < c' || (c == c' && d < d')))))
  {
    LexCons([a, b, c, d], [a', b', c', d'], [b, c, d], [b', c', d']);
    LexCons([b, c, d], [b', c', d'], [c, d], [c', d']);
    LexCons([c, d], [c', d'], [d], [d']);
    LexCons([d], [d'], [], []);
    hide Lex;
  }

  lemma LexCons(s: seq<nat>, t: seq<nat>, s': seq<nat>, t': seq<nat>)
    requires s != [] && t != [] && s[1..] == s' && t[1..] == t'
    ensures Lex(s, t) == if s[0] > t[0] then 1 else if s[0] < t[0] then -1 else Lex(s', t')
    ensures Lex([], []) == 0
  {
  }

  // The full stop sorts before everything else, and is all that can be weightless.
  lemma DotIsFirst(l: Locale, f: Flags, ch: nat)
    requires ch != DOT
    ensures Weight(l, f, DOT) < Weight(l, f, ch)
  {
  }

  // ---------------------------------------------------------------- lexicographic order

  function Lex(a: seq<nat>, b: seq<nat>): int {
    if a == [] && b == [] then 0
    else if a == [] then -1
    else if b == [] then 1
    else if a[0] != b[0] then (if a[0] > b[0] then 1 else -1)
    else Lex(a[1..], b[1..])
  }

  lemma {:induction false} LexEqual(a: seq<nat>, b: seq<nat>)
    ensures Lex(a, b) == 0 <==> a == b
  {
    if a != [] && b != [] {
      LexEqual(a[1..], b[1..]);
      if a[0] == b[0] && a[1..] == b[1..] {
        assert a == [a[0]] + a[1..] == b;
      }
    }
  }

  lemma {:induction false} LexTransitive(a: seq<nat>, b: seq<nat>, c: seq<nat>)
    requires Lex(a, b) <= 0 && Lex(b, c) <= 0
    ensures Lex(a, c) <= 0
    ensures Lex(a, b) < 0 || Lex(b, c) < 0 ==> Lex(a, c) < 0
  {
    if a != [] && b != [] && c != [] && a[0] == b[0] == c[0] {
      LexTransitive(a[1..], b[1..], c[1..]);
    }
  }

  // ---------------------------------------------------------------- comparison of decomposed strings

  function Stream(l: Locale, f: Flags, s: seq<nat>): seq<nat> {
    if s == [] || (f.stopOnNull && s[0] == 0) then [] else l.decompose(s[0]) + Stream(l, f, s[1..])
  }

  predicate IsSymbol(l: Locale, ch: nat) { l.charType(ch).punct || l.charType(ch).space }

  predicate IsDash(ch: nat) { ch == DASH || ch == APOSTROPHE }

  // Something with a weight is left.
  predicate HasWeight(l: Locale, f: Flags, a: seq<nat>) {
    a != [] && (Weight(l, f, a[0]) != 0 || HasWeight(l, f, a[1..]))
  }

  function Compare(l: Locale, f: Flags, a: seq<nat>, b: seq<nat>): int
    decreases |a| + |b|
  {
    if a == [] || b == [] then
      (if HasWeight(l, f, a) then 1 else 0) - (if HasWeight(l, f, b) then 1 else 0)
    else if f.ignoreSymbols && (IsSymbol(l, a[0]) || IsSymbol(l, b[0])) then
      Compare(l, f, if IsSymbol(l, a[0]) then a[1..] else a, if IsSymbol(l, b[0]) then b[1..] else b)
    else if !f.stringSort && IsDash(a[0]) != IsDash(b[0]) then
      Compare(l, f, if IsDash(a[0]) then a[1..] else a, if IsDash(b[0]) then b[1..] else b)
    else
      var x, y := Weight(l, f, a[0]), Weight(l, f, b[0]);
      if x != 0 && y != 0 && x != y then (if x > y then 1 else -1)
      else Compare(l, f, if x == 0 || y != 0 then a[1..] else a, if y == 0 || x != 0 then b[1..] else b)
  }

  // For all flags: a string equals itself, and swapping the strings swaps the answer.
  lemma {:induction false} CompareReflexive(l: Locale, f: Flags, a: seq<nat>)
    ensures Compare(l, f, a, a) == 0
  {
    hide Weight, IsSymbol, IsDash;
    if a != [] {
      CompareReflexive(l, f, a[1..]);
    }
  }

  lemma {:induction false} CompareAntisymmetric(l: Locale, f: Flags, a: seq<nat>, b: seq<nat>)
    ensures Compare(l, f, a, b) == -Compare(l, f, b, a)
    decreases |a| + |b|
  {
    hide Weight, IsSymbol, IsDash;
    if a == [] || b == [] {
    } else if f.ignoreSymbols && (IsSymbol(l, a[0]) || IsSymbol(l, b[0])) {
      CompareAntisymmetric(l, f, if IsSymbol(l, a[0]) then a[1..] else a, if IsSymbol(l, b[0]) then b[1..] else b);
    } else if !f.stringSort && IsDash(a[0]) != IsDash(b[0]) {
      CompareAntisymmetric(l, f, if IsDash(a[0]) then a[1..] else a, if IsDash(b[0]) then b[1..] else b);
    } else {
      var x, y := Weight(l, f, a[0]), Weight(l, f, b[0]);
      if x == 0 || y == 0 || x == y {
        CompareAntisymmetric(l, f, if x == 0 || y != 0 then a[1..] else a, if y == 0 || x != 0 then b[1..] else b);
      }
    }
  }

  // No character of the string gets special treatment under the flags.
  ghost predicate Plain(l: Locale, f: Flags, a: seq<nat>) {
    forall i :: 0 <= i < |a| ==> (f.stringSort || !IsDash(a[i])) && (!f.ignoreSymbols || !IsSymbol(l, a[i]))
  }

  // The weights that count.
  function Weights(l: Locale, f: Flags, a: seq<nat>): seq<nat> {
    if a == [] then []
    else (if Weight(l, f, a[0]) != 0 then [Weight(l, f, a[0])] else []) + Weights(l, f, a[1..])
  }

  lemma {:induction false} HasWeightIff(l: Locale, f: Flags, a: seq<nat>)
    ensures HasWeight(l, f, a) <==> Weights(l, f, a) != []
  {
    hide Weight;
    if a != [] {
      HasWeightIff(l, f, a[1..]);
    }
  }

  lemma WeightsHead(l: Locale, f: Flags, a: seq<nat>)
    requires a != []
    ensures var x, w, rest := Weight(l, f, a[0]), Weights(l, f, a), Weights(l, f, a[1..]);
            if x == 0 then w == rest else w != [] && w[0] == x && w[1..] == rest
  {
    hide Weight;
  }

  // Such strings compare as the sequences of their weights.
  lemma {:induction false} CompareIsLex(l: Locale, f: Flags, a: seq<nat>, b: seq<nat>)
    requires Plain(l, f, a) && Plain(l, f, b)
    ensures Compare(l, f, a, b) == Lex(Weights(l, f, a), Weights(l, f, b))
    decreases |a| + |b|
  {
    hide Weight, IsSymbol, IsDash;
    HasWeightIff(l, f, a);
    HasWeightIff(l, f, b);
    if a == [] || b == [] {
    } else {
      var x, y := Weight(l, f, a[0]), Weight(l, f, b[0]);
      WeightsHead(l, f, a);
      WeightsHead(l, f, b);
      hide Weights, HasWeight;
      if x == 0 || y == 0 || x == y {
        CompareIsLex(l, f, if x == 0 || y != 0 then a[1..] else a, if y == 0 || x != 0 then b[1..] else b);
      }
    }
  }

  // With SORT_STRINGSORT and without NORM_IGNORESYMBOLS comparison is a total
  // preorder on all strings, equal weights being the equivalence.
  lemma ComparePreorder(l: Locale, f: Flags, s: seq<nat>, t: seq<nat>, u: seq<nat>)
    requires f.stringSort && !f.ignoreSymbols
    ensures var a, b, c := Stream(l, f, s), Stream(l, f, t), Stream(l, f, u);
            && (Compare(l, f, a, b) <= 0 || Compare(l, f, b, a) <= 0)
            && (Compare(l, f, a, b) <= 0 && Compare(l, f, b, c) <= 0 ==> Compare(l, f, a, c) <= 0)
            && (Compare(l, f, a, b) == 0 <==> Weights(l, f, a) == Weights(l, f, b))
  {
    var a, b, c := Stream(l, f, s), Stream(l, f, t), Stream(l, f, u);
    CompareAntisymmetric(l, f, a, b);
    CompareIsLex(l, f, a, b);
    CompareIsLex(l, f, b, c);
    CompareIsLex(l, f, a, c);
    hide Stream, Compare, Weights, Lex;
    LexEqual(Weights(l, f, a), Weights(l, f, b));
    if Compare(l, f, a, b) <= 0 && Compare(l, f, b, c) <= 0 {
      LexTransitive(Weights(l, f, a), Weights(l, f, b), Weights(l, f, c));
    }
  }

  // ---------------------------------------------------------------- when it is a preorder

  // On the strings that are given to it.
  ghost predicate IsPreorder(l: Locale, f: Flags) {
    forall s, t, u ::
      CompareStrings(l, f, s, t) <= 0 && CompareStrings(l, f, t, u) <= 0 ==> CompareStrings(l, f, s, u) <= 0
  }

  function CompareStrings(l: Locale, f: Flags, s: seq<nat>, t: seq<nat>): int {
    Compare(l, f, Stream(l, f, s), Stream(l, f, t))
  }

  // A character that is found in decomposed strings, if nothing that is decomposed
  // decomposes any further.
  predicate Occurs(l: Locale, f: Flags, ch: nat) { l.decompose(ch) == [ch] && !(f.stopOnNull && ch == 0) }

  ghost predicate AllOccur(l: Locale, f: Flags, a: seq<nat>) { forall i :: 0 <= i < |a| ==> Occurs(l, f, a[i]) }

  // Decompositions are full, and no character but NUL stands for a NUL.
  ghost predicate Settles(l: Locale) {
    && (forall ch, i :: 0 <= i < |l.decompose(ch)| ==> l.decompose(l.decompose(ch)[i]) == [l.decompose(ch)[i]])
    && (forall ch: nat :: ch != 0 ==> 0 !in l.decompose(ch))
  }

  // So it is with the decomposition that the comparison uses.
  lemma TablesSettle(l: Locale, t: D.Tables, rank: nat -> nat)
    requires D.Acyclic(t, false, rank) && forall ch: nat :: l.decompose(ch) == D.Expand(t, false, ch, rank)
    ensures Settles(l)
  {
    hide D.Acyclic, D.Expand;
    forall ch: nat, i: nat | i < |l.decompose(ch)|
      ensures l.decompose(l.decompose(ch)[i]) == [l.decompose(ch)[i]]
    {
      D.ExpandSettles(t, false, ch, rank);
      D.ExpandIs(t, false, l.decompose(ch)[i], rank);
    }
    forall ch: nat | ch != 0
      ensures 0 !in l.decompose(ch)
    {
      D.ExpandHasNoNul(t, ch, rank);
    }
  }

  lemma {:induction false} StreamOccurs(l: Locale, f: Flags, s: seq<nat>)
    requires Settles(l)
    ensures AllOccur(l, f, Stream(l, f, s))
  {
    if s != [] && !(f.stopOnNull && s[0] == 0) {
      StreamOccurs(l, f, s[1..]);
    }
  }

  // Such characters make strings that are their own decomposition.
  lemma {:induction false} OwnStream(l: Locale, f: Flags, a: seq<nat>)
    requires AllOccur(l, f, a)
    ensures Stream(l, f, a) == a
  {
    if a != [] {
      assert Occurs(l, f, a[0]);
      OwnStream(l, f, a[1..]);
    }
  }

  predicate IsIgnored(l: Locale, f: Flags, ch: nat) { f.ignoreSymbols && IsSymbol(l, ch) }

  predicate IsOrdinary(l: Locale, f: Flags, ch: nat) { Occurs(l, f, ch) && !IsDash(ch) && !IsIgnored(l, f, ch) }

  // Some character that occurs is neither ignored nor a dash.
  ghost predicate HasOrdinary(l: Locale, f: Flags) { exists ch: nat :: IsOrdinary(l, f, ch) }

  // Who gives way to whom: symbols under NORM_IGNORESYMBOLS to all others, dashes
  // without SORT_STRINGSORT to the ordinary characters, if there are any.
  ghost function Rank(l: Locale, f: Flags, ch: nat): (r: nat)
    ensures r <= 2
  {
    if IsIgnored(l, f, ch) then 2 else if !f.stringSort && IsDash(ch) && HasOrdinary(l, f) then 1 else 0
  }

  // Among the characters that occur: the dashes weigh the same if both give way, and
  // if the full stop is weightless then no other gives way like it, or to it.
  ghost predicate IsOrderly(l: Locale, f: Flags) {
    && (DashesGiveWay(l, f) ==> Weight(l, f, DASH) == Weight(l, f, APOSTROPHE))
    && (Occurs(l, f, DOT) && Weight(l, f, DOT) == 0 ==>
          forall ch: nat :: Occurs(l, f, ch) && ch != DOT ==> !GivesWayLikeDot(l, f, ch))
  }

  ghost predicate DashesGiveWay(l: Locale, f: Flags) {
    Occurs(l, f, DASH) && Occurs(l, f, APOSTROPHE) && Rank(l, f, DASH) == 1 && Rank(l, f, APOSTROPHE) == 1
  }

  ghost predicate GivesWayLikeDot(l: Locale, f: Flags, ch: nat) {
    if Rank(l, f, DOT) == 2 then Rank(l, f, ch) == 2 else Rank(l, f, ch) != 0
  }

  // For every locale and all flags: comparison is a preorder exactly then.
  lemma PreorderIff(l: Locale, f: Flags)
    requires Settles(l)
    ensures IsPreorder(l, f) <==> IsOrderly(l, f)
  {
    hide Compare, Weight, Stream, Occurs;
    if IsOrderly(l, f) {
      forall s, t, u | CompareStrings(l, f, s, t) <= 0 && CompareStrings(l, f, t, u) <= 0
        ensures CompareStrings(l, f, s, u) <= 0
      {
        StreamOccurs(l, f, s);
        StreamOccurs(l, f, t);
        StreamOccurs(l, f, u);
        OrderlyIsTransitive(l, f, Stream(l, f, s), Stream(l, f, t), Stream(l, f, u));
      }
    } else if DashesGiveWay(l, f) && Weight(l, f, DASH) != Weight(l, f, APOSTROPHE) {
      DashesSpoilOrder(l, f);
    } else {
      var ch: nat :| Occurs(l, f, ch) && ch != DOT && GivesWayLikeDot(l, f, ch);
      FullStopSpoilsOrder(l, f, ch);
    }
  }

  lemma DashesSpoilOrder(l: Locale, f: Flags)
    requires DashesGiveWay(l, f) && Weight(l, f, DASH) != Weight(l, f, APOSTROPHE)
    ensures !IsPreorder(l, f)
  {
    var x: nat :| IsOrdinary(l, f, x);
    var a, b, c := [DASH, x], [x], [APOSTROPHE, x];
    OwnStream(l, f, a);
    OwnStream(l, f, b);
    OwnStream(l, f, c);
    hide Compare, Weight, Stream;
    DashesDisagree(l, f, x);
    CompareAntisymmetric(l, f, a, c);
    CompareAntisymmetric(l, f, a, b);
    CompareAntisymmetric(l, f, c, b);
    assert CompareStrings(l, f, a, b) == 0 == CompareStrings(l, f, b, c);
    assert CompareStrings(l, f, c, b) == 0 == CompareStrings(l, f, b, a);
    assert CompareStrings(l, f, a, c) > 0 || CompareStrings(l, f, c, a) > 0;
  }

  lemma FullStopSpoilsOrder(l: Locale, f: Flags, ch: nat)
    requires Occurs(l, f, ch) && ch != DOT && GivesWayLikeDot(l, f, ch)
    requires Occurs(l, f, DOT) && Weight(l, f, DOT) == 0
    ensures !IsPreorder(l, f)
  {
    OwnStream(l, f, [ch]);
    OwnStream(l, f, [DOT]);
    OwnStream(l, f, []);
    hide Compare, Weight, Stream;
    FullStopIsNothing(l, f, ch);
    assert CompareStrings(l, f, [ch], [DOT]) == 0 == CompareStrings(l, f, [DOT], []);
    assert CompareStrings(l, f, [ch], []) > 0;
  }

  // With NORM_IGNORESYMBOLS and SORT_STRINGSORT: the full stop has a weight, or no
  // other character that occurs is a symbol.
  lemma IgnoringSymbolsIff(l: Locale, f: Flags)
    requires Settles(l) && f.stringSort && f.ignoreSymbols
    ensures IsPreorder(l, f) <==>
              || !Occurs(l, f, DOT) || Weight(l, f, DOT) != 0
              || forall ch: nat :: Occurs(l, f, ch) && ch != DOT ==> !IsSymbol(l, ch)
  {
    PreorderIff(l, f);
    hide IsPreorder, Weight, IsSymbol, Occurs;
    forall ch: nat
      ensures GivesWayLikeDot(l, f, ch) <==> IsSymbol(l, ch)
    {
    }
  }

  // In word sort, with neither flag: hyphen and apostrophe weigh the same, if both
  // occur and an ordinary character does; and a full stop that occurs has a weight,
  // if one of them does.
  lemma WordSortIff(l: Locale, f: Flags)
    requires Settles(l) && !f.stringSort && !f.ignoreSymbols
    ensures IsPreorder(l, f) <==>
              && (Occurs(l, f, DASH) && Occurs(l, f, APOSTROPHE) && HasOrdinary(l, f) ==>
                    Weight(l, f, DASH) == Weight(l, f, APOSTROPHE))
              && (Occurs(l, f, DOT) && (Occurs(l, f, DASH) || Occurs(l, f, APOSTROPHE)) ==> Weight(l, f, DOT) != 0)
  {
    PreorderIff(l, f);
    hide IsPreorder, Weight, Occurs;
    assert Occurs(l, f, DOT) ==> IsOrdinary(l, f, DOT);
    assert Occurs(l, f, DOT) ==> GivesWayLikeDot(l, f, DASH) && GivesWayLikeDot(l, f, APOSTROPHE);
  }

  // "-x" equals "x", "x" equals "'x", but "-x" does not equal "'x".
  lemma DashesDisagree(l: Locale, f: Flags, x: nat)
    requires !f.stringSort && !IsDash(x) && !IsIgnored(l, f, x)
    requires !IsIgnored(l, f, DASH) && !IsIgnored(l, f, APOSTROPHE)
    requires Weight(l, f, DASH) != Weight(l, f, APOSTROPHE)
    ensures Compare(l, f, [DASH, x], [x]) == 0 && Compare(l, f, [x], [APOSTROPHE, x]) == 0
    ensures Compare(l, f, [DASH, x], [APOSTROPHE, x]) != 0
  {
    DotIsFirst(l, f, DASH);
    DotIsFirst(l, f, APOSTROPHE);
    hide Weight, IsSymbol;
    CompareReflexive(l, f, [x]);
    assert [DASH, x][1..] == [x] && [APOSTROPHE, x][1..] == [x];
  }

  // A character that gives way equals a weightless full stop, which equals nothing.
  lemma FullStopIsNothing(l: Locale, f: Flags, ch: nat)
    requires Weight(l, f, DOT) == 0 && ch != DOT && GivesWayLikeDot(l, f, ch)
    ensures Compare(l, f, [ch], [DOT]) == 0 && Compare(l, f, [DOT], []) == 0 && Compare(l, f, [ch], []) == 1
  {
    DotIsFirst(l, f, ch);
    hide Weight, IsSymbol;
    assert [ch][1..] == [] && [DOT][1..] == [];
  }

  // What a string is compared by: the weights of its ordinary characters, then how
  // many dashes follow the last of them, then how many symbols follow those.
  datatype Key = Key(weights: seq<nat>, dashes: nat, symbols: nat)

  ghost function KeyOf(l: Locale, f: Flags, a: seq<nat>): Key {
    if a == [] then Key([], 0, 0)
    else
      var k, w := KeyOf(l, f, a[1..]), Weight(l, f, a[0]);
      match Rank(l, f, a[0])
      case 0 => if w == 0 then k else k.(weights := [w] + k.weights)
      case 1 => if k.weights == [] then k.(dashes := k.dashes + 1) else k
      case _ => if k.weights == [] && k.dashes == 0 && w != 0 then k.(symbols := k.symbols + 1) else k
  }

  function Sign(x: int, y: int): int { if x < y then -1 else if x > y then 1 else 0 }

  function KeyOrder(p: Key, q: Key): int {
    if Lex(p.weights, q.weights) != 0 then Lex(p.weights, q.weights)
    else if p.dashes != q.dashes then Sign(p.dashes, q.dashes)
    else Sign(p.symbols, q.symbols)
  }

  lemma KeyOrderTransitive(p: Key, q: Key, r: Key)
    requires KeyOrder(p, q) <= 0 && KeyOrder(q, r) <= 0
    ensures KeyOrder(p, r) <= 0
  {
    hide Lex;
    LexTransitive(p.weights, q.weights, r.weights);
    LexEqual(p.weights, q.weights);
    LexEqual(q.weights, r.weights);
    LexEqual(p.weights, r.weights);
  }

  lemma OrderlyIsTransitive(l: Locale, f: Flags, a: seq<nat>, b: seq<nat>, c: seq<nat>)
    requires IsOrderly(l, f) && AllOccur(l, f, a) && AllOccur(l, f, b) && AllOccur(l, f, c)
    requires Compare(l, f, a, b) <= 0 && Compare(l, f, b, c) <= 0
    ensures Compare(l, f, a, c) <= 0
  {
    CompareIsKeyOrder(l, f, a, b);
    CompareIsKeyOrder(l, f, b, c);
    CompareIsKeyOrder(l, f, a, c);
    KeyOrderTransitive(KeyOf(l, f, a), KeyOf(l, f, b), KeyOf(l, f, c));
  }

  // ---------------------------------------------------------------- comparing is comparing keys

  // What being orderly means for one character, and for two that meet.
  lemma WeightlessIsFullStop(l: Locale, f: Flags, x: nat, y: nat)
    requires IsOrderly(l, f) && Occurs(l, f, x) && Occurs(l, f, y)
    ensures Weight(l, f, x) == 0 && Rank(l, f, x) == 0 ==> Rank(l, f, y) == 0
    ensures Weight(l, f, x) == 0 && Rank(l, f, x) == 2 && Rank(l, f, y) == 2 ==> Weight(l, f, y) == 0
    ensures Rank(l, f, x) == 1 ==> Weight(l, f, x) != 0
    ensures Rank(l, f, x) == 1 && Rank(l, f, y) == 1 ==> Weight(l, f, x) == Weight(l, f, y)
  {
    if x != DOT { DotIsFirst(l, f, x); }
    if y != DOT { DotIsFirst(l, f, y); }
    hide Weight, IsSymbol;
  }

  lemma CompareStep(l: Locale, f: Flags, a: seq<nat>, b: seq<nat>)
    requires a != [] && b != [] && Occurs(l, f, a[0]) && Occurs(l, f, b[0])
    ensures var r, r' := Rank(l, f, a[0]), Rank(l, f, b[0]);
            var x, y := Weight(l, f, a[0]), Weight(l, f, b[0]);
            Compare(l, f, a, b)
            == if r == 2 || r' == 2 then Compare(l, f, if r == 2 then a[1..] else a, if r' == 2 then b[1..] else b)
               else if r != r' then Compare(l, f, if r == 1 then a[1..] else a, if r' == 1 then b[1..] else b)
               else if x != 0 && y != 0 && x != y then (if x > y then 1 else -1)
               else Compare(l, f, if x == 0 || y != 0 then a[1..] else a, if y == 0 || x != 0 then b[1..] else b)
  {
    hide Weight, IsSymbol, HasWeight, IsDash;
    assert IsOrdinary(l, f, a[0]) || IsOrdinary(l, f, b[0]) ==> HasOrdinary(l, f);
  }

  lemma {:induction false} HasWeightKey(l: Locale, f: Flags, a: seq<nat>)
    requires IsOrderly(l, f) && AllOccur(l, f, a)
    ensures HasWeight(l, f, a) <==> KeyOf(l, f, a) != Key([], 0, 0)
  {
    if a != [] {
      hide Weight, IsOrderly, Occurs;
      HasWeightKey(l, f, a[1..]);
      WeightlessIsFullStop(l, f, a[0], a[0]);
    }
  }

  lemma {:induction false} CompareIsKeyOrder(l: Locale, f: Flags, a: seq<nat>, b: seq<nat>)
    requires IsOrderly(l, f) && AllOccur(l, f, a) && AllOccur(l, f, b)
    ensures Compare(l, f, a, b) == KeyOrder(KeyOf(l, f, a), KeyOf(l, f, b))
    decreases |a| + |b|
  {
    hide Weight, IsOrderly, Rank, Occurs;
    if a == [] || b == [] {
      HasWeightKey(l, f, a);
      HasWeightKey(l, f, b);
    } else {
      var r, r' := Rank(l, f, a[0]), Rank(l, f, b[0]);
      var x, y := Weight(l, f, a[0]), Weight(l, f, b[0]);
      WeightlessIsFullStop(l, f, a[0], b[0]);
      WeightlessIsFullStop(l, f, b[0], a[0]);
      CompareStep(l, f, a, b);
      hide Compare;
      if r == 2 || r' == 2 {
        CompareIsKeyOrder(l, f, if r == 2 then a[1..] else a, if r' == 2 then b[1..] else b);
      } else if r != r' {
        CompareIsKeyOrder(l, f, if r == 1 then a[1..] else a, if r' == 1 then b[1..] else b);
      } else if x == 0 || y == 0 || x == y {
        CompareIsKeyOrder(l, f, if x == 0 || y != 0 then a[1..] else a, if y == 0 || x != 0 then b[1..] else b);
      }
    }
  }

  // ---------------------------------------------------------------- the two-pointer loop

  // str and len as an index and a count, and the decomposition being walked through.
  datatype Cursor = Cursor(str: nat, len: nat, dpos: nat, chars: seq<nat>)

  ghost predicate On(l: Locale, f: Flags, s: seq<nat>, c: Cursor) {
    && c.str <= |s| && (c.len == 0 || c.len == |s| - c.str)
    && (c.chars == [] ==> c.dpos == 0)
    && (c.chars != [] ==>
          c.len > 0 && c.dpos < |c.chars| && c.chars == l.decompose(s[c.str]) && !(f.stopOnNull && s[c.str] == 0))
  }

  // What is still to be compared.
  ghost function Left(l: Locale, f: Flags, s: seq<nat>, c: Cursor): seq<nat>
    requires On(l, f, s, c)
  {
    if c.len == 0 then []
    else if c.chars == [] then Stream(l, f, s[c.str..])
    else c.chars[c.dpos..] + Stream(l, f, s[c.str + 1..])
  }

  // inc_str_pos
  method IncStrPos(l: Locale, ghost f: Flags, ghost s: seq<nat>, c: Cursor) returns (next: Cursor)
    requires On(l, f, s, c) && c.chars != []
    ensures On(l, f, s, next) && Left(l, f, s, next) == Left(l, f, s, c)[1..]
  {
    next := c.(dpos := c.dpos + 1);
    if next.dpos == |c.chars| {
      next := Cursor(c.str + 1, c.len - 1, 0, []);
      assert c.chars[c.dpos..] == [c.chars[c.dpos]];
    }
  }

  // The check for a NUL.
  method StopAtNull(l: Locale, f: Flags, s: seq<nat>, c: Cursor) returns (next: Cursor, stopped: bool)
    requires On(l, f, s, c) && c.len > 0
    ensures On(l, f, s, next) && Left(l, f, s, next) == Left(l, f, s, c)
    ensures stopped ==> next.len == 0
    ensures !stopped ==> next == c && !(f.stopOnNull && s[c.str] == 0)
  {
    stopped := f.stopOnNull && s[c.str] == 0;
    next := if stopped then c.(len := 0) else c;
  }

  // Decompose the next character if the last one is used up.
  method Load(l: Locale, f: Flags, s: seq<nat>, c: Cursor) returns (next: Cursor)
    requires Sound(l) && On(l, f, s, c) && c.len > 0 && !(f.stopOnNull && s[c.str] == 0)
    ensures On(l, f, s, next) && next.chars != [] && next.len > 0
    ensures var r := Left(l, f, s, c);
            r == Left(l, f, s, next) && r != [] && r[0] == next.chars[next.dpos]
  {
    next := c;
    if c.chars == [] {
      next := c.(chars := l.decompose(s[c.str]));
      assert |l.decompose(s[c.str])| >= 1;
      assert s[c.str..][1..] == s[c.str + 1..];
    }
  }

  // The loops after the common part: what is left counts only if it has weight.
  method SkipWeightless(l: Locale, f: Flags, s: seq<nat>, c: Cursor) returns (end: Cursor)
    requires Sound(l) && On(l, f, s, c)
    ensures end.len > 0 <==> HasWeight(l, f, Left(l, f, s, c))
  {
    hide Weight, Stream;
    end := c;
    while end.len > 0
      invariant On(l, f, s, end)
      invariant HasWeight(l, f, Left(l, f, s, end)) == HasWeight(l, f, Left(l, f, s, c))
      decreases |Left(l, f, s, end)|, end.len
    {
      var stopped;
      end, stopped := StopAtNull(l, f, s, end);
      if stopped { break; }
      end := Load(l, f, s, end);
      if Weight(l, f, end.chars[end.dpos]) != 0 { break; }
      end := IncStrPos(l, f, s, end);
    }
  }

  // compare_weights as wine_compare_string calls it
  method CompareWeights(l: Locale, f: Flags, s: seq<nat>, t: seq<nat>) returns (r: int)
    requires Sound(l)
    ensures r == Compare(l, f, Stream(l, f, s), Stream(l, f, t))
  {
    hide Weight, Stream, IsSymbol, IsDash;
    var c, d := Cursor(0, |s|, 0, []), Cursor(0, |t|, 0, []);
    assert Left(l, f, s, c) == Stream(l, f, s) by { WholeString(l, f, s); }
    assert Left(l, f, t, d) == Stream(l, f, t) by { WholeString(l, f, t); }
    while c.len > 0 && d.len > 0
      invariant On(l, f, s, c) && On(l, f, t, d)
      invariant Compare(l, f, Left(l, f, s, c), Left(l, f, t, d)) == Compare(l, f, Stream(l, f, s), Stream(l, f, t))
      decreases |Left(l, f, s, c)| + |Left(l, f, t, d)|, c.len + d.len
    {
      var stopC, stopD;
      c, stopC := StopAtNull(l, f, s, c);
      d, stopD := StopAtNull(l, f, t, d);
      if stopC || stopD { break; }
      c := Load(l, f, s, c);
      d := Load(l, f, t, d);
      var x, y := c.chars[c.dpos], d.chars[d.dpos];
      if f.ignoreSymbols {
        var skipC, skipD := IsSymbol(l, x), IsSymbol(l, y);
        if skipC { c := IncStrPos(l, f, s, c); }
        if skipD { d := IncStrPos(l, f, t, d); }
        if skipC || skipD { continue; }
      }
      if !f.stringSort {
        if IsDash(x) {
          if !IsDash(y) {
            c := IncStrPos(l, f, s, c);
            continue;
          }
        } else if IsDash(y) {
          d := IncStrPos(l, f, t, d);
          continue;
        }
      }
      var v, w := Weight(l, f, x), Weight(l, f, y);
      if v != 0 && w != 0 && v != w {
        return if v > w then 1 else -1;
      }
      if v == 0 || w != 0 { c := IncStrPos(l, f, s, c); }
      if w == 0 || v != 0 { d := IncStrPos(l, f, t, d); }
    }
    c := SkipWeightless(l, f, s, c);
    d := SkipWeightless(l, f, t, d);
    return if c.len > d.len then 1 else if c.len < d.len then -1 else 0;
  }

  lemma WholeString(l: Locale, f: Flags, s: seq<nat>)
    ensures On(l, f, s, Cursor(0, |s|, 0, [])) && Left(l, f, s, Cursor(0, |s|, 0, [])) == Stream(l, f, s)
  {
  }
}
