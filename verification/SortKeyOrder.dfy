/**
 * What sort keys are for: comparing them byte by byte orders strings by their primary
 * weights, then by their diacritics, their cases and their characters (sortkey.c, the
 * first half).
 */
module SortKeyOrder {
  import opened Basics
  import opened SortKeys
  import C = Collation

  // ---------------------------------------------------------------- the weights

  // The weights of one character, by the bits of its collation element: a 16-bit
  // primary weight, which for a character without an element is followed by itself,
  // an 8-bit diacritic and a 4-bit case weight, none of them if zero.
  function PrimaryOf(a: Alphabet, ch: nat): seq<nat> {
    var e := a.element(ch);
    if e == 0xFFFF_FFFF then [0xFFFE, ch] else if e / 0x10000 != 0 then [e / 0x10000] else []
  }

  function DiacriticOf(a: Alphabet, ch: nat): seq<nat> {
    var e := a.element(ch);
    if e != 0xFFFF_FFFF && e / 0x100 % 0x100 != 0 then [e / 0x100 % 0x100] else []
  }

  function CaseOf(a: Alphabet, ch: nat): seq<nat> {
    var e := a.element(ch);
    if e != 0xFFFF_FFFF && e / 0x10 % 0x10 != 0 then [e / 0x10 % 0x10] else []
  }

  // And the bytes of a character whose element is odd, none of them if zero.
  function BytesOf(a: Alphabet, ch: nat): seq<nat> {
    var e := a.element(ch);
    if e == 0xFFFF_FFFF || e % 2 == 0 then []
    else if ch < 0x100 then (if ch == 0 then [] else [ch])
    else if ch % 0x100 == 0 then [ch / 0x100]
    else [ch / 0x100, ch % 0x100]
  }

  // The k-th kind of weight.
  function Weight(a: Alphabet, k: nat, ch: nat): seq<nat>
    requires k < 4
  {
    if k == 0 then PrimaryOf(a, ch) else if k == 1 then DiacriticOf(a, ch) else if k == 2 then CaseOf(a, ch)
    else BytesOf(a, ch)
  }

  function Weights(a: Alphabet, k: nat, s: seq<nat>): seq<nat>
    requires k < 4
  {
    if s == [] then [] else Weight(a, k, s[0]) + Weights(a, k, s[1..])
  }

  // The order of two strings: the first kind of weight in which they differ decides.
  function Order(a: Alphabet, s: seq<nat>, t: seq<nat>): int {
    var p, d, c := C.Lex(Weights(a, 0, s), Weights(a, 0, t)), C.Lex(Weights(a, 1, s), Weights(a, 1, t)),
                   C.Lex(Weights(a, 2, s), Weights(a, 2, t));
    if p != 0 then p else if d != 0 then d else if c != 0 then c
    else C.Lex(Weights(a, 3, s), Weights(a, 3, t))
  }

  // A character whose bytes in the first three sections cannot be taken for the 1 that
  // closes a section: its primary weight has an upper byte of 2 or more, and its
  // diacritic is not the one that comes to zero when it is made to start from 2.
  predicate IsSeparated(ch: nat, e: nat) {
    && ch < 0x10000 && e < 0x1_0000_0000
    && if e == 0xFFFF_FFFF then ch >= 0x200 && ch % 0x100 != 0
       else (e / 0x10000 == 0 || e / 0x10000 >= 0x200) && e / 0x100 % 0x100 != 0xFF
  }

  ghost predicate AllSeparated(a: Alphabet, s: seq<nat>) {
    forall i :: 0 <= i < |s| ==> IsSeparated(s[i], a.element(s[i]))
  }

  // ---------------------------------------------------------------- sections hold the weights

  // Two bytes for a primary weight, one byte more for the others, characters as they are.
  function CodeOf(k: nat, w: nat): (c: seq<nat>)
    ensures c != []
  {
    if k == 0 then [w / 0x100, w % 0x100] else if k == 3 then [w] else [w + 1]
  }

  function Coded(k: nat, ws: seq<nat>): seq<nat> {
    if ws == [] then [] else CodeOf(k, ws[0]) + Coded(k, ws[1..])
  }

  lemma Associates(c: seq<nat>, x: seq<nat>, y: seq<nat>)
    ensures c + (x + y) == (c + x) + y
  {
  }

  lemma {:induction false} CodedConcat(k: nat, v: seq<nat>, w: seq<nat>)
    ensures Coded(k, v + w) == Coded(k, v) + Coded(k, w)
  {
    hide CodeOf;
    if v == [] {
      assert v + w == w;
    } else {
      CodedConcat(k, v[1..], w);
      assert (v + w)[1..] == v[1..] + w;
      var c, x, y := CodeOf(k, v[0]), Coded(k, v[1..]), Coded(k, w);
      Associates(c, x, y);
    }
  }

  lemma {:induction false} WeightsConcat(a: Alphabet, k: nat, s: seq<nat>, t: seq<nat>)
    requires k < 4
    ensures Weights(a, k, s + t) == Weights(a, k, s) + Weights(a, k, t)
  {
    hide Weight;
    if s == [] {
      assert s + t == t;
    } else {
      WeightsConcat(a, k, s[1..], t);
      assert (s + t)[1..] == s[1..] + t;
      var c, x, y := Weight(a, k, s[0]), Weights(a, k, s[1..]), Weights(a, k, t);
      Associates(c, x, y);
    }
  }

  // One character's part is its weight, coded.
  lemma PartIsCoded(a: Alphabet, k: nat, ch: nat)
    requires k < 4 && IsSeparated(ch, a.element(ch))
    ensures Part(a, k, ch) == Coded(k, Weight(a, k, ch))
  {
    if k == 0 {
      PrimaryIsCoded(a, ch);
    } else if k == 1 {
      DiacriticIsCoded(a, ch);
    } else if k == 2 {
      CaseIsCoded(a, ch);
    } else {
      BytesAreCoded(a, ch);
    }
    hide Part, Weight, Coded, IsSeparated;
  }

  lemma PrimaryIsCoded(a: Alphabet, ch: nat)
    requires IsSeparated(ch, a.element(ch))
    ensures Part(a, 0, ch) == Coded(0, Weight(a, 0, ch))
  {
    CodedShort(0, Weight(a, 0, ch));
    PrimaryBytes(a.element(ch));
    hide Coded;
  }

  lemma DiacriticIsCoded(a: Alphabet, ch: nat)
    requires IsSeparated(ch, a.element(ch))
    ensures Part(a, 1, ch) == Coded(1, Weight(a, 1, ch))
  {
    CodedShort(1, Weight(a, 1, ch));
    hide Coded;
  }

  lemma CaseIsCoded(a: Alphabet, ch: nat)
    ensures Part(a, 2, ch) == Coded(2, Weight(a, 2, ch))
  {
    CodedShort(2, Weight(a, 2, ch));
    hide Coded;
  }

  lemma BytesAreCoded(a: Alphabet, ch: nat)
    requires ch < 0x10000
    ensures Part(a, 3, ch) == Coded(3, Weight(a, 3, ch))
  {
    CodedShort(3, Weight(a, 3, ch));
    hide Coded;
  }

  lemma CodedShort(k: nat, w: seq<nat>)
    ensures |w| == 0 ==> Coded(k, w) == []
    ensures |w| == 1 ==> Coded(k, w) == CodeOf(k, w[0])
    ensures |w| == 2 ==> Coded(k, w) == CodeOf(k, w[0]) + CodeOf(k, w[1])
  {
    if |w| == 2 { assert w[1..] == [w[1]] && [w[1]][1..] == []; }
    if |w| == 1 { assert w[1..] == []; }
    hide CodeOf;
  }

  lemma PrimaryBytes(e: nat)
    requires e < 0x1_0000_0000
    ensures e / 0x1000000 % 0x100 == e / 0x10000 / 0x100 && e / 0x10000 % 0x100 == (e / 0x10000) % 0x100
  {
  }

  lemma WeightsOfOne(a: Alphabet, k: nat, ch: nat)
    requires k < 4
    ensures Weights(a, k, [ch]) == Weight(a, k, ch)
  {
    hide Weight;
    assert [ch][1..] == [];
    assert Weight(a, k, ch) + [] == Weight(a, k, ch);
  }

  lemma SectionOneMore(a: Alphabet, k: nat, s: seq<nat>)
    requires k < 4 && s != []
    ensures var n := |s| - 1;
            && Section(a, k, s) == Section(a, k, s[..n]) + Part(a, k, s[n])
            && Weights(a, k, s) == Weights(a, k, s[..n]) + Weight(a, k, s[n])
  {
    hide Part, Weight;
    var n := |s| - 1;
    WeightsConcat(a, k, s[..n], [s[n]]);
    WeightsOfOne(a, k, s[n]);
    assert s[..n] + [s[n]] == s;
    hide Weights;
  }

  // So a section is the weights, coded.
  lemma {:induction false} SectionOfCoded(a: Alphabet, k: nat, s: seq<nat>)
    requires k < 4 && forall i :: 0 <= i < |s| ==> Part(a, k, s[i]) == Coded(k, Weight(a, k, s[i]))
    ensures Section(a, k, s) == Coded(k, Weights(a, k, s))
  {
    if s != [] {
      var n := |s| - 1;
      SectionOneMore(a, k, s);
      hide Section, Weights, Part, Weight, Coded;
      SectionOfCoded(a, k, s[..n]);
      CodedConcat(k, Weights(a, k, s[..n]), Weight(a, k, s[n]));
    }
  }

  lemma SectionIsCoded(a: Alphabet, k: nat, s: seq<nat>)
    requires k < 4 && AllSeparated(a, s)
    ensures Section(a, k, s) == Coded(k, Weights(a, k, s))
  {
    hide Section, Weights, Part, Weight, Coded, IsSeparated;
    forall i | 0 <= i < |s| ensures Part(a, k, s[i]) == Coded(k, Weight(a, k, s[i])) {
      PartIsCoded(a, k, s[i]);
    }
    SectionOfCoded(a, k, s);
  }

  // ---------------------------------------------------------------- keys order strings

  lemma LexStep(p: nat, q: nat, x: seq<nat>, y: seq<nat>)
    ensures C.Lex([p] + x, [q] + y) == if p > q then 1 else if p < q then -1 else C.Lex(x, y)
  {
    assert ([p] + x)[1..] == x && ([q] + y)[1..] == y;
  }

  // No code of a weight begins with the 1 that closes a section, or with less.
  ghost predicate AboveOne(k: nat, ws: seq<nat>) {
    forall i :: 0 <= i < |ws| ==> 2 <= CodeOf(k, ws[i])[0]
  }

  lemma CodeDecides(k: nat, v: nat, w: nat, x: seq<nat>, y: seq<nat>)
    requires k < 3
    ensures C.Lex(CodeOf(k, v) + x, CodeOf(k, w) + y) == if v > w then 1 else if v < w then -1 else C.Lex(x, y)
  {
    if k == 0 {
      assert CodeOf(0, v) + x == [v / 0x100] + ([v % 0x100] + x);
      assert CodeOf(0, w) + y == [w / 0x100] + ([w % 0x100] + y);
      LexStep(v / 0x100, w / 0x100, [v % 0x100] + x, [w % 0x100] + y);
      LexStep(v % 0x100, w % 0x100, x, y);
    } else {
      LexStep(v + 1, w + 1, x, y);
    }
  }

  // A closed section decides as its weights do; if they are the same, what follows does.
  lemma {:induction false} SectionDecides(k: nat, v: seq<nat>, w: seq<nat>, x: seq<nat>, y: seq<nat>)
    requires k < 3 && AboveOne(k, v) && AboveOne(k, w)
    ensures C.Lex(Coded(k, v) + ([1] + x), Coded(k, w) + ([1] + y))
            == if C.Lex(v, w) != 0 then C.Lex(v, w) else C.Lex(x, y)
  {
    hide CodeOf;
    var a, b := [1] + x, [1] + y;
    if v == [] || w == [] {
      assert v == [] ==> Coded(k, v) + a == a;
      assert w == [] ==> Coded(k, w) + b == b;
      if v != [] {
        FirstOfCode(k, v, a);
      } else if w != [] {
        FirstOfCode(k, w, b);
      } else {
        LexStep(1, 1, x, y);
      }
    } else {
      var v', w' := Coded(k, v[1..]), Coded(k, w[1..]);
      assert Coded(k, v) + a == CodeOf(k, v[0]) + (v' + a);
      assert Coded(k, w) + b == CodeOf(k, w[0]) + (w' + b);
      CodeDecides(k, v[0], w[0], v' + a, w' + b);
      if v[0] == w[0] {
        SectionDecides(k, v[1..], w[1..], x, y);
      }
    }
  }

  lemma FirstOfCode(k: nat, v: seq<nat>, x: seq<nat>)
    requires v != []
    ensures Coded(k, v) + x != [] && (Coded(k, v) + x)[0] == CodeOf(k, v[0])[0]
  {
  }

  // The last section holds bytes that are not zero; a NUL ends the key.
  lemma {:induction false} LastDecides(v: seq<nat>, w: seq<nat>)
    requires (forall i :: 0 <= i < |v| ==> v[i] != 0) && forall i :: 0 <= i < |w| ==> w[i] != 0
    ensures C.Lex(v + [1, 0], w + [1, 0]) == C.Lex(v, w)
  {
    if v == [] && w == [] {
      C.LexEqual([1, 0], [1, 0]);
      assert v + [1, 0] == [1, 0] && w + [1, 0] == [1, 0];
    } else if v == [] {
      assert [] + [1, 0] == [1] + [0] && w + [1, 0] == [w[0]] + (w[1..] + [1, 0]);
      LexStep(1, w[0], [0], w[1..] + [1, 0]);
      assert (w[1..] + [1, 0])[0] != 0;
    } else if w == [] {
      assert [] + [1, 0] == [1] + [0] && v + [1, 0] == [v[0]] + (v[1..] + [1, 0]);
      LexStep(v[0], 1, v[1..] + [1, 0], [0]);
      assert (v[1..] + [1, 0])[0] != 0;
    } else {
      assert v + [1, 0] == [v[0]] + (v[1..] + [1, 0]) && w + [1, 0] == [w[0]] + (w[1..] + [1, 0]);
      LexStep(v[0], w[0], v[1..] + [1, 0], w[1..] + [1, 0]);
      if v[0] == w[0] { LastDecides(v[1..], w[1..]); }
    }
  }

  lemma {:induction false} CodedLast(ws: seq<nat>)
    ensures Coded(3, ws) == ws
  {
    if ws != [] { CodedLast(ws[1..]); }
  }

  lemma {:induction false} WeightsAboveOne(a: Alphabet, k: nat, s: seq<nat>)
    requires k < 4 && AllSeparated(a, s)
    ensures k < 3 ==> AboveOne(k, Weights(a, k, s))
    ensures k == 3 ==> forall i :: 0 <= i < |Weights(a, k, s)| ==> Weights(a, k, s)[i] != 0
  {
    if s != [] {
      WeightsAboveOne(a, k, s[1..]);
      WeightAboveOne(a, k, s[0]);
      hide Weight, CodeOf, IsSeparated;
    }
  }

  lemma WeightAboveOne(a: Alphabet, k: nat, ch: nat)
    requires k < 4 && IsSeparated(ch, a.element(ch))
    ensures k < 3 ==> AboveOne(k, Weight(a, k, ch))
    ensures k == 3 ==> forall i :: 0 <= i < |Weight(a, k, ch)| ==> Weight(a, k, ch)[i] != 0
  {
  }

  // A key, put together from its weights.
  function KeyOf(p: seq<nat>, d: seq<nat>, c: seq<nat>, b: seq<nat>): seq<nat> {
    Coded(0, p) + ([1] + (Coded(1, d) + ([1] + (Coded(2, c) + ([1] + (b + [1, 0]))))))
  }

  lemma KeyIsCoded(a: Alphabet, s: seq<nat>)
    requires AllSeparated(a, s)
    ensures Key(a, s) == KeyOf(Weights(a, 0, s), Weights(a, 1, s), Weights(a, 2, s), Weights(a, 3, s))
  {
    SectionIsCoded(a, 0, s);
    SectionIsCoded(a, 1, s);
    SectionIsCoded(a, 2, s);
    SectionIsCoded(a, 3, s);
    CodedLast(Weights(a, 3, s));
    KeyInParts(a, s);
    hide Coded, Weights, Section, Key, AllSeparated;
  }

  lemma KeyInParts(a: Alphabet, s: seq<nat>)
    ensures Key(a, s) == Section(a, 0, s) + ([1] + (Section(a, 1, s) + ([1] + (Section(a, 2, s)
                         + ([1] + (Section(a, 3, s) + [1, 0]))))))
  {
    Regroup(Section(a, 0, s), Section(a, 1, s), Section(a, 2, s), Section(a, 3, s));
    hide Section;
  }

  lemma Regroup(w: seq<Byte>, x: seq<Byte>, y: seq<Byte>, z: seq<Byte>)
    ensures (w + [1]) + (x + [1]) + (y + [1]) + (z + [1] + [0])
            == w + ([1] + (x + ([1] + (y + ([1] + (z + [1, 0]))))))
  {
  }

  lemma KeysDecide(p: seq<nat>, d: seq<nat>, c: seq<nat>, b: seq<nat>, p': seq<nat>, d': seq<nat>, c': seq<nat>,
                   b': seq<nat>)
    requires AboveOne(0, p) && AboveOne(1, d) && AboveOne(2, c) && forall i :: 0 <= i < |b| ==> b[i] != 0
    requires AboveOne(0, p') && AboveOne(1, d') && AboveOne(2, c') && forall i :: 0 <= i < |b'| ==> b'[i] != 0
    ensures C.Lex(KeyOf(p, d, c, b), KeyOf(p', d', c', b'))
            == if C.Lex(p, p') != 0 then C.Lex(p, p') else if C.Lex(d, d') != 0 then C.Lex(d, d')
               else if C.Lex(c, c') != 0 then C.Lex(c, c') else C.Lex(b, b')
  {
    hide Coded, AboveOne, C.Lex;
    LastDecides(b, b');
    var x, x' := Coded(2, c) + ([1] + (b + [1, 0])), Coded(2, c') + ([1] + (b' + [1, 0]));
    SectionDecides(2, c, c', b + [1, 0], b' + [1, 0]);
    SectionDecides(1, d, d', x, x');
    SectionDecides(0, p, p', Coded(1, d) + ([1] + x), Coded(1, d') + ([1] + x'));
  }

  // Keys of separated strings, compared byte by byte, are in the order of the strings.
  lemma KeysOrderStrings(a: Alphabet, s: seq<nat>, t: seq<nat>)
    requires AllSeparated(a, s) && AllSeparated(a, t)
    ensures C.Lex(Key(a, s), Key(a, t)) == Order(a, s, t)
  {
    KeyIsCoded(a, s);
    KeyIsCoded(a, t);
    forall k: nat | k < 4
      ensures k < 3 ==> AboveOne(k, Weights(a, k, s)) && AboveOne(k, Weights(a, k, t))
    {
      WeightsAboveOne(a, k, s);
      WeightsAboveOne(a, k, t);
    }
    WeightsAboveOne(a, 3, s);
    WeightsAboveOne(a, 3, t);
    hide KeyOf, Key, Weights, AboveOne, AllSeparated, C.Lex;
    KeysDecide(Weights(a, 0, s), Weights(a, 1, s), Weights(a, 2, s), Weights(a, 3, s),
               Weights(a, 0, t), Weights(a, 1, t), Weights(a, 2, t), Weights(a, 3, t));
  }

  // ---------------------------------------------------------------- and only then

  // Strings of characters that are separated, but for one.
  ghost predicate OneApart(a: Alphabet, ch: nat, e: nat, s: seq<nat>) {
    a.element(ch) == e && forall i :: 0 <= i < |s| ==> s[i] == ch || IsSeparated(s[i], a.element(s[i]))
  }

  ghost predicate KeysInOrder(ch: nat, e: nat) {
    forall a, s, t :: OneApart(a, ch, e, s) && OneApart(a, ch, e, t) ==> C.Lex(Key(a, s), Key(a, t)) == Order(a, s, t)
  }

  // A collation element keeps keys in order, beside whatever characters that are
  // separated, exactly if its character is separated.
  lemma SeparatedIff(ch: nat, e: nat)
    requires ch < 0x10000 && e < 0xFFFF_FFFF
    ensures KeysInOrder(ch, e) <==> IsSeparated(ch, e)
  {
    if IsSeparated(ch, e) {
      forall a, s, t | OneApart(a, ch, e, s) && OneApart(a, ch, e, t)
        ensures C.Lex(Key(a, s), Key(a, t)) == Order(a, s, t)
      {
        KeysOrderStrings(a, s, t);
      }
    } else if 0 < e / 0x10000 < 0x100 {
      ZeroComesFirst(ch, e);
    } else if 0 < e / 0x10000 < 0x200 {
      OneIsNoWeight(ch, e);
    } else {
      DiacriticOverflows(ch, e);
    }
  }

  // An alphabet of two characters with an element that is not zero.
  function TwoOf(ch: nat, e: nat, other: nat, e': nat): Alphabet {
    Alphabet(x => false, x => x, x => if x == ch then e else if x == other then e' else 0)
  }

  lemma {:induction false} LexBehind(p: seq<nat>, x: seq<nat>, y: seq<nat>)
    ensures C.Lex(p + x, p + y) == C.Lex(x, y)
  {
    if p == [] {
      assert p + x == x && p + y == y;
    } else {
      LexBehind(p[1..], x, y);
      assert p + x == [p[0]] + (p[1..] + x) && p + y == [p[0]] + (p[1..] + y);
      LexStep(p[0], p[0], p[1..] + x, p[1..] + y);
    }
  }

  lemma KeyBegins(a: Alphabet, s: seq<nat>) returns (rest: seq<Byte>)
    ensures Key(a, s) == Section(a, 0, s) + ([1] + (Section(a, 1, s) + ([1] + rest)))
  {
    hide Section;
    rest := Section(a, 2, s) + [1] + (Section(a, 3, s) + [1] + [0]);
  }

  lemma OutOfOrder(a: Alphabet, ch: nat, e: nat, s: seq<nat>, t: seq<nat>)
    requires OneApart(a, ch, e, s) && OneApart(a, ch, e, t) && C.Lex(Key(a, s), Key(a, t)) != Order(a, s, t)
    ensures !KeysInOrder(ch, e)
  {
    hide Key, Order, C.Lex;
  }

  lemma SectionOfOne(a: Alphabet, k: nat, x: nat)
    requires k < 4
    ensures Section(a, k, []) == [] && Section(a, k, [x]) == Part(a, k, x)
    ensures Section(a, k, [x, x]) == Part(a, k, x) + Part(a, k, x)
  {
    assert [x][..0] == [] && [x, x][..1] == [x];
    hide Part;
  }

  lemma ZeroComesFirst(ch: nat, e: nat)
    requires ch < 0x10000 && e < 0xFFFF_FFFF && 0 < e / 0x10000 < 0x100
    ensures !KeysInOrder(ch, e)
  {
    var a := TwoOf(ch, e, ch, e);
    ZeroFirstByte(a, ch, e);
    assert OneApart(a, ch, e, [ch]) && OneApart(a, ch, e, []);
    OutOfOrder(a, ch, e, [ch], []);
  }

  lemma ZeroFirstByte(a: Alphabet, ch: nat, e: nat)
    requires a.element(ch) == e < 0xFFFF_FFFF && 0 < e / 0x10000 < 0x100
    ensures C.Lex(Key(a, [ch]), Key(a, [])) == -1 && Order(a, [ch], []) == 1
  {
    SectionOfOne(a, 0, ch);
    WeightsOfOne(a, 0, ch);
    PrimaryBytes(e);
    assert Section(a, 0, [ch]) == [0, e / 0x10000 % 0x100] && Weights(a, 0, [ch]) == [e / 0x10000];
    assert Section(a, 0, []) == [] && Weights(a, 0, []) == [];
    OrderByPrimary(a, [ch], []);
    assert C.Lex([e / 0x10000], []) == 1;
    var x := KeyBegins(a, [ch]);
    var y := KeyBegins(a, []);
    hide Section, Weights, Key, Order, C.Lex;
    ZeroBeforeOne(e / 0x10000 % 0x100, [1] + (Section(a, 1, [ch]) + ([1] + x)), Section(a, 1, []) + ([1] + y));
  }

  lemma ZeroBeforeOne(low: nat, p: seq<nat>, q: seq<nat>)
    ensures C.Lex([0, low] + p, [] + ([1] + q)) == -1
  {
    hide C.Lex;
    assert [] + ([1] + q) == [1] + q;
    PairSplits(0, low, p);
    LexStep(0, 1, [low] + p, q);
  }

  lemma OneIsNoWeight(ch: nat, e: nat)
    requires ch < 0x10000 && e < 0xFFFF_FFFF && 0x100 <= e / 0x10000 < 0x200
    ensures !KeysInOrder(ch, e)
  {
    var o: nat := if ch == 0 then 1 else 0;
    var a := TwoOf(ch, e, o, 0xFE00);
    assert OneApart(a, ch, e, [ch]) && OneApart(a, ch, e, [o, o]);
    OneBeforeDiacritic(a, ch, o, e);
    OutOfOrder(a, ch, e, [ch], [o, o]);
  }

  lemma OneBeforeDiacritic(a: Alphabet, ch: nat, o: nat, e: nat)
    requires a.element(ch) == e < 0xFFFF_FFFF && 0x100 <= e / 0x10000 < 0x200 && a.element(o) == 0xFE00
    ensures C.Lex(Key(a, [ch]), Key(a, [o, o])) == -1 && Order(a, [ch], [o, o]) == 1
  {
    OnePrimary(a, ch, e);
    TwoDiacritics(a, o);
    var x := KeyBegins(a, [ch]);
    var y := KeyBegins(a, [o, o]);
    OrderByPrimary(a, [ch], [o, o]);
    assert C.Lex([e / 0x10000], []) == 1;
    hide Section, Weights, Key, Order, C.Lex;
    LowFirst(e / 0x10000 % 0x100, Section(a, 1, [ch]) + ([1] + x), [1] + y);
  }

  lemma LowFirst(low: nat, p: seq<nat>, q: seq<nat>)
    requires low <= 0xFF
    ensures C.Lex([1, low] + ([1] + p), [] + ([1] + ([0xFF, 0xFF] + q))) == -1
  {
    hide C.Lex;
    assert [] + ([1] + ([0xFF, 0xFF] + q)) == [1] + ([0xFF, 0xFF] + q);
    PairSplits(1, low, [1] + p);
    PairSplits(0xFF, 0xFF, q);
    LexStep(1, 1, [low] + ([1] + p), [0xFF] + ([0xFF] + q));
    LexStep(low, 0xFF, [1] + p, [0xFF] + q);
    LexStep(1, 0xFF, p, q);
  }

  lemma OrderByPrimary(a: Alphabet, s: seq<nat>, t: seq<nat>)
    requires C.Lex(Weights(a, 0, s), Weights(a, 0, t)) != 0
    ensures Order(a, s, t) == C.Lex(Weights(a, 0, s), Weights(a, 0, t))
  {
  }

  lemma PairSplits(x: nat, y: nat, z: seq<nat>)
    ensures [x, y] + z == [x] + ([y] + z)
  {
  }

  lemma OnePrimary(a: Alphabet, ch: nat, e: nat)
    requires a.element(ch) == e < 0xFFFF_FFFF && 0x100 <= e / 0x10000 < 0x200
    ensures Section(a, 0, [ch]) == [1, e / 0x10000 % 0x100] && Weights(a, 0, [ch]) == [e / 0x10000]
  {
    SectionOfOne(a, 0, ch);
    WeightsOfOne(a, 0, ch);
    PrimaryBytes(e);
  }

  lemma TwoDiacritics(a: Alphabet, o: nat)
    requires a.element(o) == 0xFE00
    ensures Section(a, 0, [o, o]) == [] && Section(a, 1, [o, o]) == [0xFF, 0xFF] && Weights(a, 0, [o, o]) == []
  {
    SectionOfOne(a, 0, o);
    SectionOfOne(a, 1, o);
    assert [o, o] == [o] + [o];
    WeightsConcat(a, 0, [o], [o]);
    WeightsOfOne(a, 0, o);
  }

  lemma DiacriticOverflows(ch: nat, e: nat)
    requires ch < 0x10000 && e < 0xFFFF_FFFF && e / 0x100 % 0x100 == 0xFF
    requires e / 0x10000 == 0 || e / 0x10000 >= 0x200
    ensures !KeysInOrder(ch, e)
  {
    var o: nat := if ch == 0 then 1 else 0;
    var a := TwoOf(ch, e, o, e / 0x10000 * 0x10000);
    HighHalf(e);
    assert OneApart(a, ch, e, [ch]) && OneApart(a, ch, e, [o]);
    DiacriticBeforeNone(a, ch, o, e);
    OutOfOrder(a, ch, e, [ch], [o]);
  }

  lemma DiacriticBeforeNone(a: Alphabet, ch: nat, o: nat, e: nat)
    requires e < 0xFFFF_FFFF && e / 0x100 % 0x100 == 0xFF
    requires a.element(ch) == e && a.element(o) == e / 0x10000 * 0x10000
    ensures C.Lex(Key(a, [ch]), Key(a, [o])) == -1 && Order(a, [ch], [o]) == 1
  {
    OnlyDiacritic(a, ch, o, e);
    var x := KeyBegins(a, [ch]);
    var y := KeyBegins(a, [o]);
    C.LexEqual(Weights(a, 0, [ch]), Weights(a, 0, [o]));
    OrderByDiacritic(a, [ch], [o]);
    assert C.Lex([0xFF], []) == 1;
    hide Section, Weights, Key, Order, C.Lex;
    ZeroFirst(Section(a, 0, [ch]), [1] + x, y);
  }

  lemma OrderByDiacritic(a: Alphabet, s: seq<nat>, t: seq<nat>)
    requires C.Lex(Weights(a, 0, s), Weights(a, 0, t)) == 0 && C.Lex(Weights(a, 1, s), Weights(a, 1, t)) != 0
    ensures Order(a, s, t) == C.Lex(Weights(a, 1, s), Weights(a, 1, t))
  {
  }

  lemma ZeroFirst(first: seq<nat>, p: seq<nat>, q: seq<nat>)
    ensures C.Lex(first + ([1] + ([0] + p)), first + ([1] + ([] + ([1] + q)))) == -1
  {
    hide C.Lex;
    assert [] + ([1] + q) == [1] + q;
    LexBehind(first, [1] + ([0] + p), [1] + ([1] + q));
    LexStep(1, 1, [0] + p, [1] + q);
    LexStep(0, 1, p, q);
  }

  lemma HighHalf(e: nat)
    requires e < 0xFFFF_FFFF
    ensures var h := e / 0x10000 * 0x10000;
            h / 0x10000 == e / 0x10000 && h / 0x100 % 0x100 == 0 && h < 0xFFFF_FFFF
  {
  }

  lemma OnlyDiacritic(a: Alphabet, ch: nat, o: nat, e: nat)
    requires e < 0xFFFF_FFFF && e / 0x100 % 0x100 == 0xFF
    requires a.element(ch) == e && a.element(o) == e / 0x10000 * 0x10000
    ensures Section(a, 0, [ch]) == Section(a, 0, [o]) && Section(a, 1, [ch]) == [0] && Section(a, 1, [o]) == []
    ensures Weights(a, 0, [ch]) == Weights(a, 0, [o]) && Weights(a, 1, [ch]) == [0xFF] && Weights(a, 1, [o]) == []
  {
    HighHalf(e);
    PrimaryBytes(e);
    PrimaryBytes(a.element(o));
    SectionOfOne(a, 0, ch);
    SectionOfOne(a, 0, o);
    SectionOfOne(a, 1, ch);
    SectionOfOne(a, 1, o);
    WeightsOfOne(a, 0, ch);
    WeightsOfOne(a, 0, o);
    WeightsOfOne(a, 1, ch);
    WeightsOfOne(a, 1, o);
    hide Section, Weights;
  }

  // Bytes 2i and 2i + 1 of the first section are the i-th primary weight, for strings
  // of characters that have elements.
  lemma PrimariesInPairs(a: Alphabet, s: seq<nat>, i: nat)
    requires (forall j :: 0 <= j < |s| ==> a.element(s[j]) < 0xFFFF_FFFF) && i < |Weights(a, 0, s)|
    ensures var w, b := Weights(a, 0, s), Section(a, 0, s);
            |b| == 2 * |w| && b[2 * i] == w[i] / 0x100 && b[2 * i + 1] == w[i] % 0x100
  {
    FirstSectionIsCoded(a, s);
    CodedInPairs(Weights(a, 0, s), i);
  }

  lemma FirstSectionIsCoded(a: Alphabet, s: seq<nat>)
    requires forall j :: 0 <= j < |s| ==> a.element(s[j]) < 0xFFFF_FFFF
    ensures Section(a, 0, s) == Coded(0, Weights(a, 0, s))
  {
    hide Section, Weights, Part, Weight, Coded;
    forall i | 0 <= i < |s| ensures Part(a, 0, s[i]) == Coded(0, Weight(a, 0, s[i])) {
      FirstPartIsCoded(a, s[i]);
    }
    SectionOfCoded(a, 0, s);
  }

  lemma FirstPartIsCoded(a: Alphabet, ch: nat)
    requires a.element(ch) < 0xFFFF_FFFF
    ensures Part(a, 0, ch) == Coded(0, Weight(a, 0, ch))
  {
    CodedShort(0, Weight(a, 0, ch));
    PrimaryBytes(a.element(ch));
  }

  lemma {:induction false} CodedInPairs(ws: seq<nat>, i: nat)
    ensures |Coded(0, ws)| == 2 * |ws|
    ensures i < |ws| ==> Coded(0, ws)[2 * i] == ws[i] / 0x100 && Coded(0, ws)[2 * i + 1] == ws[i] % 0x100
  {
    if ws != [] {
      CodedInPairs(ws[1..], if i > 0 then i - 1 else 0);
    }
  }

  // ---------------------------------------------------------------- which characters take part

  // All of them, up to the first NUL under NORM_STOP_ON_NULL, but for symbols under
  // NORM_IGNORESYMBOLS, and in lower case under NORM_IGNORECASE.
  lemma {:induction false} EffectiveOfParts(a: Alphabet, f: Flags, s: seq<nat>, t: seq<nat>)
    requires f.stopOnNull ==> 0 !in s
    ensures Effective(a, f, s + t) == Effective(a, f, s) + Effective(a, f, t)
  {
    if s == [] {
      assert s + t == t;
    } else {
      EffectiveOfParts(a, f, s[1..], t);
      assert (s + t)[1..] == s[1..] + t;
    }
  }

  lemma EffectiveOfOne(a: Alphabet, f: Flags, ch: nat, t: seq<nat>)
    ensures f.stopOnNull && ch == 0 ==> Effective(a, f, [ch] + t) == []
    ensures !(f.stopOnNull && ch == 0) ==>
              Effective(a, f, [ch]) == if f.ignoreSymbols && a.isSymbol(ch) then []
                                       else if f.ignoreCase then [a.lower(ch)] else [ch]
  {
    assert [ch][1..] == [];
  }
}
