/**
 * What WC_NO_BEST_FIT_CHARS is for: text encoded without resort to the default
 * character decodes to itself (wctomb.c, mbtowc.c).
 */
module CodepageRoundTrip {
  import opened Basics
  import W = WideToBytes
  import B = BytesToWide

  // The decoding tables that belong to the encoding tables.
  function PageOf(t: W.Table): B.Codepage {
    if t.Sbcs? then B.Single(t.cp2uni) else B.Double(t.cp2uni, t.leadBytes)
  }

  // A two-byte code starts with a lead byte and does not end in NUL; a
  // one-byte code is no lead byte.
  ghost predicate Delimited(t: W.Table) {
    t.Dbcs? ==> forall u: Unit :: CodeDelimited(t, W.Lookup(t, u))
  }

  predicate CodeDelimited(t: W.Table, res: Unit)
    requires t.Dbcs?
  {
    if res / 0x100 != 0 then t.leadBytes[res / 0x100] != 0 && res % 0x100 != 0 else t.leadBytes[res] == 0
  }

  lemma OneCharRoundTrip(t: W.Table, fl: W.Flags, u: Unit, rest: seq<Byte>)
    requires Delimited(t) && fl.noBestFit && W.IsValid(t, fl, u, W.Lookup(t, u))
    ensures var bytes := W.Spell(t, W.Lookup(t, u)) + rest;
            B.Chars(PageOf(t), bytes) == [u] + B.Chars(PageOf(t), rest)
  {
    var res := W.Lookup(t, u);
    var spelled := W.Spell(t, res);
    var bytes := spelled + rest;
    if t.Dbcs? { assert CodeDelimited(t, res); }
    hide W.Lookup;
    assert bytes[|spelled|..] == rest;
    assert B.IsPair(PageOf(t), bytes) <==> |spelled| == 2;
    assert B.First(PageOf(t), bytes) == u;
  }

  lemma {:induction false} NoBestFitRoundTrip(t: W.Table, fl: W.Flags, compose: (Unit, Unit) -> Unit,
                                              d: W.DefChar, s: seq<Unit>)
    requires Delimited(t) && fl.noBestFit && !fl.compositeCheck
    requires !W.Encoded(t, fl, compose, d, s).used
    ensures B.Chars(PageOf(t), W.Encoded(t, fl, compose, d, s).bytes) == s
  {
    hide B.Chars, W.Lookup, W.Spell, W.IsValid, Delimited;
    if s == [] {
      B.NoChars(PageOf(t), []);
    } else {
      NoBestFitRoundTrip(t, fl, compose, d, s[1..]);
      OneCharRoundTrip(t, fl, s[0], W.Encoded(t, fl, compose, d, s[1..]).bytes);
      assert [s[0]] + s[1..] == s;
    }
  }

  // What is encoded so is accepted under MB_ERR_INVALID_CHARS too, and is checked as
  // it is converted, unless a private character in it has a code of one byte.
  predicate IsOneBytePrivate(t: W.Table, u: Unit) { B.IsPrivateUse(u) && |W.Spell(t, W.Lookup(t, u))| == 1 }

  function DefaultOf(t: W.Table, defChar: Unit): B.Default { B.Default(defChar, W.Lookup(t, defChar)) }

  lemma {:induction false} StrictRoundTripIff(t: W.Table, fl: W.Flags, compose: (Unit, Unit) -> Unit,
                                              d: W.DefChar, defChar: Unit, s: seq<Unit>)
    requires Delimited(t) && fl.noBestFit && !fl.compositeCheck
    requires !W.Encoded(t, fl, compose, d, s).used
    ensures B.Accepted(PageOf(t), DefaultOf(t, defChar), W.Encoded(t, fl, compose, d, s).bytes)
            <==> forall i :: 0 <= i < |s| ==> !IsOneBytePrivate(t, s[i])
  {
    hide W.Lookup, W.Spell, W.IsValid, Delimited, IsOneBytePrivate, B.Accepted;
    if s == [] {
      B.NothingRefused(PageOf(t), DefaultOf(t, defChar), []);
    } else {
      StrictRoundTripIff(t, fl, compose, d, defChar, s[1..]);
      OneCharChecked(t, fl, defChar, s[0], W.Encoded(t, fl, compose, d, s[1..]).bytes);
      assert s == [s[0]] + s[1..];
    }
  }

  lemma OneCharChecked(t: W.Table, fl: W.Flags, defChar: Unit, u: Unit, rest: seq<Byte>)
    requires Delimited(t) && fl.noBestFit && W.IsValid(t, fl, u, W.Lookup(t, u))
    ensures B.Accepted(PageOf(t), DefaultOf(t, defChar), W.Spell(t, W.Lookup(t, u)) + rest)
            <==> !IsOneBytePrivate(t, u) && B.Accepted(PageOf(t), DefaultOf(t, defChar), rest)
  {
    var res := W.Lookup(t, u);
    var spelled := W.Spell(t, res);
    var bytes := spelled + rest;
    if t.Dbcs? { assert CodeDelimited(t, res); }
    hide W.Lookup, B.Accepted;
    assert bytes[0..] == bytes && bytes[|spelled|..] == rest;
    assert B.IsLead(PageOf(t), bytes[0]) <==> |spelled| == 2;
    B.AcceptedFrom(PageOf(t), DefaultOf(t, defChar), bytes, 0);
    assert B.CharOf(PageOf(t), if |spelled| == 2 then B.Two(bytes[0], bytes[1]) else B.One(bytes[0])) == u;
  }
}
