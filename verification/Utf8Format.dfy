/**
 * UTF-8 and UTF-16 in plain numbers (RFC 3629, section 3; RFC 2781, section 2.1): what
 * the forms of a code point look like, how its value is read off them, and how much of
 * a broken one is passed over.
 */
module Utf8Format {
  import opened Basics
  import opened Utf8

  // One to four bytes, by the size of the value.
  lemma FormSpells(v: Point)
    ensures var f: seq<int> := Form(v);
            && (v < 0x80 ==> |f| == 1 && f[0] == v)
            && (0x80 <= v < 0x800 ==>
                  && |f| == 2 && 0xC0 <= f[0] < 0xE0 && 0x80 <= f[1] < 0xC0
                  && v == (f[0] - 0xC0) * 64 + (f[1] - 0x80))
            && (0x800 <= v < 0x10000 ==>
                  && |f| == 3 && 0xE0 <= f[0] < 0xF0 && 0x80 <= f[1] < 0xC0 && 0x80 <= f[2] < 0xC0
                  && v == (f[0] - 0xE0) * 4096 + (f[1] - 0x80) * 64 + (f[2] - 0x80))
            && (0x10000 <= v ==>
                  && |f| == 4 && 0xF0 <= f[0] < 0xF8 && 0x80 <= f[1] < 0xC0 && 0x80 <= f[2] < 0xC0
                  && 0x80 <= f[3] < 0xC0
                  && v == (f[0] - 0xF0) * 262144 + (f[1] - 0x80) * 4096 + (f[2] - 0x80) * 64 + (f[3] - 0x80))
  {
    FormBySixBits(v);
    SixBits(v);
    SixBits(v / 0x40);
    SixBits(v / 0x40 / 0x40);
    hide Form;
  }

  lemma SixBits(v: nat)
    ensures v == v / 0x40 * 0x40 + v % 0x40 && 0 <= v % 0x40 < 0x40
  {
  }

  // One unit, or a high and a low surrogate with ten bits each.
  lemma UnitsSpell(v: Point)
    ensures var u: seq<int> := Units(v);
            && (v < 0x10000 ==> u == [v])
            && (0x10000 <= v ==>
                  && |u| == 2 && 0xD800 <= u[0] < 0xDC00 && 0xDC00 <= u[1] < 0xE000
                  && v == 0x10000 + (u[0] - 0xD800) * 1024 + (u[1] - 0xDC00))
  {
  }

  // The bytes that a lead byte asks for behind it.
  function Wanted(lead: Byte): nat {
    if 0xC2 <= lead < 0xE0 then 1 else if 0xE0 <= lead < 0xF0 then 2 else if 0xF0 <= lead < 0xF5 then 3 else 0
  }

  // Bytes that begin no character are passed over with the continuation bytes that are
  // there of those wanted; but with the first byte only if the text is too short.
  lemma PassedOver(b: seq<Byte>)
    requires b != [] && CharAt(b).Ignored?
    ensures var n, k := Wanted(b[0]), CharAt(b).bytes - 1;
            && 0 <= k <= n && k < |b| && (n >= |b| ==> k == 0)
            && (forall i :: 1 <= i <= k ==> 0x80 <= b[i] < 0xC0)
            && (0 < n < |b| && k < n ==> !(0x80 <= b[k + 1] < 0xC0))
  {
    hide Form;
  }

  // Two characters that compose are as good as their composition: the first is the one
  // that stands before, and the second one is above 0x7F.
  lemma PairComposes(u: Point, v: Point, cs: seq<Point>, compose: (Unit, Unit) -> Unit)
    requires 0 < u < 0x10000 && 0x80 <= v < 0x10000 && compose(u, v) != 0
    ensures Composing([u, v] + cs, [], 0, compose) == Composing([compose(u, v)] + cs, [], 0, compose)
  {
    var c: Point := compose(u, v);
    ComposingStep(u, [v] + cs, [], 0, compose);
    ComposingStep(v, cs, [u], u, compose);
    ComposingStep(c, cs, [], 0, compose);
    assert [u, v] + cs == [u] + ([v] + cs) && [] + [u] == [u] && [u][..0] + [c] == [] + [c];
    hide Composing;
  }

  // ASCII and surrogate pairs join nothing.
  lemma NothingComposes(u: Point, v: Point, compose: (Unit, Unit) -> Unit)
    requires u < 0x10000 && (v < 0x80 || v >= 0x10000 || u == 0 || compose(u, v) == 0)
    ensures Composing([u, v], [], 0, compose) == [u] + Units(v)
  {
    ComposingStep(u, [v], [], 0, compose);
    ComposingStep(v, [], [u], u, compose);
    assert [u, v] == [u] + [v] && [v] == [v] + [] && [] + [u] == [u];
  }
}
