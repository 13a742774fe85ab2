/**
 * The decomposition tables read the other way round: laid out from a mapping of
 * characters to one or two others, they give back that mapping (decompose.c).
 */
module DecomposeTable {
  import opened Decompose

  // 256 places of blocks, 4096 places of lines of sixteen characters, and two cells for
  // each character, zero where nothing stands.
  function TableOf(first: nat -> nat, second: nat -> nat): seq<nat> {
    seq(256 + 4096 + 131072,
        i requires 0 <= i < 256 + 4096 + 131072 =>
          if i < 256 then 256 + 16 * i
          else if i < 4352 then 4352 + 32 * (i - 256)
          else if i % 2 == 0 then first((i - 4352) / 2) else second((i - 4352) / 2))
  }

  lemma CellsOf(first: nat -> nat, second: nat -> nat, compat: seq<nat>, ch: nat)
    requires ch < 0x10000
    ensures var t := Tables(TableOf(first, second), compat);
            && 0x100 <= |t.canonical| && t.canonical[ch / 0x100] + 0x10 <= |t.canonical|
            && CanonicalOffset(t, ch) == 4352 + 2 * ch && 4352 + 2 * ch + 1 < |t.canonical|
            && t.canonical[4352 + 2 * ch] == first(ch) && t.canonical[4352 + 2 * ch + 1] == second(ch)
  {
    var t := TableOf(first, second);
    var block, line := ch / 0x100, ch / 0x10 % 0x10;
    assert t[block] == 256 + 16 * block;
    assert 256 <= 256 + 16 * block + line < 4352;
    assert t[256 + 16 * block + line] == 4352 + 32 * (16 * block + line);
    assert 16 * (16 * block + line) + ch % 0x10 == ch;
    assert (4352 + 2 * ch) % 2 == 0 && (4352 + 2 * ch - 4352) / 2 == ch;
    assert (4352 + 2 * ch + 1) % 2 == 1 && (4352 + 2 * ch + 1 - 4352) / 2 == ch;
  }

  // A character stands for the two it is mapped to, in that order, for one if the second
  // is zero, and for itself if the first is.
  lemma EntryOfMapping(first: nat -> nat, second: nat -> nat, compat: seq<nat>, ch: nat)
    requires LooksUp(Tables(TableOf(first, second), compat), ch)
    ensures Entry(Tables(TableOf(first, second), compat), false, ch)
            == if first(ch) == 0 then [] else if second(ch) == 0 then [first(ch)] else [first(ch), second(ch)]
  {
    CellsOf(first, second, compat, ch);
    hide TableOf, CanonicalOffset;
  }

  // And so its full expansion is those of the two, one after the other.
  lemma ExpansionOfMapping(first: nat -> nat, second: nat -> nat, compat: seq<nat>, ch: nat, rank: nat -> nat)
    requires Acyclic(Tables(TableOf(first, second), compat), false, rank) && ch < 0x10000
    ensures var t := Tables(TableOf(first, second), compat);
            Expand(t, false, ch, rank)
            == if first(ch) == 0 then [ch]
               else if second(ch) == 0 then Expand(t, false, first(ch), rank)
               else Expand(t, false, first(ch), rank) + Expand(t, false, second(ch), rank)
  {
    var t := Tables(TableOf(first, second), compat);
    EntryOfMapping(first, second, compat, ch) by { LooksUpAll(t, rank, ch); }
    hide Expand, Acyclic, Entry, TableOf;
    PartsInOrder(t, ch, rank);
  }

  lemma LooksUpAll(t: Tables, rank: nat -> nat, ch: nat)
    requires Acyclic(t, false, rank) && ch < 0x10000
    ensures LooksUp(t, ch)
  {
  }

  lemma PartsInOrder(t: Tables, ch: nat, rank: nat -> nat)
    requires Acyclic(t, false, rank) && ch < 0x10000
    ensures LooksUp(t, ch)
    ensures var e := Entry(t, false, ch);
            && (|e| == 0 ==> Expand(t, false, ch, rank) == [ch])
            && (|e| == 1 ==> Expand(t, false, ch, rank) == Expand(t, false, e[0], rank))
            && (|e| == 2 ==> Expand(t, false, ch, rank)
                             == Expand(t, false, e[0], rank) + Expand(t, false, e[1], rank))
  {
    hide Entry, LooksUp, Acyclic, Expand, ExpandAll;
    assert Low(ch) == ch;
    ExpandIs(t, false, ch, rank);
    var e := Entry(t, false, ch);
    if e != [] { FirstOfAll(t, e, rank, rank(ch)); }
    if |e| == 2 { FirstOfAll(t, e[1..], rank, rank(ch)); }
  }

  lemma FirstOfAll(t: Tables, s: seq<nat>, rank: nat -> nat, bound: nat)
    requires Acyclic(t, false, rank) && s != [] && forall i :: 0 <= i < |s| ==> rank(Low(s[i])) < bound
    ensures ExpandAll(t, false, s, rank, bound)
            == Expand(t, false, s[0], rank) + ExpandAll(t, false, s[1..], rank, bound)
    ensures |s| == 1 ==> ExpandAll(t, false, s, rank, bound) == Expand(t, false, s[0], rank)
  {
    hide Acyclic, Expand;
  }

  // With WINE_DECOMPOSE_COMPAT a character that has a range of cells stands for what is
  // in them, in order, unless the first is zero.
  lemma CompatCells(t: Tables, ch: nat)
    requires LooksUp(t, ch)
    ensures var p := t.compat[t.compat[ch / 256] + ch / 16 % 16] + ch % 16;
            var start, end := t.compat[p], t.compat[p + 1];
            start < end ==>
              var e := Entry(t, true, ch);
              && end <= |t.compat| && (t.compat[start] == 0 ==> e == [])
              && (t.compat[start] != 0 ==>
                    |e| == end - start && forall i :: 0 <= i < |e| ==> e[i] == t.compat[start + i])
  {
  }
}
