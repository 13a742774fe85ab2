/**
 * The elementwise conversion both single-byte directions share: a loop of
 * sixteen at a time, then a switch that falls through (wctomb.c, mbtowc.c).
 */
module Unrolled {
  import opened Buffers

  function Map<S, D>(f: S -> D, s: seq<S>): (d: seq<D>)
    ensures |d| == |s|
  {
    seq(|s|, i requires 0 <= i < |s| => f(s[i]))
  }

  lemma MapLength<S, D>(f: S -> D, s: seq<S>)
    ensures |Map(f, s)| == |s|
  {
  }

  // dst[p..] gets the images of src[p..p + n].
  ghost predicate Mapped<S, D>(f: S -> D, src: seq<S>, d: seq<D>, d': seq<D>, p: nat, n: nat) {
    && |d'| == |d| && p + n <= |src| && p + n <= |d|
    && (forall k :: p <= k < p + n ==> d'[k] == f(src[k]))
    && (forall k :: 0 <= k < |d| && !(p <= k < p + n) ==> d'[k] == d[k])
  }

  // Half of the loop body.
  method Eight<S, D>(f: S -> D, src: seq<S>, dst: array<D>, p: nat)
    requires p + 8 <= |src| && p + 8 <= dst.Length
    modifies dst
    ensures Mapped(f, src, old(dst[..]), dst[..], p, 8)
  {
    dst[p] := f(src[p]);
    dst[p + 1] := f(src[p + 1]);
    dst[p + 2] := f(src[p + 2]);
    dst[p + 3] := f(src[p + 3]);
    dst[p + 4] := f(src[p + 4]);
    dst[p + 5] := f(src[p + 5]);
    dst[p + 6] := f(src[p + 6]);
    dst[p + 7] := f(src[p + 7]);
  }

  // The loop body.
  method Sixteen<S, D>(f: S -> D, src: seq<S>, dst: array<D>, p: nat)
    requires p + 16 <= |src| && p + 16 <= dst.Length
    modifies dst
    ensures Mapped(f, src, old(dst[..]), dst[..], p, 16)
  {
    Eight(f, src, dst, p);
    Eight(f, src, dst, p + 8);
  }

  // One label of the switch, entered from above or jumped to.
  method Case<S, D>(f: S -> D, src: seq<S>, dst: array<D>, end: nat, n: nat, k: nat, ghost was: seq<D>)
    requires 1 <= k <= 15 && n < 16 && n <= end <= |src| && end <= dst.Length
    requires Mapped(f, src, was, dst[..], end - n, if n > k then n - k else 0)
    modifies dst
    ensures Mapped(f, src, was, dst[..], end - n, if n >= k then n - k + 1 else 0)
  {
    if n >= k { dst[end - k] := f(src[end - k]); }
  }

  // The switch: 'end' is where src and dst stand after skipping the n elements left.
  method Fallthrough<S, D>(f: S -> D, src: seq<S>, dst: array<D>, end: nat, n: nat)
    requires n < 16 && n <= end <= |src| && end <= dst.Length
    modifies dst
    ensures Mapped(f, src, old(dst[..]), dst[..], end - n, n)
  {
    ghost var was := dst[..];
    Case(f, src, dst, end, n, 15, was);
    Case(f, src, dst, end, n, 14, was);
    Case(f, src, dst, end, n, 13, was);
    Case(f, src, dst, end, n, 12, was);
    Case(f, src, dst, end, n, 11, was);
    Case(f, src, dst, end, n, 10, was);
    Case(f, src, dst, end, n, 9, was);
    Case(f, src, dst, end, n, 8, was);
    Case(f, src, dst, end, n, 7, was);
    Case(f, src, dst, end, n, 6, was);
    Case(f, src, dst, end, n, 5, was);
    Case(f, src, dst, end, n, 4, was);
    Case(f, src, dst, end, n, 3, was);
    Case(f, src, dst, end, n, 2, was);
    Case(f, src, dst, end, n, 1, was);
  }

  // wcstombs_sbcs and mbstowcs_sbcs: the elementwise map, or as much of it as fits and -1.
  method Convert<S, D>(f: S -> D, src: seq<S>, dst: array<D>, dstlen: nat) returns (ret: int)
    requires dstlen <= dst.Length
    modifies dst
    ensures ret == if dstlen < |src| then -1 else |src|
    ensures var n := if dstlen < |src| then dstlen else |src|;
            dst[..] == Map(f, src[..n]) + old(dst[n..])
  {
    ret := |src|;
    var srclen: nat := |src|;
    if dstlen < srclen {
      srclen := dstlen;
      ret := -1;
    }
    ghost var n, was := srclen, dst[..];
    hide Mapped;
    var p := 0;
    assert Mapped(f, src, was, dst[..], 0, 0) by { NoneMapped(f, src, was); }
    while srclen >= 16
      invariant p + srclen == n && Mapped(f, src, was, dst[..], 0, p)
    {
      ghost var before := dst[..];
      Sixteen(f, src, dst, p);
      MoreMapped(f, src, was, before, dst[..], p, 16);
      p := p + 16;
      srclen := srclen - 16;
    }
    ghost var before := dst[..];
    Fallthrough(f, src, dst, p + srclen, srclen);
    MoreMapped(f, src, was, before, dst[..], p, srclen);
    AllMapped(f, src, was, dst[..], n);
  }

  lemma NoneMapped<S, D>(f: S -> D, src: seq<S>, d: seq<D>)
    ensures Mapped(f, src, d, d, 0, 0)
  {
  }

  lemma MoreMapped<S, D>(f: S -> D, src: seq<S>, was: seq<D>, d: seq<D>, d': seq<D>, p: nat, n: nat)
    requires Mapped(f, src, was, d, 0, p) && Mapped(f, src, d, d', p, n)
    ensures Mapped(f, src, was, d', 0, p + n)
  {
  }

  lemma AllMapped<S, D>(f: S -> D, src: seq<S>, was: seq<D>, d: seq<D>, n: nat)
    requires Mapped(f, src, was, d, 0, n)
    ensures n <= |was| && d == Map(f, src[..n]) + was[n..]
  {
  }
}
