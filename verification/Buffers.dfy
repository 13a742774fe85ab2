/**
 * The size-query convention the converters share: with dstlen == 0 a call only
 * counts, otherwise it fills dst and fails when dst is too short.
 */
module Buffers {
  // dst once 'done' was put into it: nothing is stored when only the size is asked for.
  ghost predicate Holds<T>(dst: seq<T>, was: seq<T>, dstlen: nat, done: seq<T>) {
    && |dst| == |was| && dstlen <= |was|
    && (dstlen == 0 ==> dst == was)
    && (dstlen > 0 ==> |done| <= dstlen && dst == done + was[|done|..])
  }

  // What a call gives for the full output: its size, or -1 with nothing beyond dstlen touched.
  ghost predicate Delivered<T>(n: int, dst: seq<T>, was: seq<T>, dstlen: nat, out: seq<T>) {
    && dstlen <= |dst| == |was|
    && (n == -1 <==> 0 < dstlen < |out|)
    && (n != -1 ==> n == |out| && Holds(dst, was, dstlen, out))
    && (forall k :: dstlen <= k < |was| ==> dst[k] == was[k])
  }

  lemma Overflowed<T>(dst: seq<T>, was: seq<T>, dstlen: nat, done: seq<T>, more: seq<T>, out: seq<T>)
    requires Holds(dst, was, dstlen, done) && done + more == out && 0 < dstlen < |done| + |more|
    ensures Delivered(-1, dst, was, dstlen, out)
  {
  }

  lemma NothingYet<T>(dst: seq<T>, dstlen: nat)
    requires dstlen <= |dst|
    ensures Holds(dst, dst, dstlen, [])
  {
  }

  lemma AllWritten<T>(dst: seq<T>, was: seq<T>, dstlen: nat, out: seq<T>)
    requires Holds(dst, was, dstlen, out)
    ensures Delivered(|out|, dst, was, dstlen, out)
  {
  }

  // Storing f after what is there already.
  lemma Appended<T>(d: seq<T>, d': seq<T>, was: seq<T>, dstlen: nat, done: seq<T>, f: seq<T>)
    requires Holds(d, was, dstlen, done) && 0 < dstlen && |done| + |f| <= dstlen && |d'| == |d|
    requires forall k :: 0 <= k < |f| ==> d'[|done| + k] == f[k]
    requires forall k :: 0 <= k < |d| && !(|done| <= k < |done| + |f|) ==> d'[k] == d[k]
    ensures Holds(d', was, dstlen, done + f)
  {
  }

  lemma CountedOnly<T>(was: seq<T>, out: seq<T>)
    ensures Delivered(|out|, was, was, 0, out)
  {
  }
}
