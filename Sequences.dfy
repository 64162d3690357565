/** Sequence helpers shared by the alignment model: the in-place list reversal
    and the removal of gap markers, stated as functions on sequences. */
module Sequences {

  /** The reversal performed by Python's `list.reverse()`; defined by peeling
      off the last element so that appending and reversing commute directly. */
  function Reverse<T>(s: seq<T>): (r: seq<T>)
    ensures |r| == |s|
    ensures forall k :: 0 <= k < |s| ==> r[k] == s[|s| - 1 - k]
  {
    if s == [] then [] else [s[|s| - 1]] + Reverse(s[..|s| - 1])
  }

  lemma ReverseSnoc<T>(s: seq<T>, x: T)
    ensures Reverse(s + [x]) == [x] + Reverse(s)
  {
    assert (s + [x])[..|s|] == s;
  }

  /** Every element of `s` except those equal to `gap`, in order. */
  function Strip<T(==)>(s: seq<T>, gap: T): (r: seq<T>)
    ensures |r| <= |s|
    ensures gap !in r
  {
    if s == [] then []
    else if s[|s| - 1] == gap then Strip(s[..|s| - 1], gap)
    else Strip(s[..|s| - 1], gap) + [s[|s| - 1]]
  }

  lemma StripSnocGap<T>(s: seq<T>, gap: T)
    ensures Strip(s + [gap], gap) == Strip(s, gap)
  {
    assert (s + [gap])[..|s|] == s;
  }

  lemma StripSnocKeep<T>(s: seq<T>, x: T, gap: T)
    requires x != gap
    ensures Strip(s + [x], gap) == Strip(s, gap) + [x]
  {
    assert (s + [x])[..|s|] == s;
  }

  /** One more column on one side of an alignment: either the next element
      of `src` or a gap, so the stripped side grows by that element or not at all. */
  lemma StripStep<T>(d: seq<T>, x: T, gap: T, src: seq<T>, lo: nat, hi': nat, hi: nat)
    requires lo <= hi' <= hi <= |src| && gap !in src
    requires Strip(d, gap) == src[lo..hi']
    requires (hi == hi' + 1 && x == src[hi - 1]) || (hi == hi' && x == gap)
    ensures Strip(d + [x], gap) == src[lo..hi]
  {
    if hi == hi' + 1 {
      assert x != gap by { assert src[hi - 1] in src; }
      assert src[lo..hi] == src[lo..hi'] + [x] by { SliceSnoc(src, lo, hi'); }
      StripSnocKeep(d, x, gap);
    } else {
      StripSnocGap(d, gap);
    }
  }

  lemma SliceSnoc<T>(s: seq<T>, lo: nat, hi: nat)
    requires lo <= hi < |s|
    ensures s[lo..hi + 1] == s[lo..hi] + [s[hi]]
  {
  }
}
