/**
 * Order-preserving filtering of a sequence, the shape of Python's
 * `[x for x in xs if p(x)]` and of a loop that appends the elements it keeps.
 */
module Sequences {

  /** The number of elements of `s` that satisfy `p`. */
  function Count<T>(s: seq<T>, p: T -> bool): (n: nat)
    ensures n <= |s|
  {
    if s == [] then 0 else Count(s[..|s| - 1], p) + (if p(s[|s| - 1]) then 1 else 0)
  }

  /** `r` is obtained from `s` by deleting elements, keeping the order of the others. */
  predicate IsSubsequence<T(==)>(r: seq<T>, s: seq<T>)
    decreases |s|
  {
    if r == [] then true
    else if s == [] then false
    else (r[|r| - 1] == s[|s| - 1] && IsSubsequence(r[..|r| - 1], s[..|s| - 1]))
         || IsSubsequence(r, s[..|s| - 1])
  }

  /** The elements of `s` that satisfy `p`, in their order in `s`. */
  function Filter<T(==)>(s: seq<T>, p: T -> bool): (r: seq<T>)
    ensures IsSubsequence(r, s)
    ensures forall i :: 0 <= i < |r| ==> r[i] in s && p(r[i])
    ensures forall i :: 0 <= i < |s| && p(s[i]) ==> s[i] in r
    ensures |r| == Count(s, p)
  {
    if s == [] then []
    else
      var init, last := s[..|s| - 1], s[|s| - 1];
      assert s == init + [last];
      var kept := Filter(init, p);
      if p(last) then
        assert (kept + [last])[..|kept|] == kept;
        kept + [last]
      else
        kept
  }

  /** Every element satisfies exactly one of `p` and `q`, so the two counts add up to the length. */
  lemma {:induction false} CountComplement<T>(s: seq<T>, p: T -> bool, q: T -> bool)
    requires forall x :: q(x) == !p(x)
    ensures Count(s, p) + Count(s, q) == |s|
  {
    if s != [] {
      CountComplement(s[..|s| - 1], p, q);
    }
  }

  /** A subsequence made only of elements satisfying `p` has at most `Count(s, p)` elements. */
  lemma {:induction false} SubsequenceBound<T>(t: seq<T>, s: seq<T>, p: T -> bool)
    requires IsSubsequence(t, s)
    requires forall i :: 0 <= i < |t| ==> p(t[i])
    ensures |t| <= Count(s, p)
    decreases |s|
  {
    if t != [] {
      var init := s[..|s| - 1];
      if t[|t| - 1] == s[|s| - 1] && IsSubsequence(t[..|t| - 1], init) {
        assert p(t[|t| - 1]);
        SubsequenceBound(t[..|t| - 1], init, p);
      } else {
        SubsequenceBound(t, init, p);
      }
    }
  }

  /**
   * `Filter` is the only answer: an order-preserving subsequence of `s` that
   * holds only elements satisfying `p`, and as many as there are in `s`, is
   * `Filter(s, p)`.
   */
  lemma {:induction false} FilterUnique<T>(t: seq<T>, s: seq<T>, p: T -> bool)
    requires IsSubsequence(t, s)
    requires forall i :: 0 <= i < |t| ==> p(t[i])
    requires |t| == Count(s, p)
    ensures t == Filter(s, p)
    decreases |s|
  {
    if s == [] {
    } else {
      var init, last := s[..|s| - 1], s[|s| - 1];
      if t == [] {
        assert |Filter(s, p)| == 0;
      } else if t[|t| - 1] == last && IsSubsequence(t[..|t| - 1], init) {
        var front := t[..|t| - 1];
        assert t == front + [last];
        assert p(last);
        FilterUnique(front, init, p);
      } else {
        assert IsSubsequence(t, init);
        SubsequenceBound(t, init, p);
        if p(last) {
          assert false;
        }
        FilterUnique(t, init, p);
      }
    }
  }
}
