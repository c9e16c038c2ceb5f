/** Order-preserving selection from a sequence, the shape of a list comprehension with an `if`. */
module Seqs {

  /** `a` is obtained from `b` by deleting elements; what remains keeps its order. */
  ghost predicate IsSubsequence<T>(a: seq<T>, b: seq<T>)
    decreases |b|
  {
    if a == [] then true
    else if b == [] then false
    else (a[|a| - 1] == b[|b| - 1] && IsSubsequence(a[..|a| - 1], b[..|b| - 1]))
         || IsSubsequence(a, b[..|b| - 1])
  }

  /** `[x for x in xs if keep(x)]`: exactly the elements that satisfy `keep`, each as often as in `xs`, in order. */
  function Filter<T(!new)>(xs: seq<T>, keep: T -> bool): (r: seq<T>)
    ensures |r| <= |xs|
    ensures IsSubsequence(r, xs)
    ensures forall x :: x in r <==> x in xs && keep(x)
    ensures forall x :: multiset(r)[x] == if keep(x) then multiset(xs)[x] else 0
    decreases |xs|
  {
    if xs == [] then []
    else
      var init, last := xs[..|xs| - 1], xs[|xs| - 1];
      assert xs == init + [last];
      var kept := Filter(init, keep);
      if keep(last) then
        var r := kept + [last];
        assert r[..|r| - 1] == kept;
        r
      else
        assert kept != [] ==> IsSubsequence(kept, init);
        kept
  }

  /** A subsequence stays one when the longer sequence grows, and when both grow by the same element. */
  lemma SubsequenceExtend<T>(a: seq<T>, b: seq<T>, x: T)
    requires IsSubsequence(a, b)
    ensures IsSubsequence(a, b + [x])
    ensures IsSubsequence(a + [x], b + [x])
  {
    assert (b + [x])[..|b|] == b;
    assert (a + [x])[..|a|] == a;
  }
}
