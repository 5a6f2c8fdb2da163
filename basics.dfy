/** Small value types shared by the whole model. */
module Basics {

  /** A value that may be absent: a missing dictionary key, or Python's `None`. */
  datatype Option<T> = None | Some(value: T)

  /**
   * The result of evaluating a piece of the source inside its `try` block:
   * either it raised (any exception: the model keeps only the fact that one
   * was raised) or it finished with a value.
   */
  datatype Eval<T> = Raised | Done(value: T)

  function Min(a: int, b: int): int
  {
    if a <= b then a else b
  }

  /** A prefix one element longer is the shorter prefix and that element. */
  lemma TakeSnoc<T>(s: seq<T>, k: nat)
    requires 0 < k <= |s|
    ensures s[..k] == s[..k - 1] + [s[k - 1]]
  {
  }

  /**
   * `sub` is obtained from `s` by mapping every element through `f` and
   * keeping some of the `Some` results, in their original order.
   * Defined from the back, as the loops of the source build their lists by
   * appending.
   */
  ghost predicate IsSubseqVia<A, B>(sub: seq<B>, s: seq<A>, f: A -> Option<B>)
    decreases |s|
  {
    if sub == [] then true
    else if s == [] then false
    else (f(s[|s| - 1]) == Some(sub[|sub| - 1]) && IsSubseqVia(sub[..|sub| - 1], s[..|s| - 1], f))
         || IsSubseqVia(sub, s[..|s| - 1], f)
  }

  /** Appending an element to `s` keeps `sub` a subsequence, and may append that element's image to it. */
  lemma SubseqSnoc<A, B>(sub: seq<B>, s: seq<A>, f: A -> Option<B>, x: A, keep: bool)
    requires IsSubseqVia(sub, s, f) && (keep ==> f(x).Some?)
    ensures IsSubseqVia(if keep then sub + [f(x).value] else sub, s + [x], f)
  {
    var s' := s + [x];
    assert s'[..|s'| - 1] == s;
    if keep {
      var sub' := sub + [f(x).value];
      assert sub'[..|sub'| - 1] == sub;
    }
  }
}
