/** Order-preserving selection from a sequence. */
module Sequences {

  /** `sub` is `s` with some elements deleted: the kept elements keep their relative order. */
  predicate IsSubsequence<T(==)>(sub: seq<T>, s: seq<T>)
    decreases |s|
  {
    if |sub| == 0 then true
    else if |s| == 0 then false
    else
      (sub[|sub| - 1] == s[|s| - 1] && IsSubsequence(sub[..|sub| - 1], s[..|s| - 1]))
      || IsSubsequence(sub, s[..|s| - 1])
  }

  /** A subsequence of `s` extended by an element appended to `s` is a subsequence of the
      extended `s`; without that element it stays one. */
  lemma {:induction false} SubsequenceSnoc<T>(sub: seq<T>, s: seq<T>, x: T, keep: bool)
    requires IsSubsequence(sub, s)
    ensures IsSubsequence(if keep then sub + [x] else sub, s + [x])
  {
    var t := s + [x];
    assert t[..|t| - 1] == s;
    if keep {
      var u := sub + [x];
      assert u[..|u| - 1] == sub;
    } else if |sub| > 0 {
      assert IsSubsequence(sub, t[..|t| - 1]);
    }
  }
}
