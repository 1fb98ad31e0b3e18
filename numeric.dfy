/** Python's numeric conversions on reals, and sums and products over tables. */
module Numeric {

  /** Python's `int(x)` on a float: truncation toward zero. */
  function Trunc(x: real): (r: int)
    ensures x >= 0.0 ==> 0 <= r && r as real <= x < r as real + 1.0
    ensures x < 0.0 ==> r <= 0 && r as real - 1.0 < x <= r as real
  {
    if x >= 0.0 then x.Floor else -((-x).Floor)
  }

  /** Python's `a // b` on floats with a positive divisor: floor of the quotient. */
  function FloorDiv(a: real, b: real): (q: int)
    requires b > 0.0
    ensures q as real * b <= a < q as real * b + b
  {
    var q := (a / b).Floor;
    FloorDivBounds(a, b, q);
    q
  }

  /** Python's `a % b` on floats with a positive divisor: the sign follows the divisor. */
  function Mod(a: real, b: real): (m: real)
    requires b > 0.0
    ensures 0.0 <= m < b
    ensures a == FloorDiv(a, b) as real * b + m
  {
    a - FloorDiv(a, b) as real * b
  }

  lemma FloorDivBounds(a: real, b: real, q: int)
    requires b > 0.0 && q as real <= a / b < q as real + 1.0
    ensures q as real * b <= a < q as real * b + b
  {
    var x, qr := a / b, q as real;
    assert x * b == a;
    MulMonotone(qr, x, b);
    MulStrict(x, qr + 1.0, b);
    assert (qr + 1.0) * b == qr * b + b;
    assert a < qr * b + b;
  }

  lemma MulMonotone(x: real, y: real, b: real)
    requires x <= y && b > 0.0
    ensures x * b <= y * b
  {}

  lemma MulStrict(x: real, y: real, b: real)
    requires x < y && b > 0.0
    ensures x * b < y * b
  {}

  lemma DivAdd(a: real, b: real, n: real)
    requires n != 0.0
    ensures a / n + b / n == (a + b) / n
  {
  }

  lemma DivSelf(n: real)
    requires n != 0.0
    ensures n / n == 1.0
  {
  }

  lemma DivNonnegative(a: real, n: real)
    requires a >= 0.0 && n > 0.0
    ensures a / n >= 0.0
  {
  }

  lemma DivCancel(a: real, n: real)
    requires n != 0.0
    ensures (a / n) * n == a && n * (a / n) == a
  {
  }

  /** Rounding to the nearest integer, halves upward. */
  function Round(x: real): (r: int)
    ensures r as real - 0.5 <= x < r as real + 0.5
  {
    (x + 0.5).Floor
  }

  /** Sum of a sequence of reals, folded from the left as NumPy's `sum` does. */
  function Sum(s: seq<real>): real
  {
    if |s| == 0 then 0.0 else Sum(s[..|s| - 1]) + s[|s| - 1]
  }

  /** Sum of `f` over the rows of a table, in row order. */
  function SumBy<T>(s: seq<T>, f: T -> real): real
  {
    if |s| == 0 then 0.0 else SumBy(s[..|s| - 1], f) + f(s[|s| - 1])
  }

  /** Product of `f` over the rows of a table. */
  function ProdBy<T>(s: seq<T>, f: T -> real): real
  {
    if |s| == 0 then 1.0 else f(s[0]) * ProdBy(s[1..], f)
  }

  lemma {:induction false} SumByAppend<T>(s: seq<T>, t: seq<T>, f: T -> real)
    ensures SumBy(s + t, f) == SumBy(s, f) + SumBy(t, f)
    decreases |t|
  {
    if |t| == 0 {
      assert s + t == s;
    } else {
      assert (s + t)[..|s + t| - 1] == s + t[..|t| - 1];
      SumByAppend(s, t[..|t| - 1], f);
    }
  }

  lemma {:induction false} ProdByAppend<T>(s: seq<T>, t: seq<T>, f: T -> real)
    ensures ProdBy(s + t, f) == ProdBy(s, f) * ProdBy(t, f)
    decreases |s|
  {
    if |s| == 0 {
      assert s + t == t;
    } else {
      var u := s + t;
      assert u[0] == s[0] && u[1..] == s[1..] + t;
      ProdByAppend(s[1..], t, f);
      MulAssociates(ProdBy(u, f), f(s[0]), ProdBy(s[1..] + t, f), ProdBy(s[1..], f), ProdBy(t, f), ProdBy(s, f));
    }
  }

  /** p = a * (b * c) regrouped as (a * b) * c = q * c. */
  lemma MulAssociates(p: real, a: real, rest: real, b: real, c: real, q: real)
    requires p == a * rest && rest == b * c && q == a * b
    ensures p == q * c
  {
  }

  /** Extending a table by one row multiplies its product by that row's factor. */
  lemma {:induction false} ProdBySnoc<T>(s: seq<T>, x: T, f: T -> real)
    ensures ProdBy(s + [x], f) == ProdBy(s, f) * f(x)
  {
    ProdByAppend(s, [x], f);
    assert [x][1..] == [];
  }

  /** Removing one row from a table takes its term out of the sum. */
  lemma {:induction false} SumByRemove<T>(s: seq<T>, k: nat, f: T -> real)
    requires k < |s|
    ensures SumBy(s, f) == f(s[k]) + SumBy(s[..k] + s[k + 1..], f)
  {
    var left, mid, right := s[..k], [s[k]], s[k + 1..];
    assert s == left + (mid + right);
    SumByAppend(left, mid + right, f);
    SumByAppend(mid, right, f);
    SumByAppend(left, right, f);
    assert mid[..0] == [];
    assert SumBy(mid, f) == f(s[k]);
  }

  lemma {:induction false} ProdByRemove<T>(s: seq<T>, k: nat, f: T -> real)
    requires k < |s|
    ensures ProdBy(s, f) == f(s[k]) * ProdBy(s[..k] + s[k + 1..], f)
    decreases k
  {
    if k == 0 {
      assert s[..0] + s[1..] == s[1..];
    } else {
      var tail := s[1..];
      ProdByRemove(tail, k - 1, f);
      assert s[..k] + s[k + 1..] == [s[0]] + (tail[..k - 1] + tail[k..]);
      var a, b, c := f(s[0]), f(s[k]), ProdBy(tail[..k - 1] + tail[k..], f);
      assert ProdBy(s, f) == a * (b * c);
      assert ProdBy(s[..k] + s[k + 1..], f) == a * c;
      Swap(a, b, c);
    }
  }

  lemma Swap(a: real, b: real, c: real)
    ensures a * (b * c) == b * (a * c)
  {
  }

  /** Taking row `k` out of a table takes one copy of it out of the table's multiset. */
  lemma {:induction false} MultisetRemove<T>(t: seq<T>, k: nat)
    requires k < |t|
    ensures multiset(t) == multiset(t[..k] + t[k + 1..]) + multiset{t[k]}
  {
    assert t == t[..k] + [t[k]] + t[k + 1..];
  }

  /** A sum over a table does not depend on the order of its rows. */
  lemma {:induction false} SumByPermutation<T>(s: seq<T>, t: seq<T>, f: T -> real)
    requires multiset(s) == multiset(t)
    ensures SumBy(s, f) == SumBy(t, f)
    decreases |s|
  {
    if |s| > 0 {
      var x := s[|s| - 1];
      assert s == s[..|s| - 1] + [x];
      assert x in multiset(t);
      var k :| 0 <= k < |t| && t[k] == x;
      var rest := t[..k] + t[k + 1..];
      MultisetRemove(t, k);
      assert multiset(s) == multiset(s[..|s| - 1]) + multiset{x};
      assert multiset(s[..|s| - 1]) == multiset(s) - multiset{x};
      assert multiset(rest) == multiset(t) - multiset{x};
      SumByPermutation(s[..|s| - 1], rest, f);
      SumByRemove(t, k, f);
    } else {
      assert |t| == |multiset(t)| == 0;
    }
  }

  /** A product over a table does not depend on the order of its rows. */
  lemma {:induction false} ProdByPermutation<T>(s: seq<T>, t: seq<T>, f: T -> real)
    requires multiset(s) == multiset(t)
    ensures ProdBy(s, f) == ProdBy(t, f)
    decreases |s|
  {
    if |s| > 0 {
      var k := FindFirst(s, t);
      var rest := t[..k] + t[k + 1..];
      ProdByPermutation(s[1..], rest, f);
      ProdByRemove(t, k, f);
    } else {
      assert |t| == |multiset(t)| == 0;
    }
  }

  /** Where the first row of `s` sits in a reordering `t` of it, and what is left of both. */
  lemma FindFirst<T>(s: seq<T>, t: seq<T>) returns (k: nat)
    requires multiset(s) == multiset(t) && |s| > 0
    ensures k < |t| && t[k] == s[0]
    ensures multiset(s[1..]) == multiset(t[..k] + t[k + 1..])
  {
    var x := s[0];
    assert s == [x] + s[1..];
    assert x in multiset(t);
    k :| 0 <= k < |t| && t[k] == x;
    MultisetRemove(t, k);
    assert multiset(s) == multiset(s[1..]) + multiset{x};
    assert multiset(s[1..]) == multiset(s) - multiset{x};
    assert multiset(t[..k] + t[k + 1..]) == multiset(t) - multiset{x};
  }

  /** Sums of two functions that agree on every row of the table are equal. */
  lemma {:induction false} SumByCongruent<T>(s: seq<T>, f: T -> real, g: T -> real)
    requires forall i :: 0 <= i < |s| ==> f(s[i]) == g(s[i])
    ensures SumBy(s, f) == SumBy(s, g)
  {
    if |s| > 0 {
      SumByCongruent(s[..|s| - 1], f, g);
    }
  }

  /** A sum of non-negative terms is non-negative. */
  lemma {:induction false} SumByNonnegative<T>(s: seq<T>, f: T -> real)
    requires forall i :: 0 <= i < |s| ==> f(s[i]) >= 0.0
    ensures SumBy(s, f) >= 0.0
  {
    if |s| > 0 {
      SumByNonnegative(s[..|s| - 1], f);
    }
  }
}
