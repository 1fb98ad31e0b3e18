/** Synthesis of a 101-bucket empirical distribution from expert (lower, expected, upper, weight)
    answers, and single picks from such a distribution. The beta generator of `pert_dist` and the
    weighted choice of `get_pick` are parameters: `draw(i, alpha, beta, j)` is the j-th sample of
    Beta(alpha, beta) drawn for expert i, and `k` is the index the weighted choice returned. */
module Distributions {
  import opened Wrappers
  import opened Numeric

  /** PERT shape constant: the weight of the most likely value. */
  const Gamma: real := 4.0
  /** Samples drawn per unit of expert weight. */
  const NumberOfPicks: real := 5000.0
  /** One bucket per whole percentage, 0 % to 100 %. */
  const Buckets: nat := 101

  /** The exceptions the distribution code raises. */
  datatype DistError =
    | SizeMismatch          // the assertion that all four arrays have the same size
    | NegativeSampleCount   // NumPy refuses a negative array size
    | NoDistribution        // `get_pick` handed the float `nan` instead of an array
    | TooFewBuckets         // fewer than two buckets: no step between grid values
    | NotADistribution      // `np.random.choice` refuses a p with a negative entry or a sum other than 1

  // ---------------------------------------------------------------------------------------
  // pert_dist

  /** The beta parameters (alpha, beta) of a PERT distribution on [low, high] with mode `peak`. */
  function PertShape(peak: real, low: real, high: real): (ab: (real, real))
    requires low <= peak <= high && low < high
    ensures ab.0 >= 1.0 && ab.1 >= 1.0
    ensures ab.0 + ab.1 == 2.0 + Gamma
    ensures (ab.0 - 1.0) * (high - low) == Gamma * (peak - low)
    ensures (ab.1 - 1.0) * (high - low) == Gamma * (high - peak)
    ensures low + (high - low) * ab.0 / (ab.0 + ab.1) == (low + Gamma * peak + high) / (2.0 + Gamma)
  {
    var r := high - low;
    var a, b := (peak - low) / r, (high - peak) / r;
    DivAdd(peak - low, high - peak, r);
    DivCancel(peak - low, r);
    DivCancel(high - peak, r);
    assert (peak - low) + (high - peak) == r;
    DivCancel(1.0, r);
    assert a + b == 1.0;
    var alpha := 1.0 + Gamma * a;
    var beta := 1.0 + Gamma * b;
    assert r * alpha == r + Gamma * (peak - low);
    (alpha, beta)
  }

  /** `pert_dist`: int(size) samples from PERT(low, peak, high); `draw(alpha, beta, j)` is the
      j-th sample of Beta(alpha, beta).
      Callers always pass a sorted triple, so low == high only when all three are equal. */
  function PertDist(peak: real, low: real, high: real, size: real, draw: (real, real, nat) -> real): (r: Result<seq<real>, DistError>)
    requires low <= peak <= high
    requires forall a, b, j :: 0.0 <= draw(a, b, j) <= 1.0
    ensures r.Success? <==> Trunc(size) >= 0
    ensures r.Success? ==> |r.value| == Trunc(size)
    ensures r.Success? ==> forall j :: 0 <= j < |r.value| ==> low <= r.value[j] <= high
    ensures r.Success? && low == high ==> forall j :: 0 <= j < |r.value| ==> r.value[j] == peak
    ensures r.Success? && low < high ==> forall j :: 0 <= j < |r.value| ==>
      r.value[j] == Stretch(draw(PertShape(peak, low, high).0, PertShape(peak, low, high).1, j), low, high)
  {
    var n := Trunc(size);
    if n < 0 then Failure(NegativeSampleCount)
    else if low == high && low == peak then Success(seq(n, _ => peak))
    else
      assert low < high;
      var ab := PertShape(peak, low, high);
      Success(Stretched(n, ab.0, ab.1, low, high, draw))
  }

  /** `n` samples of Beta(alpha, beta), each stretched onto [low, high]. */
  function Stretched(n: nat, alpha: real, beta: real, low: real, high: real, draw: (real, real, nat) -> real): (s: seq<real>)
    requires low < high
    requires forall a, b, j :: 0.0 <= draw(a, b, j) <= 1.0
    ensures |s| == n
    ensures forall j :: 0 <= j < n ==> low <= s[j] <= high
    ensures forall j :: 0 <= j < n ==> s[j] == Stretch(draw(alpha, beta, j), low, high)
  {
    var s := seq(n, j requires 0 <= j => Stretch(draw(alpha, beta, j), low, high));
    assert forall j :: 0 <= j < n ==> low <= s[j] <= high by {
      forall j | 0 <= j < n ensures low <= s[j] <= high {
        assert s[j] == Stretch(draw(alpha, beta, j), low, high);
      }
    }
    s
  }

  /** A beta sample in [0, 1] stretched onto [low, high] (`low + b * r`). */
  function Stretch(b: real, low: real, high: real): (x: real)
    requires 0.0 <= b <= 1.0 && low < high
    ensures low <= x <= high
    ensures b == 0.0 ==> x == low
    ensures b == 1.0 ==> x == high
  {
    var r := high - low;
    MulMonotone(b, 1.0, r);
    MulMonotone(0.0, b, r);
    assert 1.0 * r == r && 0.0 * r == 0.0;
    low + b * r
  }

  // ---------------------------------------------------------------------------------------
  // get_prob_dist

  /** The ascending sort of one expert's (lower, expected, upper) row. */
  function Sort3(a: real, b: real, c: real): (t: (real, real, real))
    ensures t.0 <= t.1 <= t.2
    ensures multiset{t.0, t.1, t.2} == multiset{a, b, c}
  {
    if a <= b then
      if b <= c then (a, b, c) else if a <= c then (a, c, b) else (c, a, b)
    else
      if a <= c then (b, a, c) else if b <= c then (b, c, a) else (c, b, a)
  }

  /** One expert's row: expected value, lower and upper bound (`nan` as None) and weight. */
  datatype Answer = Answer(expected: Option<real>, lower: Option<real>, upper: Option<real>, weight: real)

  /** An expert is used only when none of the three values is `nan`. */
  predicate Answered(x: Answer)
  {
    x.expected.Some? && x.lower.Some? && x.upper.Some?
  }

  /** The samples expert i adds to the pool: none when unanswered, otherwise int(w * 5000)
      PERT samples of the sorted row, taken from the generator's i-th call. */
  function ExpertSamples(x: Answer, i: nat, draw: (nat, real, real, nat) -> real): (r: Result<seq<real>, DistError>)
    requires forall i, a, b, j :: 0.0 <= draw(i, a, b, j) <= 1.0
    ensures !Answered(x) ==> r == Success([])
    ensures Answered(x) ==> (r.Success? <==> Trunc(x.weight * NumberOfPicks) >= 0)
    ensures Answered(x) && r.Success? ==> |r.value| == Trunc(x.weight * NumberOfPicks)
    ensures Answered(x) && r.Success? ==> forall j :: 0 <= j < |r.value| ==>
      Min3(x.lower.value, x.expected.value, x.upper.value) <= r.value[j] <= Max3(x.lower.value, x.expected.value, x.upper.value)
  {
    if !Answered(x) then Success([])
    else
      var t := Sort3(x.lower.value, x.expected.value, x.upper.value);
      PertDist(t.1, t.0, t.2, x.weight * NumberOfPicks, (a: real, b: real, j: nat) => draw(i, a, b, j))
  }

  function Min3(a: real, b: real, c: real): real
  {
    if a <= b && a <= c then a else if b <= c then b else c
  }

  function Max3(a: real, b: real, c: real): real
  {
    if a >= b && a >= c then a else if b >= c then b else c
  }

  predicate SameSizes(es: seq<Option<real>>, ls: seq<Option<real>>, us: seq<Option<real>>, ws: seq<real>)
  {
    |es| == |ls| == |us| == |ws|
  }

  /** The four parallel arrays, row by row. */
  function Rows(es: seq<Option<real>>, ls: seq<Option<real>>, us: seq<Option<real>>, ws: seq<real>): (rows: seq<Answer>)
    requires SameSizes(es, ls, us, ws)
    ensures |rows| == |es|
    ensures forall i :: 0 <= i < |rows| ==> rows[i] == Answer(es[i], ls[i], us[i], ws[i])
  {
    seq(|es|, i requires 0 <= i < |es| => Answer(es[i], ls[i], us[i], ws[i]))
  }

  /** The samples of a sequence of experts pooled in expert order; expert i draws from the
      generator's i-th call, and the first failing expert raises. */
  function Pooled(rows: seq<Answer>, draw: (nat, real, real, nat) -> real): Result<seq<real>, DistError>
    requires forall i, a, b, j :: 0.0 <= draw(i, a, b, j) <= 1.0
  {
    if |rows| == 0 then Success([])
    else
      var i: nat := |rows| - 1;
      var before :- Pooled(rows[..i], draw);
      var mine :- ExpertSamples(rows[i], i, draw);
      Success(before + mine)
  }

  /** Pooling one more expert appends their samples, or raises their error. */
  lemma PooledStep(rows: seq<Answer>, i: nat, picks: seq<real>, draw: (nat, real, real, nat) -> real)
    requires i < |rows|
    requires forall i, a, b, j :: 0.0 <= draw(i, a, b, j) <= 1.0
    requires Pooled(rows[..i], draw) == Success(picks)
    ensures var mine := ExpertSamples(rows[i], i, draw);
      Pooled(rows[..i + 1], draw) == if mine.Success? then Success(picks + mine.value) else Failure(mine.error)
  {
    assert rows[..i + 1][..i] == rows[..i];
  }

  /** Once an expert raises, the whole pooling raises the same error. */
  lemma {:induction false} PooledFailureSticks(rows: seq<Answer>, n: nat, draw: (nat, real, real, nat) -> real)
    requires n <= |rows|
    requires forall i, a, b, j :: 0.0 <= draw(i, a, b, j) <= 1.0
    ensures Pooled(rows[..n], draw).Failure? ==> Pooled(rows, draw) == Pooled(rows[..n], draw)
    decreases |rows|
  {
    if n < |rows| {
      var init := rows[..|rows| - 1];
      assert init[..n] == rows[..n];
      PooledFailureSticks(init, n, draw);
    } else {
      assert rows[..n] == rows;
    }
  }

  /** A pooled sample in percent, rounded to a whole percentage (`np.round(picks / 100, 2)`). */
  function Percents(samples: seq<real>): (p: seq<int>)
    ensures |p| == |samples|
    ensures forall i :: 0 <= i < |p| ==> p[i] == Round(samples[i])
  {
    seq(|samples|, i requires 0 <= i < |samples| => Round(samples[i]))
  }

  /** What `get_prob_dist` returns: an error, `nan` (None) when no sample was drawn, or the
      histogram of the rounded samples (None again when no sample falls in [0, 100]). */
  function ProbDistOf(es: seq<Option<real>>, ls: seq<Option<real>>, us: seq<Option<real>>, ws: seq<real>,
                      draw: (nat, real, real, nat) -> real): Result<Option<seq<real>>, DistError>
    requires forall i, a, b, j :: 0.0 <= draw(i, a, b, j) <= 1.0
  {
    if !SameSizes(es, ls, us, ws) then Failure(SizeMismatch)
    else
      var picks :- Pooled(Rows(es, ls, us, ws), draw);
      if |picks| == 0 then Success(None) else Success(HistogramOf(Percents(picks)))
  }

  /** `get_prob_dist`: pools every answered expert's PERT samples and returns their histogram. */
  method ProbDist(es: seq<Option<real>>, ls: seq<Option<real>>, us: seq<Option<real>>, ws: seq<real>,
                  draw: (nat, real, real, nat) -> real) returns (r: Result<Option<seq<real>>, DistError>)
    requires forall i, a, b, j :: 0.0 <= draw(i, a, b, j) <= 1.0
    ensures r == ProbDistOf(es, ls, us, ws, draw)
  {
    if !SameSizes(es, ls, us, ws) {
      return Failure(SizeMismatch);
    }
    ghost var rows := Rows(es, ls, us, ws);
    var picks: seq<real> := [];
    var i: nat := 0;
    while i < |es|
      invariant 0 <= i <= |es|
      invariant Pooled(rows[..i], draw) == Success(picks)
    {
      assert rows[i] == Answer(es[i], ls[i], us[i], ws[i]);
      var samples := ExpertSamples(Answer(es[i], ls[i], us[i], ws[i]), i, draw);
      PooledStep(rows, i, picks, draw);
      if samples.Failure? {
        PooledFailureSticks(rows, i + 1, draw);
        assert rows[..|es|] == rows;
        return Failure(samples.error);
      }
      picks := picks + samples.value;
      i := i + 1;
    }
    assert rows[..|es|] == rows;
    if |picks| == 0 {
      return Success(None);
    }
    var dist := DistFromPicks(Percents(picks));
    return Success(dist);
  }

  // ---------------------------------------------------------------------------------------
  // get_dist_from_picks

  /** How many picks equal `v`. */
  function Count(s: seq<int>, v: int): nat
  {
    if |s| == 0 then 0 else Count(s[..|s| - 1], v) + (if s[|s| - 1] == v then 1 else 0)
  }

  predicate InBuckets(x: int) { 0 <= x < Buckets }

  /** How many picks land in some bucket. */
  function InRange(s: seq<int>): nat
  {
    if |s| == 0 then 0 else InRange(s[..|s| - 1]) + (if InBuckets(s[|s| - 1]) then 1 else 0)
  }

  /** Bucket i holds the fraction of the in-range picks that equal i. */
  function Histogram(s: seq<int>): seq<real>
    requires InRange(s) > 0
  {
    seq(Buckets, i => Count(s, i) as real / InRange(s) as real)
  }

  /** `get_dist_from_picks` as a value: None when no pick is in range (0 / 0 gives `nan` everywhere). */
  function HistogramOf(s: seq<int>): Option<seq<real>>
  {
    if InRange(s) == 0 then None else Some(Histogram(s))
  }

  /** `get_dist_from_picks`: counts the picks per bucket, then divides by the total. */
  method DistFromPicks(picks: seq<int>) returns (r: Option<seq<real>>)
    ensures r == HistogramOf(picks)
  {
    var dist := new real[Buckets];
    for i := 0 to Buckets
      invariant forall b :: 0 <= b < i ==> dist[b] == Count(picks, b) as real
    {
      var c := CountPicks(picks, i);
      dist[i] := c as real;
    }
    var total := 0.0;
    for i := 0 to Buckets
      invariant total == SumCounts(picks, i) as real
    {
      total := total + dist[i];
    }
    SumCountsIsInRange(picks);
    if total == 0.0 {
      return None;
    }
    for i := 0 to Buckets
      invariant forall b :: 0 <= b < i ==> dist[b] == Count(picks, b) as real / total
      invariant forall b :: i <= b < Buckets ==> dist[b] == Count(picks, b) as real
    {
      dist[i] := dist[i] / total;
    }
    assert dist[..] == Histogram(picks);
    return Some(dist[..]);
  }

  /** The number of picks equal to v, counted one pick at a time. */
  method CountPicks(picks: seq<int>, v: int) returns (c: nat)
    ensures c == Count(picks, v)
  {
    c := 0;
    for k := 0 to |picks|
      invariant c == Count(picks[..k], v)
    {
      assert picks[..k + 1][..k] == picks[..k];
      if picks[k] == v {
        c := c + 1;
      }
    }
    assert picks[..|picks|] == picks;
  }

  /** The number of picks in buckets 0 .. n-1. */
  function SumCounts(s: seq<int>, n: nat): nat
  {
    if n == 0 then 0 else SumCounts(s, n - 1) + Count(s, n - 1)
  }

  lemma {:induction false} SumCountsSnoc(s: seq<int>, x: int, n: nat)
    ensures SumCounts(s + [x], n) == SumCounts(s, n) + (if 0 <= x < n then 1 else 0)
  {
    assert (s + [x])[..|s + [x]| - 1] == s;
    if n > 0 {
      SumCountsSnoc(s, x, n - 1);
    }
  }

  /** Every in-range pick is counted in exactly one bucket. */
  lemma {:induction false} SumCountsIsInRange(s: seq<int>)
    ensures SumCounts(s, Buckets) == InRange(s)
    decreases |s|
  {
    if |s| == 0 {
      SumCountsEmpty(s, Buckets);
    } else {
      var init, x := s[..|s| - 1], s[|s| - 1];
      assert s == init + [x];
      SumCountsIsInRange(init);
      SumCountsSnoc(init, x, Buckets);
    }
  }

  lemma {:induction false} SumCountsEmpty(s: seq<int>, n: nat)
    requires |s| == 0
    ensures SumCounts(s, n) == 0
  {
    if n > 0 {
      SumCountsEmpty(s, n - 1);
    }
  }

  /** The histogram is a probability distribution: 101 non-negative entries summing to 1. */
  lemma HistogramIsDistribution(s: seq<int>)
    requires InRange(s) > 0
    ensures |Histogram(s)| == Buckets
    ensures forall i :: 0 <= i < Buckets ==> Histogram(s)[i] >= 0.0
    ensures Sum(Histogram(s)) == 1.0
  {
    forall i | 0 <= i < Buckets ensures Histogram(s)[i] >= 0.0 {
      HistogramEntry(s, i);
    }
    HistogramSumsToOne(s);
  }

  /** Bucket i times the number of in-range picks is the number of picks equal to i. */
  lemma HistogramEntry(s: seq<int>, i: nat)
    requires InRange(s) > 0 && i < Buckets
    ensures Histogram(s)[i] >= 0.0 && Histogram(s)[i] * InRange(s) as real == Count(s, i) as real
  {
    var c, n := Count(s, i) as real, InRange(s) as real;
    assert Histogram(s)[i] == c / n;
    DivCancel(c, n);
    DivNonnegative(c, n);
  }

  lemma HistogramSumsToOne(s: seq<int>)
    requires InRange(s) > 0
    ensures Sum(Histogram(s)) == 1.0
  {
    var h, n := Histogram(s), InRange(s) as real;
    HistogramPrefixSum(s, Buckets);
    assert h[..Buckets] == h;
    SumCountsIsInRange(s);
    assert Sum(h) == n / n;
    DivSelf(n);
  }

  lemma {:induction false} HistogramPrefixSum(s: seq<int>, m: nat)
    requires InRange(s) > 0 && m <= Buckets
    ensures Sum(Histogram(s)[..m]) == SumCounts(s, m) as real / InRange(s) as real
  {
    var h, n := Histogram(s), InRange(s) as real;
    if m > 0 {
      HistogramPrefixSum(s, m - 1);
      var prefix := h[..m];
      assert prefix[..m - 1] == h[..m - 1];
      assert Sum(prefix) == Sum(h[..m - 1]) + h[m - 1];
      DivAdd(SumCounts(s, m - 1) as real, Count(s, m - 1) as real, n);
    }
  }

  /** A pick outside [0, 100] falls in no bucket and does not change the histogram. */
  lemma OutOfRangePickIgnored(s: seq<int>, x: int)
    requires !InBuckets(x)
    ensures InRange(s + [x]) == InRange(s)
    ensures forall i :: InBuckets(i) ==> Count(s + [x], i) == Count(s, i)
    ensures HistogramOf(s + [x]) == HistogramOf(s)
  {
    assert (s + [x])[..|s + [x]| - 1] == s;
    if InRange(s) > 0 {
      assert Histogram(s + [x]) == Histogram(s);
    }
  }

  /** The distribution that puts all its mass on bucket v. */
  function OneHot(v: nat): (d: seq<real>)
    requires v < Buckets
    ensures |d| == Buckets && d[v] == 1.0 && Sum(d) == 1.0
  {
    var d := seq(Buckets, i => if i == v then 1.0 else 0.0);
    SumOneHot(v, d, Buckets);
    assert d[..Buckets] == d;
    d
  }

  lemma {:induction false} SumOneHot(v: nat, d: seq<real>, m: nat)
    requires v < Buckets && m <= Buckets && d == seq(Buckets, i => if i == v then 1.0 else 0.0)
    ensures Sum(d[..m]) == if v < m then 1.0 else 0.0
  {
    if m > 0 {
      assert d[..m][..m - 1] == d[..m - 1];
      SumOneHot(v, d, m - 1);
    }
  }

  lemma {:induction false} CountConstant(n: nat, v: int, i: int)
    ensures Count(seq(n, _ => v), i) == if i == v then n else 0
    ensures InRange(seq(n, _ => v)) == if InBuckets(v) then n else 0
  {
    if n > 0 {
      assert seq(n, _ => v)[..n - 1] == seq(n - 1, _ => v);
      CountConstant(n - 1, v, i);
    }
  }

  /** All picks on one whole percentage v give the one-hot histogram at v. */
  lemma ConstantPicksHistogram(n: nat, v: nat)
    requires n > 0 && v < Buckets
    ensures HistogramOf(seq(n, _ => v)) == Some(OneHot(v))
  {
    var s := seq(n, _ => v);
    CountConstant(n, v, v);
    forall i | 0 <= i < Buckets ensures Histogram(s)[i] == OneHot(v)[i] {
      CountConstant(n, v, i);
    }
    assert Histogram(s) == OneHot(v);
  }

  // ---------------------------------------------------------------------------------------
  // Properties of get_prob_dist

  /** Arrays of different sizes fail the size assertion; equal sizes never do. */
  lemma ProbDistSizeCheck(es: seq<Option<real>>, ls: seq<Option<real>>, us: seq<Option<real>>, ws: seq<real>,
                          draw: (nat, real, real, nat) -> real)
    requires forall i, a, b, j :: 0.0 <= draw(i, a, b, j) <= 1.0
    ensures ProbDistOf(es, ls, us, ws, draw) == Failure(SizeMismatch) <==> !SameSizes(es, ls, us, ws)
  {
    if SameSizes(es, ls, us, ws) {
      PooledNeverMismatch(Rows(es, ls, us, ws), draw);
    }
  }

  lemma {:induction false} PooledNeverMismatch(rows: seq<Answer>, draw: (nat, real, real, nat) -> real)
    requires forall i, a, b, j :: 0.0 <= draw(i, a, b, j) <= 1.0
    ensures Pooled(rows, draw) != Failure(SizeMismatch)
    decreases |rows|
  {
    if |rows| > 0 {
      PooledNeverMismatch(rows[..|rows| - 1], draw);
    }
  }

  /** The number of samples an expert adds: int(w * 5000) when answered, none otherwise. */
  function SampleCount(x: Answer): int
  {
    if Answered(x) then Trunc(x.weight * NumberOfPicks) else 0
  }

  function TotalSamples(rows: seq<Answer>): int
  {
    if |rows| == 0 then 0 else TotalSamples(rows[..|rows| - 1]) + SampleCount(rows[|rows| - 1])
  }

  /** Each answered expert contributes exactly int(w * 5000) samples to the pool; an
      unanswered one contributes none. */
  lemma {:induction false} PooledSize(rows: seq<Answer>, draw: (nat, real, real, nat) -> real)
    requires forall i, a, b, j :: 0.0 <= draw(i, a, b, j) <= 1.0
    ensures Pooled(rows, draw).Success? ==> |Pooled(rows, draw).value| == TotalSamples(rows)
    decreases |rows|
  {
    if |rows| > 0 {
      PooledSize(rows[..|rows| - 1], draw);
    }
  }

  /** When every weight is below 1/5000 (in particular, all zero), no sample is drawn and the
      result is `nan`. */
  lemma NegligibleWeightsGiveNan(es: seq<Option<real>>, ls: seq<Option<real>>, us: seq<Option<real>>, ws: seq<real>,
                                 draw: (nat, real, real, nat) -> real)
    requires SameSizes(es, ls, us, ws)
    requires forall i :: 0 <= i < |ws| ==> 0.0 <= ws[i] * NumberOfPicks < 1.0
    requires forall i, a, b, j :: 0.0 <= draw(i, a, b, j) <= 1.0
    ensures ProbDistOf(es, ls, us, ws, draw) == Success(None)
  {
    NoSamples(Rows(es, ls, us, ws), draw);
  }

  lemma {:induction false} NoSamples(rows: seq<Answer>, draw: (nat, real, real, nat) -> real)
    requires forall i :: 0 <= i < |rows| ==> 0.0 <= rows[i].weight * NumberOfPicks < 1.0
    requires forall i, a, b, j :: 0.0 <= draw(i, a, b, j) <= 1.0
    ensures Pooled(rows, draw) == Success([])
    decreases |rows|
  {
    if |rows| > 0 {
      var i: nat := |rows| - 1;
      NoSamples(rows[..i], draw);
      var mine := ExpertSamples(rows[i], i, draw);
      assert Trunc(rows[i].weight * NumberOfPicks) == 0;
      assert mine.Success? && |mine.value| == 0;
      assert [] + mine.value == [];
    }
  }

  /** An expert with a `nan` among its three values is skipped: the pool is as if its row were
      absent. */
  lemma UnansweredExpertSkipped(rows: seq<Answer>, x: Answer, draw: (nat, real, real, nat) -> real)
    requires !Answered(x)
    requires forall i, a, b, j :: 0.0 <= draw(i, a, b, j) <= 1.0
    ensures Pooled(rows + [x], draw) == Pooled(rows, draw)
  {
    assert (rows + [x])[..|rows|] == rows;
    var before := Pooled(rows, draw);
    if before.Success? {
      assert before.value + [] == before.value;
    }
  }

  /** A single expert answering v for all three values with weight 1 puts all the mass on
      bucket v. */
  lemma SingleCertainExpert(v: nat, draw: (nat, real, real, nat) -> real)
    requires v < Buckets
    requires forall i, a, b, j :: 0.0 <= draw(i, a, b, j) <= 1.0
    ensures ProbDistOf([Some(v as real)], [Some(v as real)], [Some(v as real)], [1.0], draw) == Success(Some(OneHot(v)))
  {
    var x := Some(v as real);
    assert Trunc(1.0 * NumberOfPicks) == 5000;
    var samples := seq(5000, _ => v as real);
    var row := Answer(x, x, x, 1.0);
    assert Rows([x], [x], [x], [1.0]) == [row];
    assert ExpertSamples(row, 0, draw) == Success(samples);
    assert [row][..0] == [];
    assert Pooled([row], draw) == Success([] + samples);
    assert [] + samples == samples;
    assert Percents(samples) == seq(5000, _ => v);
    ConstantPicksHistogram(5000, v);
  }

  // ---------------------------------------------------------------------------------------
  // get_pick

  /** A probability vector as `np.random.choice` accepts it: no negative entry, sum 1. */
  predicate IsDistribution(d: seq<real>)
  {
    (forall i :: 0 <= i < |d| ==> d[i] >= 0.0) && Sum(d) == 1.0
  }

  /** `get_pick`: the grid value k / (n - 1) of the bucket the weighted choice returned. A `nan`
      distribution (a float) has no `.size` and raises, as does a distribution of fewer than two
      buckets or one that is not a probability vector. */
  function GetPick(dist: Option<seq<real>>, k: nat): (r: Result<real, DistError>)
    requires dist.Some? ==> k < |dist.value|
    ensures dist.None? ==> r == Failure(NoDistribution)
    ensures dist.Some? ==> (r.Success? <==> |dist.value| >= 2 && IsDistribution(dist.value))
    ensures dist.Some? && |dist.value| >= 2 && !IsDistribution(dist.value) ==> r == Failure(NotADistribution)
    ensures r.Success? ==> 0.0 <= r.value <= 1.0 && r.value * (|dist.value| - 1) as real == k as real
  {
    match dist
    case None => Failure(NoDistribution)
    case Some(d) =>
      if |d| < 2 then Failure(TooFewBuckets)
      else if !IsDistribution(d) then Failure(NotADistribution)
      else Success(k as real / (|d| - 1) as real)
  }

  /** Whatever `get_prob_dist` returns as an array is a 101-bucket distribution, so every bucket
      index of it picks its whole percentage. */
  lemma ProbDistPicks(es: seq<Option<real>>, ls: seq<Option<real>>, us: seq<Option<real>>, ws: seq<real>,
                      draw: (nat, real, real, nat) -> real, k: nat)
    requires forall i, a, b, j :: 0.0 <= draw(i, a, b, j) <= 1.0
    requires ProbDistOf(es, ls, us, ws, draw).Success? && ProbDistOf(es, ls, us, ws, draw).value.Some?
    requires k < Buckets
    ensures |ProbDistOf(es, ls, us, ws, draw).value.value| == Buckets
    ensures GetPick(ProbDistOf(es, ls, us, ws, draw).value, k) == Success(k as real / 100.0)
  {
    var picks := Pooled(Rows(es, ls, us, ws), draw).value;
    var s := Percents(picks);
    assert ProbDistOf(es, ls, us, ws, draw).value == HistogramOf(s);
    HistogramIsDistribution(s);
    var d := Histogram(s);
    assert IsDistribution(d);
    assert GetPick(Some(d), k).value * 100.0 == k as real;
  }

  /** On a 101-bucket histogram a pick is a whole percentage, and fed back through the
      histogram it lands in exactly the bucket that was chosen. */
  lemma PickReadsBack(d: seq<real>, k: nat)
    requires |d| == Buckets && IsDistribution(d) && k < Buckets
    ensures GetPick(Some(d), k) == Success(k as real / 100.0)
    ensures HistogramOf([Round(GetPick(Some(d), k).value * 100.0)]) == Some(OneHot(k))
  {
    var p := GetPick(Some(d), k).value;
    assert p * 100.0 == k as real;
    assert Round(p * 100.0) == k;
    assert [k] == seq(1, _ => k);
    ConstantPicksHistogram(1, k);
  }
}
