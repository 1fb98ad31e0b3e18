/** Row rules of the pressure-contribution survey: each expert's significances become shares
    of the pressures they named, the shares are collected per pressure, and a pressure's mean
    share and its standard deviation give the interval of its contribution distribution. */
module PressureSurvey {
  import opened Wrappers
  import opened Numeric
  import opened Distributions
  import opened Sequences

  /** One (pressure, significance) answer pair of an expert; an empty cell is None. */
  datatype PressureAnswer = PressureAnswer(pressure: Option<real>, significance: Option<real>)

  /** The answer pairs whose pressure cell is filled (`mask`): the others are dropped, the
      kept ones stay in order and keep their repeats. */
  function Named(answers: seq<PressureAnswer>): (named: seq<PressureAnswer>)
    ensures |named| <= |answers|
    ensures forall i :: 0 <= i < |named| ==> named[i].pressure.Some? && named[i] in answers
    ensures forall a :: a in answers && a.pressure.Some? ==> a in named
    ensures IsSubsequence(named, answers)
    ensures forall a :: multiset(named)[a] == (if a.pressure.Some? then multiset(answers)[a] else 0)
  {
    if |answers| == 0 then []
    else
      var init, last := answers[..|answers| - 1], answers[|answers| - 1];
      assert answers == init + [last];
      NamedStep(Named(init), init, last);
      if last.pressure.Some? then Named(init) + [last] else Named(init)
  }

  /** `Named`'s contract carried over one appended answer. */
  lemma NamedStep(front: seq<PressureAnswer>, init: seq<PressureAnswer>, last: PressureAnswer)
    requires |front| <= |init|
    requires forall i :: 0 <= i < |front| ==> front[i].pressure.Some? && front[i] in init
    requires forall a :: a in init && a.pressure.Some? ==> a in front
    requires IsSubsequence(front, init)
    requires forall a :: multiset(front)[a] == (if a.pressure.Some? then multiset(init)[a] else 0)
    ensures var kept, answers := (if last.pressure.Some? then front + [last] else front), init + [last];
      && |kept| <= |answers|
      && (forall i :: 0 <= i < |kept| ==> kept[i].pressure.Some? && kept[i] in answers)
      && (forall a :: a in answers && a.pressure.Some? ==> a in kept)
      && IsSubsequence(kept, answers)
      && (forall a :: multiset(kept)[a] == (if a.pressure.Some? then multiset(answers)[a] else 0))
  {
    var kept, answers := (if last.pressure.Some? then front + [last] else front), init + [last];
    SubsequenceSnoc(front, init, last, last.pressure.Some?);
    assert multiset(answers) == multiset(init) + multiset{last};
    assert multiset(front + [last]) == multiset(front) + multiset{last};
    forall i | 0 <= i < |kept|
      ensures kept[i].pressure.Some? && kept[i] in answers
    {
      if i < |front| {
        assert kept[i] == front[i];
      }
    }
    forall a | a in answers && a.pressure.Some?
      ensures a in kept
    {
      if a in init {
        assert a in front;
      } else {
        assert a == last;
        assert kept[|kept| - 1] == last;
      }
    }
  }

  /** Whether every named pressure has its significance filled in. */
  predicate AllSignificant(named: seq<PressureAnswer>)
  {
    forall i :: 0 <= i < |named| ==> named[i].significance.Some?
  }

  function Significances(named: seq<PressureAnswer>): (s: seq<real>)
    requires AllSignificant(named)
    ensures |s| == |named|
    ensures forall i :: 0 <= i < |s| ==> s[i] == named[i].significance.value
  {
    seq(|named|, i requires 0 <= i < |named| => named[i].significance.value)
  }

  /** Every element times `w`. */
  function Scale(s: seq<real>, w: real): (r: seq<real>)
    ensures |r| == |s|
    ensures forall i :: 0 <= i < |s| ==> r[i] == s[i] * w
  {
    seq(|s|, i requires 0 <= i < |s| => s[i] * w)
  }

  /** Every element divided by `t`. */
  function DivideBy(s: seq<real>, t: real): (r: seq<real>)
    requires t != 0.0
    ensures |r| == |s|
    ensures forall i :: 0 <= i < |s| ==> r[i] * t == s[i]
  {
    var r := seq(|s|, i requires 0 <= i < |s| => s[i] / t);
    assert forall i :: 0 <= i < |s| ==> r[i] * t == s[i] by {
      forall i | 0 <= i < |s| ensures r[i] * t == s[i] {
        DivCancel(s[i], t);
      }
    }
    r
  }

  lemma {:induction false} SumScale(s: seq<real>, w: real)
    ensures Sum(Scale(s, w)) == Sum(s) * w
  {
    if |s| > 0 {
      var n := |s|;
      var front, scaledFront := Scale(s, w)[..n - 1], Scale(s[..n - 1], w);
      assert front == scaledFront by {
        forall i | 0 <= i < n - 1 ensures front[i] == scaledFront[i] {
          assert s[..n - 1][i] == s[i];
        }
      }
      SumScale(s[..n - 1], w);
      Distribute(Sum(s[..n - 1]), s[n - 1], w);
    }
  }

  lemma Distribute(a: real, b: real, w: real)
    ensures a * w + b * w == (a + b) * w
  {
  }

  lemma {:induction false} SumDivideBy(s: seq<real>, t: real)
    requires t != 0.0
    ensures Sum(DivideBy(s, t)) * t == Sum(s)
  {
    if |s| > 0 {
      var n, r := |s|, DivideBy(s, t);
      assert r[..n - 1] == DivideBy(s[..n - 1], t);
      SumDivideBy(s[..n - 1], t);
      assert (Sum(r[..n - 1]) + r[n - 1]) * t == Sum(r[..n - 1]) * t + r[n - 1] * t;
    }
  }

  /** An expert's weighted significances over the pressures they named, and their total
      (`s_tot`). */
  function Weighted(answers: seq<PressureAnswer>, w: real): seq<real>
    requires AllSignificant(Named(answers))
  {
    Scale(Significances(Named(answers)), w)
  }

  /** One expert's shares: for each named pressure, int(pressure) and significance * w over the
      total; None (`nan` or an infinity) when the total is 0, and `nan` throughout when a named
      pressure has no significance (the total is then `nan`). */
  function ExpertShares(answers: seq<PressureAnswer>, w: real): (r: seq<(int, Option<real>)>)
    ensures |r| == |Named(answers)|
    ensures forall i :: 0 <= i < |r| ==> r[i].0 == Trunc(Named(answers)[i].pressure.value)
    ensures forall i :: 0 <= i < |r| ==>
      (r[i].1.None? <==> !AllSignificant(Named(answers)) || Sum(Weighted(answers, w)) == 0.0)
    ensures AllSignificant(Named(answers)) && Sum(Weighted(answers, w)) != 0.0 ==>
      forall i :: 0 <= i < |r| ==> r[i].1 == Some(Weighted(answers, w)[i] / Sum(Weighted(answers, w)))
  {
    var named := Named(answers);
    var ps := PressureIds(named);
    if !AllSignificant(named) then
      seq(|ps|, i requires 0 <= i < |ps| => (ps[i], None))
    else
      var xs := Weighted(answers, w);
      SharesOf(ps, xs, Sum(xs))
  }

  /** The pressure ids of named answers, truncated to integers. */
  function PressureIds(named: seq<PressureAnswer>): (ps: seq<int>)
    requires forall i :: 0 <= i < |named| ==> named[i].pressure.Some?
    ensures |ps| == |named|
    ensures forall i :: 0 <= i < |ps| ==> ps[i] == Trunc(named[i].pressure.value)
  {
    seq(|named|, i requires 0 <= i < |named| => Trunc(named[i].pressure.value))
  }

  /** Each value over the total, paired with its pressure id. */
  function SharesOf(ps: seq<int>, xs: seq<real>, total: real): (r: seq<(int, Option<real>)>)
    requires |ps| == |xs|
    ensures |r| == |xs|
    ensures forall i :: 0 <= i < |r| ==> r[i].0 == ps[i] && (r[i].1.None? <==> total == 0.0)
    ensures total != 0.0 ==> forall i :: 0 <= i < |r| ==> r[i].1 == Some(xs[i] / total)
  {
    seq(|xs|, i requires 0 <= i < |xs| => Share(ps[i], xs[i], total))
  }

  function Share(p: int, x: real, total: real): (int, Option<real>)
  {
    (p, if total == 0.0 then None else Some(x / total))
  }

  function ShareValues(r: seq<(int, Option<real>)>): seq<real>
    requires forall i :: 0 <= i < |r| ==> r[i].1.Some?
  {
    seq(|r|, i requires 0 <= i < |r| => r[i].1.value)
  }

  /** An expert's shares over the pressures they named sum to 1. */
  lemma SharesSumToOne(answers: seq<PressureAnswer>, w: real)
    requires AllSignificant(Named(answers)) && Sum(Weighted(answers, w)) != 0.0
    ensures Sum(ShareValues(ExpertShares(answers, w))) == 1.0
  {
    var xs := Weighted(answers, w);
    assert ExpertShares(answers, w) == SharesOf(PressureIds(Named(answers)), xs, Sum(xs));
    SharesOfSumToOne(PressureIds(Named(answers)), xs);
  }

  lemma SharesOfSumToOne(ps: seq<int>, xs: seq<real>)
    requires |ps| == |xs| && Sum(xs) != 0.0
    ensures Sum(ShareValues(SharesOf(ps, xs, Sum(xs)))) == 1.0
  {
    var t := Sum(xs);
    ShareValuesDivide(ps, xs, t);
    SumDivideBy(xs, t);
    DivCancel(1.0, t);
  }

  lemma ShareValuesDivide(ps: seq<int>, xs: seq<real>, t: real)
    requires |ps| == |xs| && t != 0.0
    ensures ShareValues(SharesOf(ps, xs, t)) == DivideBy(xs, t)
  {
  }

  /** The expert's weight cancels out of the shares: any two nonzero weights give the same
      shares. */
  lemma WeightCancels(answers: seq<PressureAnswer>, w: real, v: real)
    requires w != 0.0 && v != 0.0
    ensures ExpertShares(answers, w) == ExpertShares(answers, v)
  {
    var named := Named(answers);
    if AllSignificant(named) {
      ScaledShares(PressureIds(named), Significances(named), w, v);
    }
  }

  lemma ScaledShares(ps: seq<int>, xs: seq<real>, w: real, v: real)
    requires |ps| == |xs| && w != 0.0 && v != 0.0
    ensures SharesOf(ps, Scale(xs, w), Sum(Scale(xs, w))) == SharesOf(ps, Scale(xs, v), Sum(Scale(xs, v)))
  {
    var a, b := SharesOf(ps, Scale(xs, w), Sum(Scale(xs, w))), SharesOf(ps, Scale(xs, v), Sum(Scale(xs, v)));
    forall i | 0 <= i < |a| ensures a[i] == b[i] {
      ShareScaled(ps, xs, w, i);
      ShareScaled(ps, xs, v, i);
    }
  }

  /** Scaling every value by a nonzero weight leaves each share as it was. */
  lemma ShareScaled(ps: seq<int>, xs: seq<real>, w: real, i: nat)
    requires |ps| == |xs| && i < |xs| && w != 0.0
    ensures SharesOf(ps, Scale(xs, w), Sum(Scale(xs, w)))[i] == SharesOf(ps, xs, Sum(xs))[i]
  {
    var ys := Scale(xs, w);
    ScaledAt(xs, w, i);
    ShareProportional(ps, xs, ys, Sum(xs), Sum(ys), w, i);
  }

  lemma ScaledAt(xs: seq<real>, w: real, i: nat)
    requires i < |xs|
    ensures Scale(xs, w)[i] == xs[i] * w && Sum(Scale(xs, w)) == Sum(xs) * w
  {
    SumScale(xs, w);
  }

  lemma ShareProportional(ps: seq<int>, xs: seq<real>, ys: seq<real>, u: real, t: real, w: real, i: nat)
    requires |ps| == |xs| == |ys| && i < |xs| && w != 0.0
    requires ys[i] == xs[i] * w && t == u * w
    ensures SharesOf(ps, ys, t)[i] == SharesOf(ps, xs, u)[i]
  {
    CancelCommon(ps[i], ys[i], t, xs[i], u, w);
  }

  lemma CancelCommon(p: int, y: real, t: real, x: real, u: real, w: real)
    requires w != 0.0 && y == x * w && t == u * w
    ensures Share(p, y, t) == Share(p, x, u)
  {
    if u != 0.0 {
      ScaledRatio(x, u, w);
    }
  }

  lemma ScaledRatio(x: real, u: real, w: real)
    requires u != 0.0 && w != 0.0
    ensures u * w != 0.0 && (x * w) / (u * w) == x / u
  {
    var q := x / u;
    DivCancel(x, u);
    assert x * w == q * (u * w);
    DivCancel(q * (u * w), u * w);
  }

  // ---------------------------------------------------------------------------------------
  // The per-pressure share lists

  /** The share lists after adding one (pressure, share) pair. */
  function AddShare(m: map<int, seq<Option<real>>>, p: int, v: Option<real>): map<int, seq<Option<real>>>
  {
    m[p := (if p in m then m[p] else []) + [v]]
  }

  function AddShares(m: map<int, seq<Option<real>>>, shares: seq<(int, Option<real>)>): map<int, seq<Option<real>>>
  {
    if |shares| == 0 then m
    else AddShare(AddShares(m, shares[..|shares| - 1]), shares[|shares| - 1].0, shares[|shares| - 1].1)
  }

  /** The share lists of experts 0 .. |experts|-1, each list in expert order. */
  function Collected(experts: seq<seq<PressureAnswer>>, ws: seq<real>): map<int, seq<Option<real>>>
    requires |experts| == |ws|
  {
    if |experts| == 0 then map[]
    else
      var n := |experts| - 1;
      AddShares(Collected(experts[..n], ws[..n]), ExpertShares(experts[n], ws[n]))
  }

  /** The loop that fills the dictionary of share lists keyed by int(pressure). */
  method CollectShares(experts: seq<seq<PressureAnswer>>, ws: seq<real>) returns (weights: map<int, seq<Option<real>>>)
    requires |experts| == |ws|
    ensures weights == Collected(experts, ws)
  {
    weights := map[];
    for i := 0 to |experts|
      invariant weights == Collected(experts[..i], ws[..i])
    {
      weights := AppendShares(weights, ExpertShares(experts[i], ws[i]));
      CollectedSnoc(experts, ws, i);
    }
    assert experts[..|experts|] == experts && ws[..|ws|] == ws;
  }

  lemma CollectedSnoc(experts: seq<seq<PressureAnswer>>, ws: seq<real>, i: nat)
    requires |experts| == |ws| && i < |experts|
    ensures Collected(experts[..i + 1], ws[..i + 1])
      == AddShares(Collected(experts[..i], ws[..i]), ExpertShares(experts[i], ws[i]))
  {
    assert experts[..i + 1][..i] == experts[..i] && ws[..i + 1][..i] == ws[..i];
  }

  /** The inner loop: each (pressure, share) pair appended to its pressure's list. */
  method AppendShares(m: map<int, seq<Option<real>>>, shares: seq<(int, Option<real>)>)
    returns (weights: map<int, seq<Option<real>>>)
    ensures weights == AddShares(m, shares)
  {
    weights := m;
    for j := 0 to |shares|
      invariant weights == AddShares(m, shares[..j])
    {
      assert shares[..j + 1][..j] == shares[..j];
      var p := shares[j].0;
      if p !in weights {
        weights := weights[p := []];
      }
      weights := weights[p := weights[p] + [shares[j].1]];
    }
    assert shares[..|shares|] == shares;
  }

  /** Whether one of the answers names pressure `p` (after `int()`). */
  predicate NamesPressure(answers: seq<PressureAnswer>, p: int)
  {
    exists a :: a in answers && a.pressure.Some? && Trunc(a.pressure.value) == p
  }

  /** A pressure has a share list exactly when some expert named it. */
  lemma {:induction false} CollectedKeys(experts: seq<seq<PressureAnswer>>, ws: seq<real>, p: int)
    requires |experts| == |ws|
    ensures p in Collected(experts, ws) <==> exists i :: 0 <= i < |experts| && NamesPressure(experts[i], p)
  {
    if |experts| > 0 {
      var n := |experts| - 1;
      CollectedKeys(experts[..n], ws[..n], p);
      CollectedKeysStep(experts, ws, p);
      SomeExpertNames(experts, p);
    }
  }

  /** The last expert adds a key exactly for the pressures they named. */
  lemma CollectedKeysStep(experts: seq<seq<PressureAnswer>>, ws: seq<real>, p: int)
    requires |experts| == |ws| > 0
    ensures var n := |experts| - 1;
      p in Collected(experts, ws) <==> p in Collected(experts[..n], ws[..n]) || NamesPressure(experts[n], p)
  {
    var n := |experts| - 1;
    AddSharesKeys(Collected(experts[..n], ws[..n]), ExpertShares(experts[n], ws[n]), p);
    SharedPressures(experts[n], ws[n], p);
  }

  lemma SomeExpertNames(experts: seq<seq<PressureAnswer>>, p: int)
    requires |experts| > 0
    ensures var n := |experts| - 1;
      (exists i :: 0 <= i < |experts| && NamesPressure(experts[i], p)) <==>
      (exists i :: 0 <= i < n && NamesPressure(experts[..n][i], p)) || NamesPressure(experts[n], p)
  {
    var n := |experts| - 1;
    assert forall i :: 0 <= i < n ==> experts[..n][i] == experts[i];
  }

  /** An expert's shares name pressure `p` exactly when one of their answers names it. */
  lemma SharedPressures(answers: seq<PressureAnswer>, w: real, p: int)
    ensures (exists j :: 0 <= j < |ExpertShares(answers, w)| && ExpertShares(answers, w)[j].0 == p) <==>
      NamesPressure(answers, p)
  {
    var shares, named := ExpertShares(answers, w), Named(answers);
    if NamesPressure(answers, p) {
      var a :| a in answers && a.pressure.Some? && Trunc(a.pressure.value) == p;
      var j :| 0 <= j < |named| && named[j] == a;
      assert shares[j].0 == p;
    }
    if exists j :: 0 <= j < |shares| && shares[j].0 == p {
      var j :| 0 <= j < |shares| && shares[j].0 == p;
      assert named[j] in answers;
    }
  }

  lemma {:induction false} AddSharesKeys(m: map<int, seq<Option<real>>>, shares: seq<(int, Option<real>)>, p: int)
    ensures p in AddShares(m, shares) <==> p in m || exists j :: 0 <= j < |shares| && shares[j].0 == p
  {
    if |shares| > 0 {
      var n := |shares| - 1;
      AddSharesKeys(m, shares[..n], p);
      if exists j :: 0 <= j < n && shares[..n][j].0 == p {
        var j :| 0 <= j < n && shares[..n][j].0 == p;
        assert shares[j].0 == p;
      }
      if exists j :: 0 <= j < |shares| && shares[j].0 == p {
        var j :| 0 <= j < |shares| && shares[j].0 == p;
        if j < n {
          assert shares[..n][j].0 == p;
        }
      }
    }
  }

  // ---------------------------------------------------------------------------------------
  // Contribution interval

  /** The [minimum, maximum] of a pressure's contribution from its mean share and standard
      deviation: [avg - sd, avg + sd] when that lies within (0, 1], shifted down to end at 1
      when it would pass 1, and [0, 2 sd] when avg - sd is not positive. */
  function Interval(average: real, stddev: real): (r: (real, real))
    ensures r.1 - r.0 == 2.0 * stddev
    ensures average - stddev <= 0.0 ==> r.0 == 0.0
    ensures average - stddev > 0.0 ==> r.1 <= 1.0
    ensures average - stddev > 0.0 && average + stddev <= 1.0 ==> r == (average - stddev, average + stddev)
  {
    if average - stddev > 0.0 then
      if average + stddev > 1.0 then (1.0 - stddev * 2.0, 1.0)
      else (average - stddev, average + stddev)
    else (0.0, stddev * 2.0)
  }

  /** The contribution distribution of a pressure: a single expert, weight 1, with the
      mean share as most likely value and the interval as bounds, all in percent. */
  function ContributionDist(average: real, stddev: real, draw: (nat, real, real, nat) -> real): Result<Option<seq<real>>, DistError>
    requires forall i, a, b, j :: 0.0 <= draw(i, a, b, j) <= 1.0
  {
    var bounds := Interval(average, stddev);
    ProbDistOf([Some(average * 100.0)], [Some(bounds.0 * 100.0)], [Some(bounds.1 * 100.0)], [1.0], draw)
  }

  /** That call never raises, whatever the beta draws. */
  lemma ContributionDistSucceeds(average: real, stddev: real, draw: (nat, real, real, nat) -> real)
    requires forall i, a, b, j :: 0.0 <= draw(i, a, b, j) <= 1.0
    ensures ContributionDist(average, stddev, draw).Success?
  {
    var bounds := Interval(average, stddev);
    var row := Answer(Some(average * 100.0), Some(bounds.0 * 100.0), Some(bounds.1 * 100.0), 1.0);
    var rows := Rows([row.expected], [row.lower], [row.upper], [1.0]);
    assert rows == [row];
    assert Trunc(1.0 * NumberOfPicks) == 5000;
    assert ExpertSamples(row, 0, draw).Success?;
    assert rows[..0] == [];
    assert Pooled(rows[..0], draw) == Success([]);
    assert Pooled(rows, draw).Success?;
  }
}
