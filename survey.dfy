/** Row rules of the measure-effectiveness survey: which columns are experts, where each
    question block's answers sit, the per-expert rescaling of expected values by the stated
    maximum effectiveness, and the effectiveness bounds derived from expected value and
    variance. Missing spreadsheet cells (`nan`) are None. */
module MeasureSurvey {
  import opened Wrappers
  import opened Numeric
  import opened Text
  import opened Sequences

  // ---------------------------------------------------------------------------------------
  // get_expert_ids

  /** The column-name pattern `^(100|[1-9]?[0-9])$`. */
  predicate IsExpertId(name: string)
  {
    name == "100"
    || (|name| == 1 && IsDigit(name[0]))
    || (|name| == 2 && '1' <= name[0] <= '9' && IsDigit(name[1]))
  }

  /** The pattern matches exactly the decimal names of the numbers 0 to 100. */
  lemma ExpertIdsAreNumbers(name: string)
    ensures IsExpertId(name) <==> exists n: nat :: n <= 100 && name == NatToString(n)
  {
    if IsExpertId(name) {
      ExpertIdIsNumber(name);
    }
    if exists n: nat :: n <= 100 && name == NatToString(n) {
      var n: nat :| n <= 100 && name == NatToString(n);
      NumberIsExpertId(n);
    }
  }

  lemma ExpertIdIsNumber(name: string)
    requires IsExpertId(name)
    ensures ParseNat(name) <= 100 && name == NatToString(ParseNat(name))
  {
    NatToStringParse(name);
    var n := ParseNat(name);
    if name == "100" {
      assert name[..2] == "10" && name[..2][..1] == "1";
      assert ParseNat("1") == 1 by { assert "1"[..0] == []; }
      assert n == 100;
    } else if |name| == 2 {
      assert name[..1][..0] == [];
      assert n == DigitValue(name[0]) * 10 + DigitValue(name[1]);
    } else {
      assert name[..0] == [];
    }
  }

  lemma NumberIsExpertId(n: nat)
    requires n <= 100
    ensures IsExpertId(NatToString(n))
  {
    if n == 100 {
      assert NatToString(10) == NatToString(1) + [DigitChar(0)];
      assert NatToString(n) == "100";
    } else if n >= 10 {
      assert NatToString(n) == [DigitChar(n / 10)] + [DigitChar(n % 10)];
    }
  }

  /** `get_expert_ids`: the columns whose names match the expert pattern, in column order and
      with their repeats. */
  function ExpertIds(columns: seq<string>): (ids: seq<string>)
    ensures forall x :: x in ids <==> x in columns && IsExpertId(x)
    ensures |ids| <= |columns|
    ensures IsSubsequence(ids, columns)
    ensures forall x :: multiset(ids)[x] == (if IsExpertId(x) then multiset(columns)[x] else 0)
  {
    if |columns| == 0 then []
    else
      var init, last := columns[..|columns| - 1], columns[|columns| - 1];
      assert columns == init + [last];
      var rest := ExpertIds(init);
      SubsequenceSnoc(rest, init, last, IsExpertId(last));
      ExpertCountsSnoc(rest, init, last);
      if IsExpertId(last) then rest + [last] else rest
  }

  /** The multiplicity part of `ExpertIds`, one appended column at a time. */
  lemma ExpertCountsSnoc(rest: seq<string>, init: seq<string>, last: string)
    requires forall x :: multiset(rest)[x] == (if IsExpertId(x) then multiset(init)[x] else 0)
    ensures var kept := if IsExpertId(last) then rest + [last] else rest;
      forall x :: multiset(kept)[x] == (if IsExpertId(x) then multiset(init + [last])[x] else 0)
  {
    assert multiset(init + [last]) == multiset(init) + multiset{last};
    assert multiset(rest + [last]) == multiset(rest) + multiset{last};
  }

  // ---------------------------------------------------------------------------------------
  // Question blocks: column ranges and row titles

  /** One row of the survey's question table: its answers occupy the sheet columns
      `start .. end` (both included), and it becomes survey block `number`. */
  datatype Block = Block(number: nat, start: int, end: int)

  /** The number of columns a row with `amt` questions takes: an expected value and a
      variance per question, then the maximum effectiveness. */
  function Width(amts: seq<nat>): nat
  {
    if |amts| == 0 then 0 else Width(amts[..|amts| - 1]) + (2 * amts[|amts| - 1] + 1)
  }

  /** The column bookkeeping of one survey sheet: blocks are numbered on from `first`, the
      first block starts at column 1 (column 0 names the expert), each block spans
      2 * amt + 1 columns and starts right after the previous one ends. */
  method ColumnRanges(amts: seq<nat>, first: nat) returns (blocks: seq<Block>, next: nat)
    ensures |blocks| == |amts| && next == first + |amts|
    ensures forall k :: 0 <= k < |blocks| ==> blocks[k].number == first + k
    ensures forall k :: 0 <= k < |blocks| ==> blocks[k].end - blocks[k].start == 2 * amts[k]
    ensures |blocks| > 0 ==> blocks[0].start == 1
    ensures forall k :: 0 < k < |blocks| ==> blocks[k].start == blocks[k - 1].end + 1
    ensures |blocks| > 0 ==> blocks[|blocks| - 1].end == Width(amts)
  {
    var end := 0;
    next := first;
    blocks := [];
    for row := 0 to |amts|
      invariant |blocks| == row && next == first + row
      invariant end == Width(amts[..row])
      invariant row > 0 ==> blocks[row - 1].end == end
      invariant forall k :: 0 <= k < row ==> blocks[k].number == first + k
      invariant forall k :: 0 <= k < row ==> blocks[k].end - blocks[k].start == 2 * amts[k]
      invariant row > 0 ==> blocks[0].start == 1
      invariant forall k :: 0 < k < row ==> blocks[k].start == blocks[k - 1].end + 1
    {
      assert amts[..row + 1][..row] == amts[..row];
      end := end + (2 * amts[row] + 1);
      var start := end - 2 * amts[row];
      blocks := blocks + [Block(next, start, end)];
      next := next + 1;
    }
    assert amts[..|amts|] == amts;
  }

  /** What each row of a block holds. */
  datatype Title = ExpectedValue | Variance | MaxEffectiveness | ExpertWeights | EffectivenessLower | EffectivenessUpper

  /** The titles of a block with `amt` questions: an expected value and a variance per
      question, then the maximum effectiveness and the expert weights. */
  function BlockTitles(amt: nat): (t: seq<Title>)
    ensures |t| == 2 * amt + 2
    ensures forall q :: 0 <= q < amt ==> t[2 * q] == ExpectedValue && t[2 * q + 1] == Variance
    ensures t[2 * amt] == MaxEffectiveness && t[2 * amt + 1] == ExpertWeights
  {
    QuestionTitles(amt) + [MaxEffectiveness, ExpertWeights]
  }

  function QuestionTitles(amt: nat): (t: seq<Title>)
    ensures |t| == 2 * amt
    ensures forall q :: 0 <= q < amt ==> t[2 * q] == ExpectedValue && t[2 * q + 1] == Variance
  {
    if amt == 0 then [] else QuestionTitles(amt - 1) + [ExpectedValue, Variance]
  }

  /** An expert's weight for a block: an empty cell counts as 1, otherwise truncated to an
      integer (`fillna(1).astype(int)`). */
  function ExpertWeight(cell: Option<real>): (w: int)
    ensures cell.None? ==> w == 1
    ensures cell.Some? && cell.value >= 0.0 ==> 0 <= w && w as real <= cell.value < w as real + 1.0
    ensures cell.Some? && cell.value < 0.0 ==> w <= 0 && w as real - 1.0 < cell.value <= w as real
  {
    match cell
    case None => 1
    case Some(x) => Trunc(x)
  }

  // ---------------------------------------------------------------------------------------
  // Rescaling of expected values

  /** One expert's answers within one block. */
  datatype ExpertColumn = ExpertColumn(
    expected: seq<Option<real>>,
    variance: seq<Option<real>>,
    maxEffectiveness: Option<real>,
    weight: Option<real>)

  predicate AllNan(s: seq<Option<real>>)
  {
    forall i :: 0 <= i < |s| ==> s[i].None?
  }

  /** The largest value, skipping `nan`; None when every value is `nan` (`Series.max`). */
  function MaxValue(s: seq<Option<real>>): (m: Option<real>)
    ensures m.None? <==> AllNan(s)
    ensures m.Some? ==> forall i :: 0 <= i < |s| && s[i].Some? ==> s[i].value <= m.value
    ensures m.Some? ==> exists i :: 0 <= i < |s| && s[i] == m
  {
    if |s| == 0 then None
    else
      var init := s[..|s| - 1];
      var rest := MaxValue(init);
      assert forall i :: 0 <= i < |init| ==> init[i] == s[i];
      match s[|s| - 1]
      case None => rest
      case Some(x) => if rest.None? || x > rest.value then Some(x) else rest
  }

  function Nans(n: nat): (s: seq<Option<real>>)
    ensures |s| == n && AllNan(s)
  {
    seq(n, _ => None)
  }

  /** Every answered value divided by `k`; `nan` stays `nan`. */
  function DivideAll(s: seq<Option<real>>, k: real): (r: seq<Option<real>>)
    requires k != 0.0
    ensures |r| == |s|
    ensures forall i :: 0 <= i < |s| ==> r[i].None? == s[i].None?
    ensures forall i :: 0 <= i < |s| && s[i].Some? ==> r[i].value * k == s[i].value
  {
    var r := seq(|s|, i requires 0 <= i < |s| => if s[i].None? then None else Some(s[i].value / k));
    assert forall i :: 0 <= i < |s| && s[i].Some? ==> r[i].value * k == s[i].value by {
      forall i | 0 <= i < |s| && s[i].Some? ensures r[i].value * k == s[i].value {
        DivCancel(s[i].value, k);
      }
    }
    r
  }

  /** The rescaling of one expert's block: skipped when no expected value or no variance was
      given (the `nan` writes in those branches go to a copy), every cell `nan` when the
      maximum effectiveness is missing, all expected values 0 when the maximum effectiveness
      or the largest expected value is 0, and otherwise every expected value divided by
      max_expected / max_effectiveness. */
  function Rescale(c: ExpertColumn): (r: ExpertColumn)
    ensures |r.expected| == |c.expected| && |r.variance| == |c.variance|
  {
    if AllNan(c.expected) || AllNan(c.variance) then c
    else if c.maxEffectiveness.None? then
      ExpertColumn(Nans(|c.expected|), Nans(|c.variance|), None, None)
    else
      var maxExpected := MaxValue(c.expected).value;
      var maxEffectiveness := c.maxEffectiveness.value;
      if maxEffectiveness == 0.0 || maxExpected == 0.0 then
        c.(expected := seq(|c.expected|, _ => Some(0.0)))
      else
        c.(expected := DivideAll(c.expected, maxExpected / maxEffectiveness))
  }

  /** The rescaling loop over every block and every expert column. */
  method RescaleSurvey(survey: array2<ExpertColumn>)
    modifies survey
    ensures forall b, x :: 0 <= b < survey.Length0 && 0 <= x < survey.Length1 ==>
      survey[b, x] == Rescale(old(survey[b, x]))
  {
    for b := 0 to survey.Length0
      invariant forall b', x :: 0 <= b' < b && 0 <= x < survey.Length1 ==> survey[b', x] == Rescale(old(survey[b', x]))
      invariant forall b', x :: b <= b' < survey.Length0 && 0 <= x < survey.Length1 ==> survey[b', x] == old(survey[b', x])
    {
      for x := 0 to survey.Length1
        invariant forall b', x' :: 0 <= b' < b && 0 <= x' < survey.Length1 ==> survey[b', x'] == Rescale(old(survey[b', x']))
        invariant forall x' :: 0 <= x' < x ==> survey[b, x'] == Rescale(old(survey[b, x']))
        invariant forall b', x' :: b <= b' < survey.Length0 && 0 <= x' < survey.Length1 && (b' > b || x' >= x) ==>
          survey[b', x'] == old(survey[b', x'])
      {
        survey[b, x] := Rescale(survey[b, x]);
      }
    }
  }

  /** An expert who answered no expected value, or no variance, is left as is. */
  lemma RescaleSkipsUnanswered(c: ExpertColumn)
    requires AllNan(c.expected) || AllNan(c.variance)
    ensures Rescale(c) == c
  {
  }

  /** A missing maximum effectiveness blanks the expert's whole block. */
  lemma RescaleMissingMaximum(c: ExpertColumn)
    requires !AllNan(c.expected) && !AllNan(c.variance) && c.maxEffectiveness.None?
    ensures AllNan(Rescale(c).expected) && AllNan(Rescale(c).variance)
    ensures Rescale(c).maxEffectiveness.None? && Rescale(c).weight.None?
  {
  }

  /** A zero maximum effectiveness, or all expected values zero, sets every expected value
      (answered or not) to 0 and leaves the rest of the block alone. */
  lemma RescaleToZero(c: ExpertColumn)
    requires !AllNan(c.expected) && !AllNan(c.variance) && c.maxEffectiveness.Some?
    requires c.maxEffectiveness.value == 0.0 || MaxValue(c.expected).value == 0.0
    ensures forall i :: 0 <= i < |c.expected| ==> Rescale(c).expected[i] == Some(0.0)
    ensures Rescale(c).variance == c.variance && Rescale(c).maxEffectiveness == c.maxEffectiveness
    ensures Rescale(c).weight == c.weight
  {
  }

  /** With a positive maximum effectiveness and a positive largest expected value, the block's
      largest expected value becomes the maximum effectiveness, and the other rows are
      unchanged. */
  lemma RescaleReachesMaximum(c: ExpertColumn)
    requires !AllNan(c.expected) && !AllNan(c.variance) && c.maxEffectiveness.Some?
    requires c.maxEffectiveness.value > 0.0 && MaxValue(c.expected).value > 0.0
    ensures MaxValue(Rescale(c).expected) == c.maxEffectiveness
    ensures Rescale(c).variance == c.variance && Rescale(c).maxEffectiveness == c.maxEffectiveness
    ensures Rescale(c).weight == c.weight
  {
    var e, m := c.maxEffectiveness.value, MaxValue(c.expected).value;
    var k := m / e;
    var scaled := DivideAll(c.expected, k);
    assert Rescale(c) == c.(expected := scaled);
    MaxOfDivided(c.expected, k);
    RatioCancel(m, e);
  }

  /** Each answered value of `r` is the matching value of `s` times e / m; `nan` stays `nan`. */
  predicate Proportional(r: seq<Option<real>>, s: seq<Option<real>>, m: real, e: real)
  {
    |r| == |s|
    && (forall i :: 0 <= i < |s| ==> r[i].None? == s[i].None?)
    && (forall i :: 0 <= i < |s| && s[i].Some? ==> r[i].value * m == s[i].value * e)
  }

  /** With nonzero maxima, rescaling multiplies every answered expected value by
      max_effectiveness / max_expected and keeps `nan` answers `nan`. */
  lemma RescaleScalesAnswers(c: ExpertColumn)
    requires !AllNan(c.expected) && !AllNan(c.variance) && c.maxEffectiveness.Some?
    requires c.maxEffectiveness.value != 0.0 && MaxValue(c.expected).value != 0.0
    ensures Proportional(Rescale(c).expected, c.expected, MaxValue(c.expected).value, c.maxEffectiveness.value)
  {
    var e, m := c.maxEffectiveness.value, MaxValue(c.expected).value;
    assert Rescale(c).expected == DivideAll(c.expected, m / e);
    DivideAllProportional(c.expected, m, e);
  }

  lemma DivideAllProportional(s: seq<Option<real>>, m: real, e: real)
    requires m != 0.0 && e != 0.0
    ensures Proportional(DivideAll(s, m / e), s, m, e)
  {
    var r := DivideAll(s, m / e);
    forall i | 0 <= i < |s| && s[i].Some?
      ensures r[i].value * m == s[i].value * e
    {
      ScaleByRatio(r[i].value, s[i].value, m, e);
    }
  }

  lemma ScaleByRatio(y: real, x: real, m: real, e: real)
    requires m != 0.0 && e != 0.0 && y * (m / e) == x
    ensures y * m == x * e
  {
    calc {
      y * m;
      y * ((m / e) * e);
      (y * (m / e)) * e;
      x * e;
    }
  }

  lemma Unscale(y: real, x: real, k: real)
    requires k != 0.0 && y * k == x
    ensures y == x / k
  {
  }

  lemma RatioCancel(m: real, e: real)
    requires m > 0.0 && e > 0.0
    ensures m / (m / e) == e
  {
    var k := m / e;
    assert k * e == m;
    assert e * k == m;
  }

  /** Dividing by a positive number divides the maximum. */
  lemma {:induction false} MaxOfDivided(s: seq<Option<real>>, k: real)
    requires k > 0.0 && !AllNan(s)
    ensures MaxValue(DivideAll(s, k)) == Some(MaxValue(s).value / k)
    decreases |s|
  {
    var n := |s|;
    var init := s[..n - 1];
    assert DivideAll(s, k)[..n - 1] == DivideAll(init, k);
    if !AllNan(init) {
      MaxOfDivided(init, k);
      if s[n - 1].Some? {
        var x, r := s[n - 1].value, MaxValue(init).value;
        if x > r {
          DivStrict(r, x, k);
        } else {
          DivMonotone(x, r, k);
        }
      }
    } else {
      assert forall i :: 0 <= i < n - 1 ==> s[i].None? by {
        forall i | 0 <= i < n - 1 ensures s[i].None? {
          assert init[i] == s[i];
        }
      }
      var j :| 0 <= j < n && s[j].Some?;
      assert j == n - 1;
    }
  }

  lemma DivMonotone(x: real, y: real, k: real)
    requires x <= y && k > 0.0
    ensures x / k <= y / k
  {
  }

  lemma DivStrict(x: real, y: real, k: real)
    requires x < y && k > 0.0
    ensures x / k < y / k
  {
  }

  // ---------------------------------------------------------------------------------------
  // Effectiveness bounds

  /** The lower effectiveness bound of one expert: 100 - variance when expected + variance / 2
      exceeds 100, otherwise expected - variance / 2; then negatives become 0. */
  function LowerBound(expected: Option<real>, variance: Option<real>): (r: Option<real>)
    ensures r.None? <==> expected.None? || variance.None?
    ensures r.Some? ==> r.value >= 0.0
  {
    if expected.None? || variance.None? then None
    else
      var e, v := expected.value, variance.value;
      var x := if e + v / 2.0 > 100.0 then 100.0 - v else e - v / 2.0;
      Some(if x < 0.0 then 0.0 else x)
  }

  /** The upper effectiveness bound of one expert: the variance itself when
      expected - variance / 2 is negative, otherwise expected + variance / 2; then values
      above 100 become 100. */
  function UpperBound(expected: Option<real>, variance: Option<real>): (r: Option<real>)
    ensures r.None? <==> expected.None? || variance.None?
    ensures r.Some? ==> r.value <= 100.0
  {
    if expected.None? || variance.None? then None
    else
      var e, v := expected.value, variance.value;
      var x := if e - v / 2.0 < 0.0 then v else e + v / 2.0;
      Some(if x > 100.0 then 100.0 else x)
  }

  /** Away from both edges the bounds are expected -/+ half the variance. */
  lemma BoundsInterior(e: real, v: real)
    requires 0.0 <= e - v / 2.0 && e + v / 2.0 <= 100.0
    ensures LowerBound(Some(e), Some(v)) == Some(e - v / 2.0)
    ensures UpperBound(Some(e), Some(v)) == Some(e + v / 2.0)
  {
  }

  /** Past 100 the lower bound is max(0, 100 - variance); below 0 the upper bound is
      min(100, variance). */
  lemma BoundsAtEdges(e: real, v: real)
    ensures e + v / 2.0 > 100.0 ==> LowerBound(Some(e), Some(v)) == Some(if 100.0 - v < 0.0 then 0.0 else 100.0 - v)
    ensures e - v / 2.0 < 0.0 ==> UpperBound(Some(e), Some(v)) == Some(if v > 100.0 then 100.0 else v)
    ensures e + v / 2.0 > 100.0 && e - v / 2.0 >= 0.0 ==> UpperBound(Some(e), Some(v)) == Some(100.0)
    ensures e - v / 2.0 < 0.0 && e + v / 2.0 <= 100.0 ==> LowerBound(Some(e), Some(v)) == Some(0.0)
  {
  }

  /** A non-negative variance never yields a lower bound above the upper bound. */
  lemma BoundsOrdered(e: real, v: real)
    requires v >= 0.0
    ensures LowerBound(Some(e), Some(v)).value <= UpperBound(Some(e), Some(v)).value
  {
  }

  /** The bound rows of one question: for each expert, the lower and upper bound from the
      expected-value and variance rows above them. */
  method QuestionBounds(expected: seq<Option<real>>, variance: seq<Option<real>>)
    returns (lower: seq<Option<real>>, upper: seq<Option<real>>)
    requires |expected| == |variance|
    ensures |lower| == |upper| == |expected|
    ensures forall x :: 0 <= x < |expected| ==> lower[x] == LowerBound(expected[x], variance[x])
    ensures forall x :: 0 <= x < |expected| ==> upper[x] == UpperBound(expected[x], variance[x])
  {
    lower, upper := [], [];
    for x := 0 to |expected|
      invariant |lower| == |upper| == x
      invariant forall y :: 0 <= y < x ==> lower[y] == LowerBound(expected[y], variance[y])
      invariant forall y :: 0 <= y < x ==> upper[y] == UpperBound(expected[y], variance[y])
    {
      lower := lower + [LowerBound(expected[x], variance[x])];
      upper := upper + [UpperBound(expected[x], variance[x])];
    }
  }
}
