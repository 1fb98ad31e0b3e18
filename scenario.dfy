/** `build_scenario`: activity contributions scaled by a development scenario and then
    corrected per (pressure, area) group. */
module Scenario {
  import opened Numeric

  /** One row of the activity-contributions table: how much `activity` contributes to
      `pressure` in `area`. */
  datatype ActContribution = ActContribution(activity: int, pressure: int, area: int, value: real)

  /** One row of the development-scenarios table, with the chosen scenario's column. */
  datatype DevScenario = DevScenario(activity: int, multiplier: real)

  /** The chosen scenario's multiplier for an activity: the first row's, or 1 when the
      activity has no row. */
  function DevMultiplier(scenarios: seq<DevScenario>, activity: int): real
  {
    if |scenarios| == 0 then 1.0
    else if scenarios[0].activity == activity then scenarios[0].multiplier
    else DevMultiplier(scenarios[1..], activity)
  }

  lemma {:induction false} DevMultiplierMissing(scenarios: seq<DevScenario>, activity: int)
    requires forall k :: 0 <= k < |scenarios| ==> scenarios[k].activity != activity
    ensures DevMultiplier(scenarios, activity) == 1.0
  {
    if |scenarios| > 0 {
      DevMultiplierMissing(scenarios[1..], activity);
    }
  }

  lemma {:induction false} DevMultiplierFirst(scenarios: seq<DevScenario>, activity: int, k: nat)
    requires k < |scenarios| && scenarios[k].activity == activity
    requires forall j :: 0 <= j < k ==> scenarios[j].activity != activity
    ensures DevMultiplier(scenarios, activity) == scenarios[k].multiplier
  {
    if k > 0 {
      DevMultiplierFirst(scenarios[1..], activity, k - 1);
    }
  }

  /** The value a row adds to the total of group (pressure, area). */
  function InGroup(pressure: int, area: int): ActContribution -> real
  {
    (r: ActContribution) => if r.pressure == pressure && r.area == area then r.value else 0.0
  }

  /** The total value of the rows of group (pressure, area). */
  function GroupSum(rows: seq<ActContribution>, pressure: int, area: int): real
  {
    SumBy(rows, InGroup(pressure, area))
  }

  /** A total read from a table of totals; a group that is absent sums to 0. */
  function Get(m: map<(int, int), real>, key: (int, int)): real
  {
    if key in m then m[key] else 0.0
  }

  /** Every row's value multiplied by its activity's scenario multiplier. */
  function Scaled(rows: seq<ActContribution>, scenarios: seq<DevScenario>): (s: seq<ActContribution>)
    ensures |s| == |rows|
  {
    seq(|rows|, i requires 0 <= i < |rows| => rows[i].(value := rows[i].value * DevMultiplier(scenarios, rows[i].activity)))
  }

  /** The correction of group (pressure, area): 1 plus the scaled total minus the original. */
  function Factor(original: seq<ActContribution>, scaled: seq<ActContribution>, pressure: int, area: int): real
  {
    1.0 + GroupSum(scaled, pressure, area) - GroupSum(original, pressure, area)
  }

  /** Every row of `s` multiplied by its group's correction. */
  function Normalized(s: seq<ActContribution>, original: seq<ActContribution>, scaled: seq<ActContribution>): (n: seq<ActContribution>)
    ensures |n| == |s|
  {
    seq(|s|, i requires 0 <= i < |s| => s[i].(value := s[i].value * Factor(original, scaled, s[i].pressure, s[i].area)))
  }

  /** The table `build_scenario` leaves behind. */
  function ScenarioOf(rows: seq<ActContribution>, scenarios: seq<DevScenario>): seq<ActContribution>
  {
    var s := Scaled(rows, scenarios);
    Normalized(s, rows, s)
  }

  // ---------------------------------------------------------------------------------------
  // The methods

  /** The total of every (pressure, area) group, in one pass over the table. */
  method GroupSums(rows: seq<ActContribution>) returns (m: map<(int, int), real>)
    ensures forall p, a :: Get(m, (p, a)) == GroupSum(rows, p, a)
  {
    m := map[];
    for i := 0 to |rows|
      invariant forall p, a :: Get(m, (p, a)) == GroupSum(rows[..i], p, a)
    {
      var r := rows[i];
      assert rows[..i + 1][..i] == rows[..i];
      m := m[(r.pressure, r.area) := Get(m, (r.pressure, r.area)) + r.value];
    }
    assert rows[..|rows|] == rows;
  }

  /** The first pass: every value multiplied by its activity's scenario multiplier. */
  method ScaleByScenario(table: array<ActContribution>, scenarios: seq<DevScenario>)
    modifies table
    ensures table[..] == Scaled(old(table[..]), scenarios)
  {
    ghost var original := table[..];
    for i := 0 to table.Length
      invariant forall j :: 0 <= j < i ==> table[j] == Scaled(original, scenarios)[j]
      invariant forall j :: i <= j < table.Length ==> table[j] == original[j]
    {
      table[i] := table[i].(value := table[i].value * DevMultiplier(scenarios, table[i].activity));
    }
  }

  /** The second pass: every value multiplied by 1 + its group's scaled total − its group's
      original total. */
  method Normalize(table: array<ActContribution>, sums: map<(int, int), real>, actual: map<(int, int), real>, ghost original: seq<ActContribution>)
    modifies table
    requires forall p, a :: Get(sums, (p, a)) == GroupSum(table[..], p, a)
    requires forall p, a :: Get(actual, (p, a)) == GroupSum(original, p, a)
    ensures table[..] == Normalized(old(table[..]), original, old(table[..]))
  {
    ghost var scaled := table[..];
    for i := 0 to table.Length
      invariant forall j :: 0 <= j < i ==> table[j] == Normalized(scaled, original, scaled)[j]
      invariant forall j :: i <= j < table.Length ==> table[j] == scaled[j]
    {
      var r := table[i];
      var factor := 1.0 + Get(sums, (r.pressure, r.area)) - Get(actual, (r.pressure, r.area));
      assert r == scaled[i] && factor == Factor(original, scaled, r.pressure, r.area);
      table[i] := r.(value := r.value * factor);
      assert table[i] == Normalized(scaled, original, scaled)[i];
    }
  }

  /** `build_scenario`: overwrites the table's values in place, first scaling each by its
      activity's multiplier, then each by its group's correction. */
  method BuildScenario(table: array<ActContribution>, scenarios: seq<DevScenario>)
    modifies table
    ensures table[..] == ScenarioOf(old(table[..]), scenarios)
  {
    ghost var original := table[..];
    var actual := GroupSums(table[..]);
    ScaleByScenario(table, scenarios);
    var sums := GroupSums(table[..]);
    Normalize(table, sums, actual, original);
  }

  // ---------------------------------------------------------------------------------------
  // Properties

  /** The scenario changes only the values. */
  lemma ScenarioKeepsKeys(rows: seq<ActContribution>, scenarios: seq<DevScenario>)
    ensures |ScenarioOf(rows, scenarios)| == |rows|
    ensures forall i :: 0 <= i < |rows| ==>
      var r := ScenarioOf(rows, scenarios)[i];
      r.activity == rows[i].activity && r.pressure == rows[i].pressure && r.area == rows[i].area
  {
  }

  /** An activity without a scenario row keeps its value up to its group's correction. */
  lemma MissingScenarioIsNeutral(rows: seq<ActContribution>, scenarios: seq<DevScenario>, i: nat)
    requires i < |rows|
    requires forall k :: 0 <= k < |scenarios| ==> scenarios[k].activity != rows[i].activity
    ensures Scaled(rows, scenarios)[i] == rows[i]
  {
    DevMultiplierMissing(scenarios, rows[i].activity);
  }

  /** Multipliers of 1 leave the table unchanged. */
  lemma NeutralScenario(rows: seq<ActContribution>, scenarios: seq<DevScenario>)
    requires forall i :: 0 <= i < |rows| ==> DevMultiplier(scenarios, rows[i].activity) == 1.0
    ensures ScenarioOf(rows, scenarios) == rows
  {
    var s := Scaled(rows, scenarios);
    assert s == rows;
  }

  /** Correcting by group multiplies each group's total by its correction. */
  lemma NormalizedGroupSum(s: seq<ActContribution>, original: seq<ActContribution>, scaled: seq<ActContribution>, p: int, a: int)
    ensures GroupSum(Normalized(s, original, scaled), p, a) == GroupSum(s, p, a) * Factor(original, scaled, p, a)
  {
    NormalizedRows(s, original, scaled, p, a);
    GroupSumTimes(s, Normalized(s, original, scaled), p, a, Factor(original, scaled, p, a));
  }

  lemma NormalizedRows(s: seq<ActContribution>, original: seq<ActContribution>, scaled: seq<ActContribution>, p: int, a: int)
    ensures forall i :: 0 <= i < |s| ==>
      InGroup(p, a)(Normalized(s, original, scaled)[i]) == InGroup(p, a)(s[i]) * Factor(original, scaled, p, a)
  {
    var t := Normalized(s, original, scaled);
    forall i | 0 <= i < |s|
      ensures InGroup(p, a)(t[i]) == InGroup(p, a)(s[i]) * Factor(original, scaled, p, a)
    {
      var r := s[i];
      assert t[i] == r.(value := r.value * Factor(original, scaled, r.pressure, r.area));
    }
  }

  /** A table whose group rows are `f` times those of `s` has `f` times the group total. */
  lemma {:induction false} GroupSumTimes(s: seq<ActContribution>, t: seq<ActContribution>, p: int, a: int, f: real)
    requires |t| == |s|
    requires forall i :: 0 <= i < |s| ==> InGroup(p, a)(t[i]) == InGroup(p, a)(s[i]) * f
    ensures GroupSum(t, p, a) == GroupSum(s, p, a) * f
  {
    if |s| > 0 {
      var n := |s| - 1;
      assert forall i :: 0 <= i < n ==> s[..n][i] == s[i] && t[..n][i] == t[i];
      GroupSumTimes(s[..n], t[..n], p, a, f);
      DistributeRight(GroupSum(s[..n], p, a), InGroup(p, a)(s[n]), f);
    }
  }

  lemma DistributeRight(x: real, y: real, f: real)
    ensures x * f + y * f == (x + y) * f
  {}

  /** After `build_scenario`, a group's total is its scaled total S times 1 + S − A, where A
      is its total before; in particular a group whose scaled total equals its original
      total keeps that total. */
  lemma ScenarioGroupSum(rows: seq<ActContribution>, scenarios: seq<DevScenario>, p: int, a: int)
    ensures var S, A := GroupSum(Scaled(rows, scenarios), p, a), GroupSum(rows, p, a);
      GroupSum(ScenarioOf(rows, scenarios), p, a) == S * (1.0 + S - A)
  {
    var s := Scaled(rows, scenarios);
    NormalizedGroupSum(s, rows, s, p, a);
  }
}
