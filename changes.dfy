/** `build_changes`: the per-area pressure and state level tables the measures leave behind,
    and the GES threshold tables. */
module Changes {
  import opened Wrappers
  import opened Numeric
  import opened Links
  import opened Cases
  import opened Scenario

  /** One row of the pressure-contributions table: the average share of `pressure` in
      `state`. */
  datatype PressureContribution = PressureContribution(state: int, pressure: int, average: real)

  /** One row of the thresholds table: the GES thresholds of a state in an area. */
  datatype Threshold = Threshold(state: int, area: int, pr: real, ten: real, twentyFive: real, fifty: real)

  /** The four threshold columns `PR`, `10`, `25` and `50`. */
  datatype GesColumn = PR | Ten | TwentyFive | Fifty

  datatype ChangeError = UnknownPressure(pressure: int)

  /** The tables `build_changes` adds: one row per pressure or state id, one column per area. */
  datatype Changes = Changes(pressure: array2<real>, state: array2<real>, pr: array2<real>, ten: array2<real>, twentyFive: array2<real>, fifty: array2<real>)

  function Level(t: Threshold, col: GesColumn): real
  {
    match col
    case PR => t.pr
    case Ten => t.ten
    case TwentyFive => t.twentyFive
    case Fifty => t.fifty
  }

  /** The areas of the cases, in order of first appearance: the tables' columns. */
  function Areas(cases: seq<Case>): (areas: seq<int>)
    ensures forall a, b :: 0 <= a < b < |areas| ==> areas[a] != areas[b]
  {
    Distinct(seq(|cases|, i requires 0 <= i < |cases| => cases[i].area))
  }

  // ---------------------------------------------------------------------------------------
  // Lookups

  predicate Matches(l: Link, c: Case)
  {
    l.measure == c.measure && l.activity == c.activity && l.pressure == c.pressure && l.state == c.state
  }

  /** The first link with the case's (measure, activity, pressure, state). */
  function FindLink(links: seq<Link>, c: Case): Option<Link>
  {
    if |links| == 0 then None
    else if Matches(links[0], c) then Some(links[0])
    else FindLink(links[1..], c)
  }

  /** The first activity-contribution value of (activity, pressure, area), or 0 when the
      table has none. */
  function ContributionOf(acts: seq<ActContribution>, activity: int, pressure: int, area: int): real
  {
    if |acts| == 0 then 0.0
    else if acts[0].activity == activity && acts[0].pressure == pressure && acts[0].area == area then acts[0].value
    else ContributionOf(acts[1..], activity, pressure, area)
  }

  /** The first threshold row of (state, area). */
  function FindThreshold(thresholds: seq<Threshold>, state: int, area: int): Option<Threshold>
  {
    if |thresholds| == 0 then None
    else if thresholds[0].state == state && thresholds[0].area == area then Some(thresholds[0])
    else FindThreshold(thresholds[1..], state, area)
  }

  /** The position of the first pressure row with id `p` (`.index[0]`). */
  function FirstRow(ids: seq<int>, p: int): (k: nat)
    requires p in ids
    ensures k < |ids| && ids[k] == p
    ensures forall j :: 0 <= j < k ==> ids[j] != p
  {
    if ids[0] == p then 0 else 1 + FirstRow(ids[1..], p)
  }

  // ---------------------------------------------------------------------------------------
  // What each case and each pressure contribution subtracts

  /** A case's reduction: the link's reduction times its multiplier, coverage and
      implementation. */
  function CaseReduction(l: Link, c: Case): real
  {
    l.reduction * (l.multiplier * c.coverage * c.implementation)
  }

  /** What a case subtracts from the level of pressure `p` in `area`. */
  function PressureTerm(links: seq<Link>, acts: seq<ActContribution>, area: int, p: int): Case -> real
  {
    (c: Case) =>
      var l := FindLink(links, c);
      if c.area == area && c.pressure == p && l.Some? then CaseReduction(l.value, c) * ContributionOf(acts, c.activity, c.pressure, area) else 0.0
  }

  /** What a case subtracts directly from the level of state `s` in `area`. */
  function StateTerm(links: seq<Link>, area: int, s: int): Case -> real
  {
    (c: Case) =>
      var l := FindLink(links, c);
      if c.area == area && c.state == s && l.Some? then CaseReduction(l.value, c) else 0.0
  }

  /** What a pressure contribution of state `s` subtracts, given the pressure levels. */
  function ContributionTerm(level: (int, int) -> real, area: int, s: int): PressureContribution -> real
  {
    (pc: PressureContribution) => if pc.state == s then pc.average * level(pc.pressure, area) else 0.0
  }

  /** The level of pressure `p` in `area` after every case. */
  function PressureLevel(cases: seq<Case>, links: seq<Link>, acts: seq<ActContribution>, p: int, area: int): real
  {
    1.0 - SumBy(cases, PressureTerm(links, acts, area, p))
  }

  function PressureLevels(cases: seq<Case>, links: seq<Link>, acts: seq<ActContribution>): (int, int) -> real
  {
    (p: int, area: int) => PressureLevel(cases, links, acts, p, area)
  }

  /** The level of state `s` in `area`: the direct cases subtracted, then every contribution
      of a pressure to the state times that pressure's level. */
  function StateLevel(cases: seq<Case>, links: seq<Link>, acts: seq<ActContribution>, pcs: seq<PressureContribution>, s: int, area: int): real
  {
    1.0 - SumBy(cases, StateTerm(links, area, s)) - SumBy(pcs, ContributionTerm(PressureLevels(cases, links, acts), area, s))
  }

  /** The GES threshold of state `s` in `area`: the first row's, or 1. */
  function GesLevel(thresholds: seq<Threshold>, s: int, area: int, col: GesColumn): real
  {
    var t := FindThreshold(thresholds, s, area);
    if t.Some? then Level(t.value, col) else 1.0
  }

  /** Whether a pressure contribution of a tabled state names a pressure the pressure table
      lacks (the lookup that raises). */
  predicate MissingPressure(pressureIds: seq<int>, stateIds: seq<int>, pcs: seq<PressureContribution>)
  {
    exists k :: 0 <= k < |pcs| && pcs[k].state in stateIds && pcs[k].pressure !in pressureIds
  }

  // ---------------------------------------------------------------------------------------
  // The methods

  /** A table of the given shape filled with 1.0. */
  method NewTable(rows: nat, cols: nat) returns (t: array2<real>)
    ensures fresh(t) && t.Length0 == rows && t.Length1 == cols
    ensures forall i, a :: 0 <= i < rows && 0 <= a < cols ==> t[i, a] == 1.0
  {
    t := new real[rows, cols]((i, a) => 1.0);
  }

  /** The cases of one pressure row in one area, subtracted from its cell one by one. */
  method PressureCell(t: array2<real>, i: nat, a: nat, p: int, area: int, cases: seq<Case>, links: seq<Link>, acts: seq<ActContribution>)
    modifies t
    requires i < t.Length0 && a < t.Length1
    ensures t[i, a] == old(t[i, a]) - SumBy(cases, PressureTerm(links, acts, area, p))
    ensures forall i', a' :: 0 <= i' < t.Length0 && 0 <= a' < t.Length1 && (i' != i || a' != a) ==> t[i', a'] == old(t[i', a'])
  {
    for k := 0 to |cases|
      invariant t[i, a] == old(t[i, a]) - SumBy(cases[..k], PressureTerm(links, acts, area, p))
      invariant forall i', a' :: 0 <= i' < t.Length0 && 0 <= a' < t.Length1 && (i' != i || a' != a) ==> t[i', a'] == old(t[i', a'])
    {
      assert cases[..k + 1][..k] == cases[..k];
      var c := cases[k];
      if c.area == area && c.pressure == p {
        var row := FindLink(links, c);
        if row.Some? {
          var l := row.value;
          var multiplier := l.multiplier * c.coverage * c.implementation;
          var reduction := l.reduction * multiplier;
          var contribution := ContributionOf(acts, c.activity, c.pressure, area);
          t[i, a] := t[i, a] - reduction * contribution;
        }
      }
    }
    assert cases[..|cases|] == cases;
  }

  /** The first loop nest: every area, every pressure row, every case of that pressure in
      that area. */
  method SubtractPressureCases(t: array2<real>, pressureIds: seq<int>, areas: seq<int>, cases: seq<Case>, links: seq<Link>, acts: seq<ActContribution>)
    modifies t
    requires t.Length0 == |pressureIds| && t.Length1 == |areas|
    ensures forall i, a :: 0 <= i < |pressureIds| && 0 <= a < |areas| ==>
      t[i, a] == old(t[i, a]) - SumBy(cases, PressureTerm(links, acts, areas[a], pressureIds[i]))
  {
    for a := 0 to |areas|
      invariant forall i', a' :: 0 <= i' < |pressureIds| && 0 <= a' < |areas| ==>
        t[i', a'] == old(t[i', a']) - (if a' < a then SumBy(cases, PressureTerm(links, acts, areas[a'], pressureIds[i'])) else 0.0)
    {
      for i := 0 to |pressureIds|
        invariant forall i', a' :: 0 <= i' < |pressureIds| && 0 <= a' < |areas| ==>
          t[i', a'] == old(t[i', a']) - (if a' < a || (a' == a && i' < i) then SumBy(cases, PressureTerm(links, acts, areas[a'], pressureIds[i'])) else 0.0)
      {
        PressureCell(t, i, a, pressureIds[i], areas[a], cases, links, acts);
      }
    }
  }

  /** The direct cases of one state row in one area, subtracted from its cell one by one. */
  method StateCell(t: array2<real>, j: nat, a: nat, s: int, area: int, cases: seq<Case>, links: seq<Link>)
    modifies t
    requires j < t.Length0 && a < t.Length1
    ensures t[j, a] == old(t[j, a]) - SumBy(cases, StateTerm(links, area, s))
    ensures forall j', a' :: 0 <= j' < t.Length0 && 0 <= a' < t.Length1 && (j' != j || a' != a) ==> t[j', a'] == old(t[j', a'])
  {
    for k := 0 to |cases|
      invariant t[j, a] == old(t[j, a]) - SumBy(cases[..k], StateTerm(links, area, s))
      invariant forall j', a' :: 0 <= j' < t.Length0 && 0 <= a' < t.Length1 && (j' != j || a' != a) ==> t[j', a'] == old(t[j', a'])
    {
      assert cases[..k + 1][..k] == cases[..k];
      var c := cases[k];
      if c.area == area && c.state == s {
        var row := FindLink(links, c);
        if row.Some? {
          var l := row.value;
          var multiplier := l.multiplier * c.coverage * c.implementation;
          t[j, a] := t[j, a] - l.reduction * multiplier;
        }
      }
    }
    assert cases[..|cases|] == cases;
  }

  /** The second loop nest: every area, every state row, every case of that state in that
      area. */
  method SubtractStateCases(t: array2<real>, stateIds: seq<int>, areas: seq<int>, cases: seq<Case>, links: seq<Link>)
    modifies t
    requires t.Length0 == |stateIds| && t.Length1 == |areas|
    ensures forall j, a :: 0 <= j < |stateIds| && 0 <= a < |areas| ==>
      t[j, a] == old(t[j, a]) - SumBy(cases, StateTerm(links, areas[a], stateIds[j]))
  {
    for a := 0 to |areas|
      invariant forall j', a' :: 0 <= j' < |stateIds| && 0 <= a' < |areas| ==>
        t[j', a'] == old(t[j', a']) - (if a' < a then SumBy(cases, StateTerm(links, areas[a'], stateIds[j'])) else 0.0)
    {
      for j := 0 to |stateIds|
        invariant forall j', a' :: 0 <= j' < |stateIds| && 0 <= a' < |areas| ==>
          t[j', a'] == old(t[j', a']) - (if a' < a || (a' == a && j' < j) then SumBy(cases, StateTerm(links, areas[a'], stateIds[j'])) else 0.0)
      {
        StateCell(t, j, a, stateIds[j], areas[a], cases, links);
      }
    }
  }

  /** The pressure contributions of one state row in one area: each subtracts its average
      times the current level of its pressure in that area. */
  method ContributionCell(t: array2<real>, pressure: array2<real>, j: nat, a: nat, s: int, area: int, pressureIds: seq<int>, pcs: seq<PressureContribution>, ghost level: (int, int) -> real)
    modifies t
    requires t != pressure
    requires j < t.Length0 && a < t.Length1 && pressure.Length0 == |pressureIds| && a < pressure.Length1
    requires forall k :: 0 <= k < |pcs| && pcs[k].state == s ==> pcs[k].pressure in pressureIds
    requires forall i :: 0 <= i < |pressureIds| ==> pressure[i, a] == level(pressureIds[i], area)
    ensures t[j, a] == old(t[j, a]) - SumBy(pcs, ContributionTerm(level, area, s))
    ensures forall j', a' :: 0 <= j' < t.Length0 && 0 <= a' < t.Length1 && (j' != j || a' != a) ==> t[j', a'] == old(t[j', a'])
  {
    for k := 0 to |pcs|
      invariant t[j, a] == old(t[j, a]) - SumBy(pcs[..k], ContributionTerm(level, area, s))
      invariant forall j', a' :: 0 <= j' < t.Length0 && 0 <= a' < t.Length1 && (j' != j || a' != a) ==> t[j', a'] == old(t[j', a'])
    {
      assert pcs[..k + 1][..k] == pcs[..k];
      var pc := pcs[k];
      if pc.state == s {
        var row := FirstRow(pressureIds, pc.pressure);
        var reduction := pressure[row, a];
        t[j, a] := t[j, a] - pc.average * reduction;
      }
    }
    assert pcs[..|pcs|] == pcs;
  }

  /** The third loop nest: every area, every state row, every pressure contribution of that
      state. */
  method SubtractContributions(t: array2<real>, pressure: array2<real>, stateIds: seq<int>, pressureIds: seq<int>, areas: seq<int>, pcs: seq<PressureContribution>, ghost level: (int, int) -> real)
    modifies t
    requires t != pressure
    requires t.Length0 == |stateIds| && t.Length1 == |areas| && pressure.Length0 == |pressureIds| && pressure.Length1 == |areas|
    requires !MissingPressure(pressureIds, stateIds, pcs)
    requires forall i, a :: 0 <= i < |pressureIds| && 0 <= a < |areas| ==> pressure[i, a] == level(pressureIds[i], areas[a])
    ensures forall j, a :: 0 <= j < |stateIds| && 0 <= a < |areas| ==>
      t[j, a] == old(t[j, a]) - SumBy(pcs, ContributionTerm(level, areas[a], stateIds[j]))
  {
    for a := 0 to |areas|
      invariant forall j', a' :: 0 <= j' < |stateIds| && 0 <= a' < |areas| ==>
        t[j', a'] == old(t[j', a']) - (if a' < a then SumBy(pcs, ContributionTerm(level, areas[a'], stateIds[j'])) else 0.0)
    {
      for j := 0 to |stateIds|
        invariant forall j', a' :: 0 <= j' < |stateIds| && 0 <= a' < |areas| ==>
          t[j', a'] == old(t[j', a']) - (if a' < a || (a' == a && j' < j) then SumBy(pcs, ContributionTerm(level, areas[a'], stateIds[j'])) else 0.0)
      {
        ContributionCell(t, pressure, j, a, stateIds[j], areas[a], pressureIds, pcs, level);
      }
    }
  }

  /** One GES table: 1.0 everywhere, overwritten from the first threshold row of each
      (state, area) that has one. */
  method GesTable(stateIds: seq<int>, areas: seq<int>, thresholds: seq<Threshold>, col: GesColumn) returns (t: array2<real>)
    ensures fresh(t) && t.Length0 == |stateIds| && t.Length1 == |areas|
    ensures forall j, a :: 0 <= j < |stateIds| && 0 <= a < |areas| ==> t[j, a] == GesLevel(thresholds, stateIds[j], areas[a], col)
  {
    t := NewTable(|stateIds|, |areas|);
    for a := 0 to |areas|
      invariant forall j', a' :: 0 <= j' < |stateIds| && 0 <= a' < |areas| ==>
        t[j', a'] == if a' < a then GesLevel(thresholds, stateIds[j'], areas[a'], col) else 1.0
    {
      for j := 0 to |stateIds|
        invariant forall j', a' :: 0 <= j' < |stateIds| && 0 <= a' < |areas| ==>
          t[j', a'] == if a' < a || (a' == a && j' < j) then GesLevel(thresholds, stateIds[j'], areas[a'], col) else 1.0
      {
        var row := FindThreshold(thresholds, stateIds[j], areas[a]);
        if row.Some? {
          t[j, a] := Level(row.value, col);
        }
      }
    }
  }

  /** `build_changes`: raises when a pressure contribution of a tabled state names an
      unknown pressure (and there is at least one area); otherwise the pressure and state
      level tables and the four GES tables, over the areas of the cases. */
  method BuildChanges(cases: seq<Case>, links: seq<Link>, pressureIds: seq<int>, stateIds: seq<int>, acts: seq<ActContribution>, pcs: seq<PressureContribution>, thresholds: seq<Threshold>)
    returns (r: Result<Changes, ChangeError>)
    ensures r.Failure? <==> |Areas(cases)| > 0 && MissingPressure(pressureIds, stateIds, pcs)
    ensures r.Success? ==> var ch, areas := r.value, Areas(cases);
      fresh(ch.pressure) && fresh(ch.state)
      && ch.pressure.Length0 == |pressureIds| && ch.pressure.Length1 == |areas|
      && ch.state.Length0 == |stateIds| && ch.state.Length1 == |areas|
      && (forall i, a :: 0 <= i < |pressureIds| && 0 <= a < |areas| ==> ch.pressure[i, a] == PressureLevel(cases, links, acts, pressureIds[i], areas[a]))
      && (forall j, a :: 0 <= j < |stateIds| && 0 <= a < |areas| ==> ch.state[j, a] == StateLevel(cases, links, acts, pcs, stateIds[j], areas[a]))
    ensures r.Success? ==> var ch, areas := r.value, Areas(cases);
      fresh(ch.pr) && fresh(ch.ten) && fresh(ch.twentyFive) && fresh(ch.fifty)
      && ch.pr.Length0 == ch.ten.Length0 == ch.twentyFive.Length0 == ch.fifty.Length0 == |stateIds|
      && ch.pr.Length1 == ch.ten.Length1 == ch.twentyFive.Length1 == ch.fifty.Length1 == |areas|
      && forall j, a :: 0 <= j < |stateIds| && 0 <= a < |areas| ==>
        ch.pr[j, a] == GesLevel(thresholds, stateIds[j], areas[a], PR)
        && ch.ten[j, a] == GesLevel(thresholds, stateIds[j], areas[a], Ten)
        && ch.twentyFive[j, a] == GesLevel(thresholds, stateIds[j], areas[a], TwentyFive)
        && ch.fifty[j, a] == GesLevel(thresholds, stateIds[j], areas[a], Fifty)
  {
    var areas := Areas(cases);
    if |areas| > 0 && MissingPressure(pressureIds, stateIds, pcs) {
      return Failure(UnknownPressure(MissingPressureId(pressureIds, stateIds, pcs)));
    }
    var pressure := NewTable(|pressureIds|, |areas|);
    var state := NewTable(|stateIds|, |areas|);
    SubtractPressureCases(pressure, pressureIds, areas, cases, links, acts);
    SubtractStateCases(state, stateIds, areas, cases, links);
    if |areas| > 0 {
      SubtractContributions(state, pressure, stateIds, pressureIds, areas, pcs, PressureLevels(cases, links, acts));
    }
    var pr := GesTable(stateIds, areas, thresholds, PR);
    var ten := GesTable(stateIds, areas, thresholds, Ten);
    var twentyFive := GesTable(stateIds, areas, thresholds, TwentyFive);
    var fifty := GesTable(stateIds, areas, thresholds, Fifty);
    return Success(Changes(pressure, state, pr, ten, twentyFive, fifty));
  }

  /** The pressure named by the first offending pressure contribution. */
  function MissingPressureId(pressureIds: seq<int>, stateIds: seq<int>, pcs: seq<PressureContribution>): (p: int)
    requires MissingPressure(pressureIds, stateIds, pcs)
    ensures p !in pressureIds
  {
    if pcs[0].state in stateIds && pcs[0].pressure !in pressureIds then pcs[0].pressure
    else
      assert MissingPressure(pressureIds, stateIds, pcs[1..]) by {
        var k :| 0 <= k < |pcs| && pcs[k].state in stateIds && pcs[k].pressure !in pressureIds;
        assert pcs[1..][k - 1] == pcs[k];
      }
      MissingPressureId(pressureIds, stateIds, pcs[1..])
  }

  // ---------------------------------------------------------------------------------------
  // Lookups: the first matching row, or the default

  lemma {:induction false} FindLinkFirst(links: seq<Link>, c: Case, k: nat)
    requires k < |links| && Matches(links[k], c)
    requires forall j :: 0 <= j < k ==> !Matches(links[j], c)
    ensures FindLink(links, c) == Some(links[k])
  {
    if k > 0 {
      FindLinkFirst(links[1..], c, k - 1);
    }
  }

  lemma {:induction false} FindLinkMissing(links: seq<Link>, c: Case)
    requires forall j :: 0 <= j < |links| ==> !Matches(links[j], c)
    ensures FindLink(links, c) == None
  {
    if |links| > 0 {
      FindLinkMissing(links[1..], c);
    }
  }

  lemma {:induction false} ContributionFirst(acts: seq<ActContribution>, activity: int, pressure: int, area: int, k: nat)
    requires k < |acts| && acts[k].activity == activity && acts[k].pressure == pressure && acts[k].area == area
    requires forall j :: 0 <= j < k ==> !(acts[j].activity == activity && acts[j].pressure == pressure && acts[j].area == area)
    ensures ContributionOf(acts, activity, pressure, area) == acts[k].value
  {
    if k > 0 {
      ContributionFirst(acts[1..], activity, pressure, area, k - 1);
    }
  }

  lemma {:induction false} ContributionMissing(acts: seq<ActContribution>, activity: int, pressure: int, area: int)
    requires forall j :: 0 <= j < |acts| ==> !(acts[j].activity == activity && acts[j].pressure == pressure && acts[j].area == area)
    ensures ContributionOf(acts, activity, pressure, area) == 0.0
  {
    if |acts| > 0 {
      ContributionMissing(acts[1..], activity, pressure, area);
    }
  }

  /** A (state, area) without a threshold row keeps 1.0 in every GES table. */
  lemma {:induction false} GesDefault(thresholds: seq<Threshold>, s: int, area: int, col: GesColumn)
    requires forall j :: 0 <= j < |thresholds| ==> !(thresholds[j].state == s && thresholds[j].area == area)
    ensures GesLevel(thresholds, s, area, col) == 1.0
  {
    if |thresholds| > 0 {
      GesDefault(thresholds[1..], s, area, col);
    }
  }

  /** Otherwise every GES table takes the first matching row's value. */
  lemma {:induction false} GesFromFirstRow(thresholds: seq<Threshold>, s: int, area: int, col: GesColumn, k: nat)
    requires k < |thresholds| && thresholds[k].state == s && thresholds[k].area == area
    requires forall j :: 0 <= j < k ==> !(thresholds[j].state == s && thresholds[j].area == area)
    ensures GesLevel(thresholds, s, area, col) == Level(thresholds[k], col)
  {
    if k > 0 {
      GesFromFirstRow(thresholds[1..], s, area, col, k - 1);
    }
  }

  // ---------------------------------------------------------------------------------------
  // Properties of the levels

  /** With no cases every pressure level stays 1. */
  lemma NoCasesNoPressureChange(links: seq<Link>, acts: seq<ActContribution>, p: int, area: int)
    ensures PressureLevel([], links, acts, p, area) == 1.0
  {
  }

  /** A case with no exactly matching link changes no level. */
  lemma UnlinkedCaseChangesNothing(cases: seq<Case>, c: Case, links: seq<Link>, acts: seq<ActContribution>, pcs: seq<PressureContribution>, p: int, s: int, area: int)
    requires forall j :: 0 <= j < |links| ==> !Matches(links[j], c)
    ensures PressureLevel(cases + [c], links, acts, p, area) == PressureLevel(cases, links, acts, p, area)
    ensures StateLevel(cases + [c], links, acts, pcs, s, area) == StateLevel(cases, links, acts, pcs, s, area)
  {
    FindLinkMissing(links, c);
    assert (cases + [c])[..|cases|] == cases;
    forall k | 0 <= k < |pcs|
      ensures ContributionTerm(PressureLevels(cases + [c], links, acts), area, s)(pcs[k]) == ContributionTerm(PressureLevels(cases, links, acts), area, s)(pcs[k])
    {
      assert (cases + [c])[..|cases|] == cases;
    }
    SumByCongruent(pcs, ContributionTerm(PressureLevels(cases + [c], links, acts), area, s), ContributionTerm(PressureLevels(cases, links, acts), area, s));
  }

  /** A matching case lowers its pressure by reduction × multiplier × coverage ×
      implementation × contribution. */
  lemma OneCase(c: Case, l: Link, links: seq<Link>, acts: seq<ActContribution>)
    requires FindLink(links, c) == Some(l)
    ensures PressureLevel([c], links, acts, c.pressure, c.area)
      == 1.0 - l.reduction * (l.multiplier * c.coverage * c.implementation) * ContributionOf(acts, c.activity, c.pressure, c.area)
  {
    var f := PressureTerm(links, acts, c.area, c.pressure);
    assert [c][..0] == [];
    assert SumBy([c], f) == 0.0 + f(c);
  }

  /** A case applied straight to its pressure (activity 0) finds no contribution unless the
      table has an activity-0 row, and then lowers nothing. */
  lemma DirectPressureCaseWithoutContribution(c: Case, links: seq<Link>, acts: seq<ActContribution>)
    requires c.activity == 0
    requires forall j :: 0 <= j < |acts| ==> acts[j].activity != 0
    ensures PressureTerm(links, acts, c.area, c.pressure)(c) == 0.0
  {
    ContributionMissing(acts, 0, c.pressure, c.area);
  }

  /** The order of the cases does not matter: every level is a sum over them. */
  lemma CaseOrderIrrelevant(cases: seq<Case>, reordered: seq<Case>, links: seq<Link>, acts: seq<ActContribution>, pcs: seq<PressureContribution>, p: int, s: int, area: int)
    requires multiset(cases) == multiset(reordered)
    ensures PressureLevel(cases, links, acts, p, area) == PressureLevel(reordered, links, acts, p, area)
    ensures StateLevel(cases, links, acts, pcs, s, area) == StateLevel(reordered, links, acts, pcs, s, area)
  {
    SumByPermutation(cases, reordered, PressureTerm(links, acts, area, p));
    SumByPermutation(cases, reordered, StateTerm(links, area, s));
    forall k | 0 <= k < |pcs|
      ensures ContributionTerm(PressureLevels(cases, links, acts), area, s)(pcs[k]) == ContributionTerm(PressureLevels(reordered, links, acts), area, s)(pcs[k])
    {
      SumByPermutation(cases, reordered, PressureTerm(links, acts, area, pcs[k].pressure));
    }
    SumByCongruent(pcs, ContributionTerm(PressureLevels(cases, links, acts), area, s), ContributionTerm(PressureLevels(reordered, links, acts), area, s));
  }

  /** Levels only go down: with non-negative reductions, multipliers, coverages,
      implementations and contributions no pressure level exceeds 1. */
  lemma PressureLevelAtMostOne(cases: seq<Case>, links: seq<Link>, acts: seq<ActContribution>, p: int, area: int)
    requires forall l :: l in links ==> l.reduction >= 0.0 && l.multiplier >= 0.0
    requires forall i :: 0 <= i < |cases| ==> cases[i].coverage >= 0.0 && cases[i].implementation >= 0.0
    requires forall j :: 0 <= j < |acts| ==> acts[j].value >= 0.0
    ensures PressureLevel(cases, links, acts, p, area) <= 1.0
  {
    var f := PressureTerm(links, acts, area, p);
    forall i | 0 <= i < |cases|
      ensures f(cases[i]) >= 0.0
    {
      var c := cases[i];
      var l := FindLink(links, c);
      if l.Some? {
        FindLinkIn(links, c);
        ContributionNonnegative(acts, c.activity, c.pressure, area);
        NonnegativeProduct(l.value.reduction, l.value.multiplier, c.coverage, c.implementation, ContributionOf(acts, c.activity, c.pressure, area));
      }
    }
    SumByNonnegative(cases, f);
  }

  lemma {:induction false} FindLinkIn(links: seq<Link>, c: Case)
    ensures FindLink(links, c).Some? ==> FindLink(links, c).value in links && Matches(FindLink(links, c).value, c)
  {
    if |links| > 0 {
      FindLinkIn(links[1..], c);
    }
  }

  lemma {:induction false} ContributionNonnegative(acts: seq<ActContribution>, activity: int, pressure: int, area: int)
    requires forall j :: 0 <= j < |acts| ==> acts[j].value >= 0.0
    ensures ContributionOf(acts, activity, pressure, area) >= 0.0
  {
    if |acts| > 0 {
      ContributionNonnegative(acts[1..], activity, pressure, area);
    }
  }

  lemma NonnegativeProduct(r: real, m: real, cov: real, impl: real, k: real)
    requires r >= 0.0 && m >= 0.0 && cov >= 0.0 && impl >= 0.0 && k >= 0.0
    ensures r * (m * cov * impl) * k >= 0.0
  {
    assert m * cov >= 0.0;
    assert m * cov * impl >= 0.0;
    assert r * (m * cov * impl) >= 0.0;
  }

  /** The state step subtracts each contribution times the pressure's level, not its
      reduction: with no cases at all, a state still drops by the sum of its pressures'
      average contributions. */
  lemma StateWithoutCases(links: seq<Link>, acts: seq<ActContribution>, pcs: seq<PressureContribution>, s: int, area: int)
    ensures StateLevel([], links, acts, pcs, s, area) == 1.0 - SumBy(pcs, Averages(s))
  {
    var f := ContributionTerm(PressureLevels([], links, acts), area, s);
    forall k | 0 <= k < |pcs|
      ensures f(pcs[k]) == Averages(s)(pcs[k])
    {
      NoCasesNoPressureChange(links, acts, pcs[k].pressure, area);
    }
    SumByCongruent(pcs, f, Averages(s));
  }

  /** The average of each contribution to state `s`, and 0 for the others. */
  function Averages(s: int): PressureContribution -> real
  {
    (pc: PressureContribution) => if pc.state == s then pc.average else 0.0
  }
}
