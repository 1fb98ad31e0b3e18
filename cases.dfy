/** `build_cases`: the measure cases expanded against the links (0 stands for "every
    activity / pressure / state the measure has a link for"), then filtered by the links'
    columns. */
module Cases {
  import opened Links

  /** One row of the cases table: a measure applied in an area on an activity, pressure and
      state (each 0 for "all"), with its coverage and implementation degree. */
  datatype Case = Case(measure: int, activity: int, pressure: int, state: int, area: int, coverage: real, implementation: real)

  /** The values of a column without repeats, in order of first appearance (`unique()`). */
  function Distinct(xs: seq<int>): (d: seq<int>)
    ensures forall a, b :: 0 <= a < b < |d| ==> d[a] != d[b]
    ensures forall v :: v in d <==> v in xs
  {
    if |xs| == 0 then []
    else
      var init := xs[..|xs| - 1];
      var d := Distinct(init);
      assert forall v :: v in xs <==> v in init || v == xs[|xs| - 1] by {
        assert xs == init + [xs[|xs| - 1]];
      }
      if xs[|xs| - 1] in d then d else d + [xs[|xs| - 1]]
  }

  /** The links of one measure, in table order. */
  function LinksOf(links: seq<Link>, measure: int): (ls: seq<Link>)
    ensures forall l :: l in ls <==> l in links && l.measure == measure
  {
    if |links| == 0 then []
    else
      var n := |links| - 1;
      assert links == links[..n] + [links[n]];
      LinksOf(links[..n], measure) + (if links[n].measure == measure then [links[n]] else [])
  }

  function MeasureColumn(ls: seq<Link>): (c: seq<int>)
    ensures |c| == |ls| && forall i :: 0 <= i < |ls| ==> c[i] == ls[i].measure
  {
    seq(|ls|, i requires 0 <= i < |ls| => ls[i].measure)
  }

  function ActivityColumn(ls: seq<Link>): (c: seq<int>)
    ensures |c| == |ls| && forall i :: 0 <= i < |ls| ==> c[i] == ls[i].activity
  {
    seq(|ls|, i requires 0 <= i < |ls| => ls[i].activity)
  }

  function PressureColumn(ls: seq<Link>): (c: seq<int>)
    ensures |c| == |ls| && forall i :: 0 <= i < |ls| ==> c[i] == ls[i].pressure
  {
    seq(|ls|, i requires 0 <= i < |ls| => ls[i].pressure)
  }

  function StateColumn(ls: seq<Link>): (c: seq<int>)
    ensures |c| == |ls| && forall i :: 0 <= i < |ls| ==> c[i] == ls[i].state
  {
    seq(|ls|, i requires 0 <= i < |ls| => ls[i].state)
  }

  /** The values a case field expands to: itself when nonzero, otherwise every distinct
      value of that column among the measure's links. */
  function Choices(value: int, column: seq<int>): (c: seq<int>)
    ensures forall v :: v in c <==> (if value == 0 then v in column else v == value)
  {
    if value == 0 then Distinct(column) else [value]
  }

  function Fill(row: Case, activity: int, pressure: int, state: int): Case
  {
    row.(activity := activity, pressure := pressure, state := state)
  }

  /** Whether `x` carries `row`'s measure, area, coverage and implementation. */
  predicate SameOrigin(x: Case, row: Case)
  {
    x.measure == row.measure && x.area == row.area && x.coverage == row.coverage && x.implementation == row.implementation
  }

  /** Exploding the state column of one (activity, pressure) combination. */
  function PerPressure(row: Case, a: int, p: int, states: seq<int>): seq<Case>
  {
    if |states| == 0 then []
    else PerPressure(row, a, p, states[..|states| - 1]) + [Fill(row, a, p, states[|states| - 1])]
  }

  /** Exploding the pressure and state columns of one activity. */
  function PerActivity(row: Case, a: int, pressures: seq<int>, states: seq<int>): seq<Case>
  {
    if |pressures| == 0 then []
    else PerActivity(row, a, pressures[..|pressures| - 1], states) + PerPressure(row, a, pressures[|pressures| - 1], states)
  }

  /** Exploding activity, then pressure, then state: the cartesian product, activity
      outermost. */
  function Product(row: Case, activities: seq<int>, pressures: seq<int>, states: seq<int>): seq<Case>
  {
    if |activities| == 0 then []
    else Product(row, activities[..|activities| - 1], pressures, states) + PerActivity(row, activities[|activities| - 1], pressures, states)
  }

  /** The rows one case becomes: none when its measure has no link. */
  function Expand(row: Case, links: seq<Link>): seq<Case>
  {
    var ls := LinksOf(links, row.measure);
    if |ls| == 0 then []
    else Product(row, Choices(row.activity, ActivityColumn(ls)), Choices(row.pressure, PressureColumn(ls)), Choices(row.state, StateColumn(ls)))
  }

  /** The rows of `xs` mapped to sequences and concatenated, in order. */
  function ConcatMap<T, U>(xs: seq<T>, f: T -> seq<U>): seq<U>
  {
    if |xs| == 0 then [] else ConcatMap(xs[..|xs| - 1], f) + f(xs[|xs| - 1])
  }

  function Expander(links: seq<Link>): Case -> seq<Case>
  {
    (c: Case) => Expand(c, links)
  }

  /** Every case expanded, in table order. */
  function ExpandAll(cases: seq<Case>, links: seq<Link>): seq<Case>
  {
    ConcatMap(cases, Expander(links))
  }

  /** The filter: four independent tests, each against a whole column of the links table. */
  predicate Passes(x: Case, links: seq<Link>)
  {
    x.measure in MeasureColumn(links) && x.activity in ActivityColumn(links) && x.pressure in PressureColumn(links) && x.state in StateColumn(links)
  }

  function Filtered(rows: seq<Case>, links: seq<Link>): seq<Case>
  {
    if |rows| == 0 then []
    else Filtered(rows[..|rows| - 1], links) + (if Passes(rows[|rows| - 1], links) then [rows[|rows| - 1]] else [])
  }

  /** `build_cases`: every case expanded (cases whose measure has no link dropped), then the
      rows that pass the filter, in order and with repeats kept. */
  method BuildCases(cases: seq<Case>, links: seq<Link>) returns (out: seq<Case>)
    ensures out == Filtered(ExpandAll(cases, links), links)
  {
    var expanded: seq<Case> := [];
    for i := 0 to |cases|
      invariant expanded == ExpandAll(cases[..i], links)
    {
      assert cases[..i + 1][..i] == cases[..i];
      var ls := LinksOf(links, cases[i].measure);
      if |ls| == 0 {
        continue;
      }
      expanded := expanded + Expand(cases[i], links);
    }
    assert cases[..|cases|] == cases;
    out := Filtered(expanded, links);
  }

  // ---------------------------------------------------------------------------------------
  // Expansion

  lemma {:induction false} PerPressureMembership(row: Case, a: int, p: int, states: seq<int>, x: Case)
    ensures x in PerPressure(row, a, p, states) <==> SameOrigin(x, row) && x.activity == a && x.pressure == p && x.state in states
  {
    if |states| > 0 {
      var n := |states| - 1;
      PerPressureMembership(row, a, p, states[..n], x);
      assert states == states[..n] + [states[n]];
    }
  }

  lemma {:induction false} PerActivityMembership(row: Case, a: int, pressures: seq<int>, states: seq<int>, x: Case)
    ensures x in PerActivity(row, a, pressures, states) <==> SameOrigin(x, row) && x.activity == a && x.pressure in pressures && x.state in states
  {
    if |pressures| > 0 {
      var n := |pressures| - 1;
      PerActivityMembership(row, a, pressures[..n], states, x);
      PerPressureMembership(row, a, pressures[n], states, x);
      assert pressures == pressures[..n] + [pressures[n]];
    }
  }

  lemma {:induction false} ProductMembership(row: Case, activities: seq<int>, pressures: seq<int>, states: seq<int>, x: Case)
    ensures x in Product(row, activities, pressures, states) <==>
      SameOrigin(x, row) && x.activity in activities && x.pressure in pressures && x.state in states
  {
    if |activities| > 0 {
      var n := |activities| - 1;
      ProductMembership(row, activities[..n], pressures, states, x);
      PerActivityMembership(row, activities[n], pressures, states, x);
      assert activities == activities[..n] + [activities[n]];
    }
  }

  lemma {:induction false} PerPressureLength(row: Case, a: int, p: int, states: seq<int>)
    ensures |PerPressure(row, a, p, states)| == |states|
  {
    if |states| > 0 {
      PerPressureLength(row, a, p, states[..|states| - 1]);
    }
  }

  lemma {:induction false} PerActivityLength(row: Case, a: int, pressures: seq<int>, states: seq<int>)
    ensures |PerActivity(row, a, pressures, states)| == |pressures| * |states|
  {
    if |pressures| > 0 {
      var n := |pressures| - 1;
      PerActivityLength(row, a, pressures[..n], states);
      PerPressureLength(row, a, pressures[n], states);
      assert n * |states| + |states| == (n + 1) * |states|;
    }
  }

  /** Exploding three columns yields one row per combination. */
  lemma {:induction false} ProductLength(row: Case, activities: seq<int>, pressures: seq<int>, states: seq<int>)
    ensures |Product(row, activities, pressures, states)| == |activities| * (|pressures| * |states|)
  {
    if |activities| > 0 {
      var n := |activities| - 1;
      var k := |pressures| * |states|;
      ProductLength(row, activities[..n], pressures, states);
      PerActivityLength(row, activities[n], pressures, states);
      assert n * k + k == (n + 1) * k;
    }
  }

  /** A case whose measure has no link is dropped. */
  lemma DroppedWithoutLinks(row: Case, links: seq<Link>)
    requires forall k :: 0 <= k < |links| ==> links[k].measure != row.measure
    ensures Expand(row, links) == []
  {
    LinksOfNone(links, row.measure);
  }

  lemma {:induction false} LinksOfNone(links: seq<Link>, m: int)
    requires forall k :: 0 <= k < |links| ==> links[k].measure != m
    ensures LinksOf(links, m) == []
  {
    if |links| > 0 {
      LinksOfNone(links[..|links| - 1], m);
    }
  }

  /** What one case expands to: its measure, area, coverage and implementation copied; a
      nonzero field kept; a zero field ranging over the values the measure's links have in
      that column. */
  lemma ExpandMembership(row: Case, links: seq<Link>, x: Case)
    ensures x in Expand(row, links) <==>
      (exists k :: 0 <= k < |links| && links[k].measure == row.measure)
      && SameOrigin(x, row)
      && (if row.activity == 0 then exists k :: 0 <= k < |links| && links[k].measure == row.measure && links[k].activity == x.activity else x.activity == row.activity)
      && (if row.pressure == 0 then exists k :: 0 <= k < |links| && links[k].measure == row.measure && links[k].pressure == x.pressure else x.pressure == row.pressure)
      && (if row.state == 0 then exists k :: 0 <= k < |links| && links[k].measure == row.measure && links[k].state == x.state else x.state == row.state)
  {
    var ls := LinksOf(links, row.measure);
    var acts, press, sts := ActivityColumn(ls), PressureColumn(ls), StateColumn(ls);
    ColumnOfMeasure(links, row.measure);
    if |ls| > 0 {
      assert ls[0] in links;
      ProductMembership(row, Choices(row.activity, acts), Choices(row.pressure, press), Choices(row.state, sts), x);
    } else {
      assert forall k :: 0 <= k < |links| ==> links[k] !in ls;
    }
  }

  /** The columns of a measure's links hold exactly the values its links have. */
  lemma ColumnOfMeasure(links: seq<Link>, m: int)
    ensures forall v :: v in ActivityColumn(LinksOf(links, m)) <==> exists k :: 0 <= k < |links| && links[k].measure == m && links[k].activity == v
    ensures forall v :: v in PressureColumn(LinksOf(links, m)) <==> exists k :: 0 <= k < |links| && links[k].measure == m && links[k].pressure == v
    ensures forall v :: v in StateColumn(LinksOf(links, m)) <==> exists k :: 0 <= k < |links| && links[k].measure == m && links[k].state == v
  {
    var ls := LinksOf(links, m);
    forall v
      ensures v in ActivityColumn(ls) ==> exists k :: 0 <= k < |links| && links[k].measure == m && links[k].activity == v
      ensures v in PressureColumn(ls) ==> exists k :: 0 <= k < |links| && links[k].measure == m && links[k].pressure == v
      ensures v in StateColumn(ls) ==> exists k :: 0 <= k < |links| && links[k].measure == m && links[k].state == v
    {
      if v in ActivityColumn(ls) {
        var i :| 0 <= i < |ls| && ActivityColumn(ls)[i] == v;
        assert ls[i] in links;
      }
      if v in PressureColumn(ls) {
        var i :| 0 <= i < |ls| && PressureColumn(ls)[i] == v;
        assert ls[i] in links;
      }
      if v in StateColumn(ls) {
        var i :| 0 <= i < |ls| && StateColumn(ls)[i] == v;
        assert ls[i] in links;
      }
    }
    forall k | 0 <= k < |links| && links[k].measure == m
      ensures links[k].activity in ActivityColumn(ls) && links[k].pressure in PressureColumn(ls) && links[k].state in StateColumn(ls)
    {
      assert links[k] in ls;
      var i :| 0 <= i < |ls| && ls[i] == links[k];
      assert ActivityColumn(ls)[i] == links[k].activity;
      assert PressureColumn(ls)[i] == links[k].pressure;
      assert StateColumn(ls)[i] == links[k].state;
    }
  }

  /** A case with every field given expands to itself alone when its measure has links. */
  lemma ConcreteCaseKept(row: Case, links: seq<Link>)
    requires row.activity != 0 && row.pressure != 0 && row.state != 0
    requires exists k :: 0 <= k < |links| && links[k].measure == row.measure
    ensures Expand(row, links) == [row]
  {
    var ls := LinksOf(links, row.measure);
    var k :| 0 <= k < |links| && links[k].measure == row.measure;
    assert links[k] in ls;
    var A, P, S := [row.activity], [row.pressure], [row.state];
    assert Product(row, A, P, S) == Product(row, [], P, S) + PerActivity(row, row.activity, P, S);
    assert PerActivity(row, row.activity, P, S) == PerActivity(row, row.activity, [], S) + PerPressure(row, row.activity, row.pressure, S);
    assert PerPressure(row, row.activity, row.pressure, S) == PerPressure(row, row.activity, row.pressure, []) + [Fill(row, row.activity, row.pressure, row.state)];
  }

  // ---------------------------------------------------------------------------------------
  // The filter

  lemma {:induction false} FilteredMembership(rows: seq<Case>, links: seq<Link>, x: Case)
    ensures x in Filtered(rows, links) <==> x in rows && Passes(x, links)
  {
    if |rows| > 0 {
      var n := |rows| - 1;
      FilteredMembership(rows[..n], links, x);
      assert rows == rows[..n] + [rows[n]];
    }
  }

  /** No deduplication: rows that all pass are kept as they are, repeats included. */
  lemma {:induction false} FilterKeepsRepeats(rows: seq<Case>, links: seq<Link>)
    requires forall i :: 0 <= i < |rows| ==> Passes(rows[i], links)
    ensures Filtered(rows, links) == rows
  {
    if |rows| > 0 {
      var n := |rows| - 1;
      FilterKeepsRepeats(rows[..n], links);
      assert rows == rows[..n] + [rows[n]];
    }
  }

  /** The four tests are independent: a row can pass although no link has its
      (measure, activity, pressure, state). */
  lemma FilterAdmitsUnlinkedRow()
    ensures var links := [Link(1, 1, 1, 1, 0.5, 1.0), Link(2, 2, 2, 2, 0.5, 1.0)];
      var x := Case(1, 2, 1, 2, 7, 1.0, 1.0);
      Passes(x, links) && forall k :: 0 <= k < |links| ==> Key4(links[k]) != (x.measure, x.activity, x.pressure, x.state)
  {
    var links := [Link(1, 1, 1, 1, 0.5, 1.0), Link(2, 2, 2, 2, 0.5, 1.0)];
    assert MeasureColumn(links)[0] == 1 && ActivityColumn(links)[1] == 2 && PressureColumn(links)[0] == 1 && StateColumn(links)[1] == 2;
  }

  function Key4(l: Link): (int, int, int, int)
  {
    (l.measure, l.activity, l.pressure, l.state)
  }

  /** Every row `build_cases` returns comes from a case whose measure has links and passes
      the four column tests. */
  lemma {:induction false} BuildCasesSound(cases: seq<Case>, links: seq<Link>, x: Case)
    requires x in Filtered(ExpandAll(cases, links), links)
    ensures Passes(x, links)
    ensures exists i :: 0 <= i < |cases| && x in Expand(cases[i], links)
  {
    FilteredMembership(ExpandAll(cases, links), links, x);
    ExpandAllMembership(cases, links, x);
  }

  lemma ExpandAllMembership(cases: seq<Case>, links: seq<Link>, x: Case)
    ensures x in ExpandAll(cases, links) <==> exists i :: 0 <= i < |cases| && x in Expand(cases[i], links)
  {
    ConcatMapMembership(cases, Expander(links), x);
  }

  lemma {:induction false} ConcatMapMembership<T, U>(xs: seq<T>, f: T -> seq<U>, x: U)
    ensures x in ConcatMap(xs, f) <==> exists i :: 0 <= i < |xs| && x in f(xs[i])
  {
    if |xs| > 0 {
      var n := |xs| - 1;
      var init := xs[..n];
      ConcatMapMembership(init, f, x);
      if x in ConcatMap(xs, f) && x in ConcatMap(init, f) {
        var i :| 0 <= i < n && x in f(init[i]);
        assert init[i] == xs[i];
      }
      if exists i :: 0 <= i < |xs| && x in f(xs[i]) {
        var i :| 0 <= i < |xs| && x in f(xs[i]);
        if i < n {
          assert init[i] == xs[i];
        }
      }
    }
  }
}
