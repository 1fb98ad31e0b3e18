/** `build_links`: the measure → activity → pressure → state links with one sampled
    reduction each, and the multipliers that measure-measure overlaps put on them. */
module Links {
  import opened Wrappers
  import opened Numeric
  import opened Distributions

  /** One row of the measure-effects table: the link's four ids and its reduction
      distribution (`nan` as None). */
  datatype MeasureEffect = MeasureEffect(measure: int, activity: int, pressure: int, state: int, dist: Option<seq<real>>)

  /** One row of the links table. */
  datatype Link = Link(measure: int, activity: int, pressure: int, state: int, reduction: real, multiplier: real)

  /** One row of the overlaps table: when measure `overlapping` is in use, the links of
      measure `overlapped` on `pressure` (and on `activity`, unless it is 0) are multiplied
      by `multiplier`. */
  datatype Overlap = Overlap(overlapping: int, overlapped: int, pressure: int, activity: int, multiplier: real)

  datatype LinkError = DuplicateLink | PickFailed(error: DistError)

  function Key(e: MeasureEffect): (int, int, int, int)
  {
    (e.measure, e.activity, e.pressure, e.state)
  }

  predicate UniqueKeys(effects: seq<MeasureEffect>)
  {
    forall i, j :: 0 <= i < j < |effects| ==> Key(effects[i]) != Key(effects[j])
  }

  /** The measures that occur in the table. */
  function Measures(effects: seq<MeasureEffect>): set<int>
  {
    set i | 0 <= i < |effects| :: effects[i].measure
  }

  /** Whether an overlap's query selects a link. */
  predicate Hits(o: Overlap, e: MeasureEffect)
  {
    e.measure == o.overlapped && e.pressure == o.pressure && (o.activity != 0 ==> e.activity == o.activity)
  }

  /** The factor one overlap contributes to a link whenever it is applied. */
  function Hit(e: MeasureEffect): Overlap -> real
  {
    (o: Overlap) => if Hits(o, e) then o.multiplier else 1.0
  }

  /** The factor one overlap contributes to a link, given the measures in use. */
  function Applies(e: MeasureEffect, measures: set<int>): Overlap -> real
  {
    (o: Overlap) => if o.overlapping in measures && Hits(o, e) then o.multiplier else 1.0
  }

  /** The multiplier a link ends with: the product of the multipliers of every overlap whose
      overlapping measure is in use and whose query selects the link. */
  function OverlapMultiplier(e: MeasureEffect, overlaps: seq<Overlap>, measures: set<int>): real
  {
    ProdBy(overlaps, Applies(e, measures))
  }

  predicate ValidChoices(effects: seq<MeasureEffect>, choices: seq<nat>)
  {
    |choices| == |effects|
    && forall i :: 0 <= i < |effects| && effects[i].dist.Some? ==> choices[i] < |effects[i].dist.value|
  }

  // ---------------------------------------------------------------------------------------
  // The method

  /** Whether two rows share (measure, activity, pressure, state). */
  method HasDuplicate(effects: seq<MeasureEffect>) returns (dup: bool)
    ensures dup <==> !UniqueKeys(effects)
  {
    for j := 0 to |effects|
      invariant forall a, b :: 0 <= a < b < j ==> Key(effects[a]) != Key(effects[b])
    {
      for i := 0 to j
        invariant forall a :: 0 <= a < i ==> Key(effects[a]) != Key(effects[j])
      {
        if Key(effects[i]) == Key(effects[j]) {
          return true;
        }
      }
    }
    return false;
  }

  /** The distinct measures of the links (`unique()`). */
  function UniqueMeasures(effects: seq<MeasureEffect>): (ids: seq<int>)
    ensures forall a, b :: 0 <= a < b < |ids| ==> ids[a] != ids[b]
    ensures forall m :: m in ids <==> m in Measures(effects)
  {
    if |effects| == 0 then []
    else
      var init := effects[..|effects| - 1];
      var m := effects[|effects| - 1].measure;
      var ids := UniqueMeasures(init);
      assert forall x :: x in Measures(effects) <==> x in Measures(init) || x == m by {
        assert forall i :: 0 <= i < |init| ==> init[i] == effects[i];
      }
      if m in ids then ids else ids + [m]
  }

  /** The overlaps whose overlapping measure is `id`, in table order. */
  function Matching(overlaps: seq<Overlap>, id: int): seq<Overlap>
  {
    if |overlaps| == 0 then []
    else
      var n := |overlaps| - 1;
      Matching(overlaps[..n], id) + (if overlaps[n].overlapping == id then [overlaps[n]] else [])
  }

  /** The overlaps in the order the loops apply them: measure by measure, each measure's
      overlaps in table order. */
  function Selected(ids: seq<int>, overlaps: seq<Overlap>): seq<Overlap>
  {
    if |ids| == 0 then [] else Selected(ids[..|ids| - 1], overlaps) + Matching(overlaps, ids[|ids| - 1])
  }

  /** Whether every row's distribution can be picked from. */
  predicate Pickable(effects: seq<MeasureEffect>, choices: seq<nat>)
    requires ValidChoices(effects, choices)
  {
    forall i :: 0 <= i < |effects| ==> GetPick(effects[i].dist, choices[i]).Success?
  }

  /** The reduction picked for every row. */
  function Reductions(effects: seq<MeasureEffect>, choices: seq<nat>): (reds: seq<real>)
    requires ValidChoices(effects, choices) && Pickable(effects, choices)
    ensures |reds| == |effects|
    ensures forall i :: 0 <= i < |effects| ==> GetPick(effects[i].dist, choices[i]) == Success(reds[i])
  {
    seq(|effects|, i requires 0 <= i < |effects| => GetPick(effects[i].dist, choices[i]).value)
  }

  /** The links table once the overlaps in `applied` have been applied to it. */
  function Built(effects: seq<MeasureEffect>, reds: seq<real>, applied: seq<Overlap>): (ls: seq<Link>)
    requires |reds| == |effects|
  {
    seq(|effects|, j requires 0 <= j < |effects| => Base(effects[j], reds[j]).(multiplier := ProdBy(applied, Hit(effects[j]))))
  }

  /** The rows with their picked reductions and multiplier 1 (the `apply(get_pick)` step and
      the column of ones), or the failure of the first row that cannot be picked from. */
  method PickReductions(effects: seq<MeasureEffect>, choices: seq<nat>) returns (r: Result<seq<Link>, LinkError>)
    requires ValidChoices(effects, choices)
    ensures r.Success? <==> Pickable(effects, choices)
    ensures r.Failure? ==> r.error.PickFailed?
    ensures r.Success? ==> r.value == Built(effects, Reductions(effects, choices), [])
  {
    var links: seq<Link> := [];
    for i := 0 to |effects|
      invariant |links| == i
      invariant forall j :: 0 <= j < i ==> GetPick(effects[j].dist, choices[j]).Success?
      invariant forall j :: 0 <= j < i ==> links[j] == Base(effects[j], GetPick(effects[j].dist, choices[j]).value)
    {
      var pick := GetPick(effects[i].dist, choices[i]);
      if pick.Failure? {
        return Failure(PickFailed(pick.error));
      }
      links := links + [Base(effects[i], pick.value)];
    }
    return Success(links);
  }

  /** One overlap's pass over the links table (the innermost loop): every link the overlap's
      query selects is multiplied by its multiplier. */
  method ApplyOverlap(links: seq<Link>, o: Overlap, ghost effects: seq<MeasureEffect>, ghost reds: seq<real>, ghost applied: seq<Overlap>)
    returns (out: seq<Link>)
    requires |reds| == |effects| && links == Built(effects, reds, applied)
    ensures out == Built(effects, reds, applied + [o])
  {
    out := links;
    for j := 0 to |links|
      invariant |out| == |links|
      invariant forall j' :: 0 <= j' < j ==> out[j'] == Built(effects, reds, applied + [o])[j']
      invariant forall j' :: j <= j' < |links| ==> out[j'] == links[j']
    {
      ProdBySnoc(applied, o, Hit(effects[j]));
      var l := out[j];
      if o.overlapped == l.measure && o.pressure == l.pressure && (o.activity != 0 ==> o.activity == l.activity) {
        out := out[j := l.(multiplier := l.multiplier * o.multiplier)];
      }
    }
  }

  /** The loop over the overlaps of one overlapping measure: they are applied in table order. */
  method ApplyMeasure(links: seq<Link>, id: int, overlaps: seq<Overlap>, ghost effects: seq<MeasureEffect>, ghost reds: seq<real>, ghost done: seq<Overlap>)
    returns (out: seq<Link>)
    requires |reds| == |effects| && links == Built(effects, reds, done)
    ensures out == Built(effects, reds, done + Matching(overlaps, id))
  {
    out := links;
    assert done + Matching(overlaps[..0], id) == done;
    for k := 0 to |overlaps|
      invariant out == Built(effects, reds, done + Matching(overlaps[..k], id))
    {
      assert overlaps[..k + 1][..k] == overlaps[..k];
      var o := overlaps[k];
      ghost var before := done + Matching(overlaps[..k], id);
      if o.overlapping == id {
        assert done + Matching(overlaps[..k + 1], id) == before + [o];
        out := ApplyOverlap(out, o, effects, reds, before);
      } else {
        assert done + Matching(overlaps[..k + 1], id) == before;
      }
    }
    assert overlaps[..|overlaps|] == overlaps;
  }

  /** Once every measure in use has had its overlaps applied, each link carries its overlap
      multiplier. */
  lemma BuiltMultipliers(effects: seq<MeasureEffect>, reds: seq<real>, ids: seq<int>, overlaps: seq<Overlap>)
    requires |reds| == |effects|
    requires forall a, b :: 0 <= a < b < |ids| ==> ids[a] != ids[b]
    requires forall m :: m in ids <==> m in Measures(effects)
    ensures forall j :: 0 <= j < |effects| ==>
      var l := Built(effects, reds, Selected(ids, overlaps))[j];
      (l.measure, l.activity, l.pressure, l.state) == Key(effects[j]) && l.reduction == reds[j]
      && l.multiplier == OverlapMultiplier(effects[j], overlaps, Measures(effects))
  {
    assert forall m :: m in (set x | x in ids) <==> m in ids;
    assert (set x | x in ids) == Measures(effects);
    forall j | 0 <= j < |effects|
      ensures ProdBy(Selected(ids, overlaps), Hit(effects[j])) == OverlapMultiplier(effects[j], overlaps, Measures(effects))
    {
      SelectedIsRestricted(ids, overlaps, effects[j]);
    }
  }

  /** `build_links`: fails the duplicate assertion, or raises when a distribution cannot be
      picked from; otherwise one link per row, in row order, carrying the picked reduction
      and the product of the overlap multipliers that apply to it. */
  method BuildLinks(effects: seq<MeasureEffect>, overlaps: seq<Overlap>, choices: seq<nat>)
    returns (r: Result<seq<Link>, LinkError>)
    requires ValidChoices(effects, choices)
    ensures r == Failure(DuplicateLink) <==> !UniqueKeys(effects)
    ensures r.Success? <==> UniqueKeys(effects) && Pickable(effects, choices)
    ensures r.Success? ==> |r.value| == |effects|
    ensures r.Success? ==> forall i :: 0 <= i < |effects| ==>
      var e, l := effects[i], r.value[i];
      (l.measure, l.activity, l.pressure, l.state) == Key(e)
      && GetPick(e.dist, choices[i]) == Success(l.reduction)
      && l.multiplier == OverlapMultiplier(e, overlaps, Measures(effects))
  {
    var dup := HasDuplicate(effects);
    if dup {
      return Failure(DuplicateLink);
    }
    var picked := PickReductions(effects, choices);
    if picked.Failure? {
      return Failure(picked.error);
    }
    var ids := UniqueMeasures(effects);
    var links := picked.value;
    ghost var reds := Reductions(effects, choices);
    for a := 0 to |ids|
      invariant links == Built(effects, reds, Selected(ids[..a], overlaps))
    {
      assert ids[..a + 1][..a] == ids[..a];
      links := ApplyMeasure(links, ids[a], overlaps, effects, reds, Selected(ids[..a], overlaps));
    }
    assert ids[..|ids|] == ids;
    BuiltMultipliers(effects, reds, ids, overlaps);
    return Success(links);
  }

  /** A link as first built: the row's ids, its reduction and multiplier 1. */
  function Base(e: MeasureEffect, reduction: real): (l: Link)
    ensures (l.measure, l.activity, l.pressure, l.state) == Key(e) && l.reduction == reduction && l.multiplier == 1.0
  {
    Link(e.measure, e.activity, e.pressure, e.state, reduction, 1.0)
  }

  // ---------------------------------------------------------------------------------------
  // Applying overlaps measure by measure equals the product over the whole table

  /** The overlaps whose overlapping measure is in `ids`, in table order. */
  function Restrict(overlaps: seq<Overlap>, ids: set<int>): seq<Overlap>
  {
    if |overlaps| == 0 then []
    else
      var n := |overlaps| - 1;
      Restrict(overlaps[..n], ids) + (if overlaps[n].overlapping in ids then [overlaps[n]] else [])
  }

  lemma {:induction false} RestrictAddsMatching(overlaps: seq<Overlap>, ids: set<int>, id: int)
    requires id !in ids
    ensures multiset(Restrict(overlaps, ids + {id})) == multiset(Restrict(overlaps, ids)) + multiset(Matching(overlaps, id))
  {
    if |overlaps| > 0 {
      RestrictAddsMatching(overlaps[..|overlaps| - 1], ids, id);
    }
  }

  lemma {:induction false} SelectedPermutesRestrict(ids: seq<int>, overlaps: seq<Overlap>)
    requires forall a, b :: 0 <= a < b < |ids| ==> ids[a] != ids[b]
    ensures multiset(Selected(ids, overlaps)) == multiset(Restrict(overlaps, set x | x in ids))
  {
    if |ids| == 0 {
      assert (set x | x in ids) == {};
      RestrictEmpty(overlaps);
    } else {
      var n := |ids| - 1;
      var init := ids[..n];
      SelectedPermutesRestrict(init, overlaps);
      assert (set x | x in ids) == (set x | x in init) + {ids[n]};
      assert ids[n] !in (set x | x in init);
      RestrictAddsMatching(overlaps, (set x | x in init), ids[n]);
    }
  }

  lemma {:induction false} RestrictEmpty(overlaps: seq<Overlap>)
    ensures Restrict(overlaps, {}) == []
  {
    if |overlaps| > 0 {
      RestrictEmpty(overlaps[..|overlaps| - 1]);
    }
  }

  lemma {:induction false} RestrictProduct(overlaps: seq<Overlap>, ids: set<int>, e: MeasureEffect)
    ensures ProdBy(Restrict(overlaps, ids), Hit(e)) == ProdBy(overlaps, Applies(e, ids))
  {
    if |overlaps| > 0 {
      var n := |overlaps| - 1;
      var init, o := overlaps[..n], overlaps[n];
      RestrictProduct(init, ids, e);
      assert overlaps == init + [o];
      ProdBySnoc(init, o, Applies(e, ids));
      if o.overlapping in ids {
        assert Restrict(overlaps, ids) == Restrict(init, ids) + [o];
        assert Applies(e, ids)(o) == Hit(e)(o);
        ProdBySnoc(Restrict(init, ids), o, Hit(e));
      } else {
        assert Restrict(overlaps, ids) == Restrict(init, ids);
        assert Applies(e, ids)(o) == 1.0;
      }
    }
  }

  lemma SelectedIsRestricted(ids: seq<int>, overlaps: seq<Overlap>, e: MeasureEffect)
    requires forall a, b :: 0 <= a < b < |ids| ==> ids[a] != ids[b]
    ensures ProdBy(Selected(ids, overlaps), Hit(e)) == ProdBy(overlaps, Applies(e, set x | x in ids))
  {
    SelectedPermutesRestrict(ids, overlaps);
    ProdByPermutation(Selected(ids, overlaps), Restrict(overlaps, (set x | x in ids)), Hit(e));
    RestrictProduct(overlaps, (set x | x in ids), e);
  }

  // ---------------------------------------------------------------------------------------
  // Properties of the overlap multiplier

  /** A link that no applicable overlap selects keeps multiplier 1. */
  lemma {:induction false} UnmatchedKeepsOne(e: MeasureEffect, overlaps: seq<Overlap>, measures: set<int>)
    requires forall k :: 0 <= k < |overlaps| ==> !(overlaps[k].overlapping in measures && Hits(overlaps[k], e))
    ensures OverlapMultiplier(e, overlaps, measures) == 1.0
  {
    if |overlaps| > 0 {
      UnmatchedKeepsOne(e, overlaps[1..], measures);
    }
  }

  /** The order of the overlaps table does not matter. */
  lemma OverlapOrderIrrelevant(e: MeasureEffect, overlaps: seq<Overlap>, reordered: seq<Overlap>, measures: set<int>)
    requires multiset(overlaps) == multiset(reordered)
    ensures OverlapMultiplier(e, overlaps, measures) == OverlapMultiplier(e, reordered, measures)
  {
    ProdByPermutation(overlaps, reordered, Applies(e, measures));
  }

  /** Several overlaps compose by product. */
  lemma OverlapsCompose(e: MeasureEffect, first: seq<Overlap>, second: seq<Overlap>, measures: set<int>)
    ensures OverlapMultiplier(e, first + second, measures) == OverlapMultiplier(e, first, measures) * OverlapMultiplier(e, second, measures)
  {
    ProdByAppend(first, second, Applies(e, measures));
  }

  /** An overlap whose overlapping measure is not in use changes nothing. */
  lemma InactiveOverlapIgnored(e: MeasureEffect, overlaps: seq<Overlap>, o: Overlap, measures: set<int>)
    requires o.overlapping !in measures
    ensures OverlapMultiplier(e, overlaps + [o], measures) == OverlapMultiplier(e, overlaps, measures)
  {
    ProdBySnoc(overlaps, o, Applies(e, measures));
  }

  /** An overlap with activity 0 selects the overlapped measure's links on that pressure for
      every activity; with a nonzero activity only that activity's. */
  lemma WildcardActivity(o: Overlap, e: MeasureEffect)
    requires e.measure == o.overlapped && e.pressure == o.pressure
    ensures o.activity == 0 ==> Hits(o, e)
    ensures o.activity != 0 ==> (Hits(o, e) <==> e.activity == o.activity)
  {
  }
}
