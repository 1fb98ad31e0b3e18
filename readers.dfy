/** Cell-level rules of the spreadsheet readers: `;`-separated id lists, the defaults that
    replace empty cells, and the subpressure equivalence multiplier. */
module Readers {
  import opened Wrappers
  import opened Numeric
  import opened Text
  import opened Distributions
  import Scenario

  // ---------------------------------------------------------------------------------------
  // `;`-separated id lists

  /** The position of the first `sep` in `s`. */
  function FirstIndex(s: string, sep: char): (i: nat)
    requires sep in s
    ensures i < |s| && s[i] == sep && sep !in s[..i]
  {
    if s[0] == sep then 0
    else
      assert s == [s[0]] + s[1..];
      var j := FirstIndex(s[1..], sep);
      assert s[..j + 1] == [s[0]] + s[1..][..j];
      j + 1
  }

  /** Python's `s.split(sep)`: the pieces between separators, empty ones included. */
  function Split(s: string, sep: char): (parts: seq<string>)
    ensures |parts| >= 1
    ensures forall i :: 0 <= i < |parts| ==> sep !in parts[i]
    decreases |s|
  {
    if sep !in s then [s]
    else
      var i := FirstIndex(s, sep);
      [s[..i]] + Split(s[i + 1..], sep)
  }

  /** Python's `sep.join(parts)`. */
  function Join(parts: seq<string>, sep: char): string
    requires |parts| >= 1
  {
    if |parts| == 1 then parts[0] else parts[0] + [sep] + Join(parts[1..], sep)
  }

  /** Joining the pieces back gives the original text. */
  lemma {:induction false} JoinSplit(s: string, sep: char)
    ensures Join(Split(s, sep), sep) == s
    decreases |s|
  {
    if sep in s {
      var i := FirstIndex(s, sep);
      JoinSplit(s[i + 1..], sep);
      assert Split(s, sep)[1..] == Split(s[i + 1..], sep);
      assert s == s[..i] + [sep] + s[i + 1..];
    }
  }

  /** Splitting undoes joining separator-free pieces. */
  lemma {:induction false} SplitJoin(parts: seq<string>, sep: char)
    requires |parts| >= 1
    requires forall i :: 0 <= i < |parts| ==> sep !in parts[i]
    ensures Split(Join(parts, sep), sep) == parts
  {
    if |parts| > 1 {
      var rest := Join(parts[1..], sep);
      SplitJoin(parts[1..], sep);
      SplitFirst(parts[0], sep, rest);
      assert parts == [parts[0]] + parts[1..];
    }
  }

  /** Splitting `head + [sep] + rest`, with no separator in `head`, cuts at that separator. */
  lemma SplitFirst(head: string, sep: char, rest: string)
    requires sep !in head
    ensures Split(head + [sep] + rest, sep) == [head] + Split(rest, sep)
  {
    var s := head + [sep] + rest;
    var i := FirstIndex(s, sep);
    assert forall j :: 0 <= j < |head| ==> s[j] == head[j] != sep;
    assert forall j :: 0 <= j < i ==> s[..i][j] == s[j] != sep;
    assert s[|head|] == sep;
    assert i == |head|;
    assert s[..i] == head && s[i + 1..] == rest;
  }

  /** The non-empty pieces, in order (`filter(None, ...)`). */
  function NonEmpty(parts: seq<string>): (r: seq<string>)
    ensures forall i :: 0 <= i < |r| ==> r[i] != [] && r[i] in parts
    ensures forall p :: p in parts && p != [] ==> p in r
  {
    if |parts| == 0 then []
    else
      assert parts == [parts[0]] + parts[1..];
      if parts[0] == [] then NonEmpty(parts[1..]) else [parts[0]] + NonEmpty(parts[1..])
  }

  /** `list(filter(None, s.split(';')))`: the ids written in a cell. */
  function SplitIds(s: string): (ids: seq<string>)
    ensures forall i :: 0 <= i < |ids| ==> ids[i] != [] && ';' !in ids[i]
  {
    NonEmpty(Split(s, ';'))
  }

  /** The characters of `s` other than `sep`, in order. */
  function Without(s: string, sep: char): string
  {
    if |s| == 0 then [] else (if s[0] == sep then [] else [s[0]]) + Without(s[1..], sep)
  }

  function Concat(parts: seq<string>): string
  {
    if |parts| == 0 then [] else parts[0] + Concat(parts[1..])
  }

  /** The ids of a cell hold every character of the cell except the separators, in order:
      nothing is lost but the `;` and the empty pieces between them. */
  lemma SplitIdsKeepsCharacters(s: string)
    ensures Concat(SplitIds(s)) == Without(s, ';')
  {
    ConcatNonEmpty(Split(s, ';'));
    ConcatSplit(s, ';');
  }

  lemma {:induction false} ConcatNonEmpty(parts: seq<string>)
    ensures Concat(NonEmpty(parts)) == Concat(parts)
  {
    if |parts| > 0 {
      ConcatNonEmpty(parts[1..]);
      if parts[0] == [] {
        assert Concat(parts) == [] + Concat(parts[1..]);
      }
    }
  }

  lemma {:induction false} ConcatSplit(s: string, sep: char)
    ensures Concat(Split(s, sep)) == Without(s, sep)
    decreases |s|
  {
    if sep in s {
      var i := FirstIndex(s, sep);
      var a, b := s[..i], s[i + 1..];
      assert Split(s, sep) == [a] + Split(b, sep);
      ConcatSplit(b, sep);
      assert Concat(Split(s, sep)) == a + Without(b, sep);
      assert s == a + ([sep] + b);
      WithoutAppend(a, [sep] + b, sep);
      assert ([sep] + b)[1..] == b;
      assert Without([sep] + b, sep) == Without(b, sep);
      WithoutFree(a, sep);
    } else {
      WithoutFree(s, sep);
      assert Concat([s]) == s + [];
    }
  }

  lemma {:induction false} WithoutAppend(a: string, b: string, sep: char)
    ensures Without(a + b, sep) == Without(a, sep) + Without(b, sep)
  {
    if |a| > 0 {
      assert (a + b)[1..] == a[1..] + b;
      WithoutAppend(a[1..], b, sep);
    } else {
      assert a + b == b;
    }
  }

  lemma {:induction false} WithoutFree(s: string, sep: char)
    requires sep !in s
    ensures Without(s, sep) == s
  {
    if |s| > 0 {
      WithoutFree(s[1..], sep);
      assert s == [s[0]] + s[1..];
    }
  }

  /** Writing ids separated by `;` and reading the cell back gives the same ids. */
  lemma SplitIdsJoin(ids: seq<string>)
    requires |ids| >= 1
    requires forall i :: 0 <= i < |ids| ==> ids[i] != [] && ';' !in ids[i]
    ensures SplitIds(Join(ids, ';')) == ids
  {
    SplitJoin(ids, ';');
    NonEmptyKeepsFull(ids);
  }

  lemma {:induction false} NonEmptyKeepsFull(parts: seq<string>)
    requires forall i :: 0 <= i < |parts| ==> parts[i] != []
    ensures NonEmpty(parts) == parts
  {
    if |parts| > 0 {
      NonEmptyKeepsFull(parts[1..]);
    }
  }

  /** The errors of turning a cell into ids. */
  datatype ReadError =
    | NotAnInteger(piece: string)   // `int()` of a piece that is not a plain number
    | NoIds                         // a `nan` id (an empty cell, or an empty list exploded), which `astype(int)` refuses

  /** `int()` of each piece; only plain digit strings are numbers here. */
  function ParseIds(pieces: seq<string>): (r: Result<seq<nat>, ReadError>)
    ensures r.Success? ==> |r.value| == |pieces|
    ensures r.Success? ==> forall i :: 0 <= i < |pieces| ==> IsDigits(pieces[i]) && r.value[i] == ParseNat(pieces[i])
    ensures r.Failure? ==> exists i :: 0 <= i < |pieces| && !IsDigits(pieces[i])
  {
    if |pieces| == 0 then Success([])
    else if !IsDigits(pieces[0]) then Failure(NotAnInteger(pieces[0]))
    else
      match ParseIds(pieces[1..])
      case Failure(e) => Failure(e)
      case Success(rest) => Success([ParseNat(pieces[0])] + rest)
  }

  /** An id cell: empty (`nan`), text to split, or a number kept as it is. */
  datatype IdCell = EmptyCell | TextCell(text: string) | NumberCell(number: int)

  /** The ids a cell stands for, as `explode` followed by `astype(int)` produces them. */
  function CellIds(cell: IdCell): (r: Result<seq<int>, ReadError>)
    ensures r.Success? ==> |r.value| >= 1
    ensures cell.EmptyCell? ==> r == Failure(NoIds)
    ensures cell.NumberCell? ==> r == Success([cell.number])
    ensures cell.TextCell? ==>
      (r.Success? <==> |SplitIds(cell.text)| > 0 && forall p :: p in SplitIds(cell.text) ==> IsDigits(p))
    ensures cell.TextCell? && r.Success? ==> |r.value| == |SplitIds(cell.text)|
    ensures cell.TextCell? && r.Success? ==>
      forall i :: 0 <= i < |r.value| ==> r.value[i] == ParseNat(SplitIds(cell.text)[i])
  {
    match cell
    case EmptyCell => Failure(NoIds)
    case NumberCell(n) => Success([n])
    case TextCell(s) =>
      var pieces := SplitIds(s);
      if |pieces| == 0 then Failure(NoIds)
      else
        match ParseIds(pieces)
        case Failure(e) => Failure(e)
        case Success(ns) => Success(seq(|ns|, i requires 0 <= i < |ns| => ns[i] as int))
  }

  function Render(ns: seq<nat>): (pieces: seq<string>)
    ensures |pieces| == |ns|
    ensures forall i :: 0 <= i < |ns| ==> pieces[i] == NatToString(ns[i])
  {
    seq(|ns|, i requires 0 <= i < |ns| => NatToString(ns[i]))
  }

  /** A cell listing numbers separated by `;` reads back as those numbers. */
  lemma CellIdsRoundTrip(ns: seq<nat>)
    requires |ns| >= 1
    ensures CellIds(TextCell(Join(Render(ns), ';'))) == Success(seq(|ns|, i requires 0 <= i < |ns| => ns[i] as int))
  {
    var pieces := Render(ns);
    forall i | 0 <= i < |pieces| ensures pieces[i] != [] && ';' !in pieces[i] {
      assert IsDigits(pieces[i]);
    }
    SplitIdsJoin(pieces);
    forall i | 0 <= i < |ns| ensures ParseNat(pieces[i]) == ns[i] {
      ParseNatToString(ns[i]);
    }
    ParseRendered(ns);
  }

  lemma {:induction false} ParseRendered(ns: seq<nat>)
    ensures ParseIds(Render(ns)) == Success(ns)
  {
    if |ns| > 0 {
      var pieces := Render(ns);
      ParseRendered(ns[1..]);
      assert pieces[1..] == Render(ns[1..]);
      ParseNatToString(ns[0]);
      assert IsDigits(pieces[0]) && ParseNat(pieces[0]) == ns[0];
      assert ParseIds(pieces) == Success([ns[0]] + ns[1..]);
      assert ns == [ns[0]] + ns[1..];
    }
  }

  // ---------------------------------------------------------------------------------------
  // Defaults for empty cells

  /** An id column cell: empty becomes 0, a number is truncated to an integer. */
  function IdOrZero(cell: Option<real>): (id: int)
    ensures cell.None? ==> id == 0
    ensures cell.Some? && cell.value >= 0.0 ==> 0 <= id && id as real <= cell.value < id as real + 1.0
    ensures cell.Some? && cell.value < 0.0 ==> id <= 0 && id as real - 1.0 < cell.value <= id as real
  {
    match cell
    case None => 0
    case Some(x) => Trunc(x)
  }

  /** A whole-number id survives the conversion. */
  lemma IdOrZeroWhole(n: int)
    ensures IdOrZero(Some(n as real)) == n
  {
  }

  /** A development scenario's percentual change as a multiplier: an empty cell means no
      change, and 1 is added to the change. */
  function ScenarioMultiplier(change: Option<real>): (m: real)
    ensures change.None? ==> m == 1.0
    ensures change.Some? ==> m - 1.0 == change.value
  {
    (match change case None => 0.0 case Some(c) => c) + 1.0
  }

  /** The development-scenario rows read from the `Activity` column and one scenario column,
      empty changes filled with 0 and 1 added. */
  function ScenarioRows(activities: seq<int>, changes: seq<Option<real>>): (s: seq<Scenario.DevScenario>)
    requires |activities| == |changes|
    ensures |s| == |activities|
    ensures forall k :: 0 <= k < |s| ==> s[k].activity == activities[k]
    ensures forall k :: 0 <= k < |s| ==> s[k].multiplier == ScenarioMultiplier(changes[k])
  {
    seq(|activities|, k requires 0 <= k < |activities| => Scenario.DevScenario(activities[k], ScenarioMultiplier(changes[k])))
  }

  /** A scenario sheet whose change cells are all empty leaves the activity contributions
      exactly as they were. */
  lemma EmptyChangesKeepRows(rows: seq<Scenario.ActContribution>, activities: seq<int>, changes: seq<Option<real>>)
    requires |activities| == |changes|
    requires forall k :: 0 <= k < |changes| ==> changes[k].None?
    ensures Scenario.ScenarioOf(rows, ScenarioRows(activities, changes)) == rows
  {
    var s := ScenarioRows(activities, changes);
    forall i | 0 <= i < |rows|
      ensures Scenario.DevMultiplier(s, rows[i].activity) == 1.0
    {
      NeutralMultipliers(s, rows[i].activity);
    }
    Scenario.NeutralScenario(rows, s);
  }

  lemma {:induction false} NeutralMultipliers(s: seq<Scenario.DevScenario>, activity: int)
    requires forall k :: 0 <= k < |s| ==> s[k].multiplier == 1.0
    ensures Scenario.DevMultiplier(s, activity) == 1.0
  {
    if |s| > 0 {
      NeutralMultipliers(s[1..], activity);
    }
  }

  /** A row whose activity first appears at scenario row k is scaled by 1 + change when the
      change cell is filled, and is left as it is when the cell is empty. */
  lemma ChangeScalesActivity(rows: seq<Scenario.ActContribution>, activities: seq<int>, changes: seq<Option<real>>, i: nat, k: nat)
    requires |activities| == |changes| && i < |rows| && k < |activities|
    requires activities[k] == rows[i].activity
    requires forall j :: 0 <= j < k ==> activities[j] != rows[i].activity
    ensures changes[k].None? ==> Scenario.Scaled(rows, ScenarioRows(activities, changes))[i] == rows[i]
    ensures changes[k].Some? ==>
      Scenario.Scaled(rows, ScenarioRows(activities, changes))[i].value == rows[i].value * (1.0 + changes[k].value)
  {
    var s := ScenarioRows(activities, changes);
    Scenario.DevMultiplierFirst(s, rows[i].activity, k);
    if changes[k].Some? {
      assert s[k].multiplier == changes[k].value + 1.0;
    }
  }

  /** One expert's activity-contribution answer: a missing bound is replaced by the most likely
      value, and every expert has weight 1. */
  function ContributionAnswer(expected: Option<real>, lower: Option<real>, upper: Option<real>): (a: Answer)
    ensures a.expected == expected && a.weight == 1.0
    ensures Answered(a) <==> expected.Some?
    ensures lower.Some? ==> a.lower == lower
    ensures upper.Some? ==> a.upper == upper
    ensures lower.None? ==> a.lower == expected
    ensures upper.None? ==> a.upper == expected
  {
    Answer(expected, if lower.None? then expected else lower, if upper.None? then expected else upper, 1.0)
  }

  /** An expert who gave only the most likely value e contributes 5000 copies of e. */
  lemma OnlyMostLikely(e: real, i: nat, draw: (nat, real, real, nat) -> real)
    requires forall i, a, b, j :: 0.0 <= draw(i, a, b, j) <= 1.0
    ensures ExpertSamples(ContributionAnswer(Some(e), None, None), i, draw) == Success(seq(5000, _ => e))
  {
    assert Trunc(1.0 * NumberOfPicks) == 5000;
  }

  // ---------------------------------------------------------------------------------------
  // assign_multiplier

  /** A subpressure's multiplier from its equivalence: the equivalence itself when at most 1,
      otherwise 0 (also for an empty cell, since comparisons with `nan` are false). */
  function AssignMultiplier(equivalence: Option<real>): (m: real)
    ensures m <= 1.0
    ensures equivalence.Some? && equivalence.value <= 1.0 ==> m == equivalence.value
    ensures equivalence.None? || equivalence.value > 1.0 ==> m == 0.0
  {
    match equivalence
    case None => 0.0
    case Some(e) => if e <= 1.0 then e else if e == 2.0 then 0.0 else if e == 3.0 then 0.0 else 0.0
  }

  /** For a non-negative equivalence the multiplier is a fraction in [0, 1]. */
  lemma MultiplierIsFraction(e: real)
    requires e >= 0.0
    ensures 0.0 <= AssignMultiplier(Some(e)) <= 1.0
  {
  }
}
