/**
 * Sequence-based processing (`calculate_transitions_between_areas`,
 * DataProcessor.py:156-216): the per-area columns of every entity, where an
 * area with no "in" sample at all contributes no columns, followed by the
 * filter that keeps the entities whose first-seen times strictly increase
 * from area 1 to area n.
 */
module SequenceValidator {
  import opened Wrappers
  import opened Exceptions
  import opened Geometry
  import opened PositionParser
  import opened AreaTagger
  import opened WindowAggregator

  /** One row of the table: CLIMAC and the `area{k+1}_*` fields of every area k (null where the columns are absent). */
  datatype TransitionRow = TransitionRow(climac: string, areas: seq<AreaWindow>)

  /**
   * The returned frame: which areas have `area{k+1}_*` columns at all, and the
   * surviving rows.
   */
  datatype TransitionTable = TransitionTable(hasColumns: seq<bool>, rows: seq<TransitionRow>)

  // ---------------------------------------------------------------------------
  // The ordering filter

  /**
   * The condition of line 209 for areas i+1 and i+2: both first-seen times
   * are non-null and the earlier area was entered strictly first.
   */
  predicate PairInOrder(row: TransitionRow, i: nat)
  {
    && i + 1 < |row.areas|
    && row.areas[i].firstSeen.Some?
    && row.areas[i + 1].firstSeen.Some?
    && row.areas[i].firstSeen.value < row.areas[i + 1].firstSeen.value
  }

  /** The first `m` consecutive pairs of areas are all in order. */
  predicate Ordered(row: TransitionRow, m: nat)
  {
    forall i :: 0 <= i < m ==> PairInOrder(row, i)
  }

  /** `valid_sequence[condition]` for one pair: the rows whose pair i is in order, in their order. */
  function KeepPair(rows: seq<TransitionRow>, i: nat): (r: seq<TransitionRow>)
    ensures |r| <= |rows|
  {
    if |rows| == 0 then []
    else
      var rest := KeepPair(rows[..|rows| - 1], i);
      if PairInOrder(rows[|rows| - 1], i) then rest + [rows[|rows| - 1]] else rest
  }

  /** The rows whose first `m` pairs are all in order, in their order: a single-pass reference filter. */
  function KeepOrdered(rows: seq<TransitionRow>, m: nat): (r: seq<TransitionRow>)
    ensures |r| <= |rows|
  {
    if |rows| == 0 then []
    else
      var rest := KeepOrdered(rows[..|rows| - 1], m);
      if Ordered(rows[|rows| - 1], m) then rest + [rows[|rows| - 1]] else rest
  }

  /** One filter step keeps exactly the rows whose pair i is in order. */
  lemma {:induction false} KeepPairMembers(rows: seq<TransitionRow>, i: nat)
    ensures forall row :: row in KeepPair(rows, i) <==> row in rows && PairInOrder(row, i)
  {
    if |rows| > 0 {
      var n := |rows| - 1;
      KeepPairMembers(rows[..n], i);
      assert rows == rows[..n] + [rows[n]];
    }
  }

  /** The reference filter keeps exactly the rows whose first m pairs are in order. */
  lemma {:induction false} KeepOrderedMembers(rows: seq<TransitionRow>, m: nat)
    ensures forall row :: row in KeepOrdered(rows, m) <==> row in rows && Ordered(row, m)
  {
    if |rows| > 0 {
      var n := |rows| - 1;
      KeepOrderedMembers(rows[..n], m);
      assert rows == rows[..n] + [rows[n]];
    }
  }

  /** `a` is `b` with some elements dropped and the rest in their order. */
  predicate Subsequence<T(==)>(a: seq<T>, b: seq<T>)
    decreases |b|
  {
    if |a| == 0 then true
    else if |b| == 0 then false
    else
      (a[|a| - 1] == b[|b| - 1] && Subsequence(a[..|a| - 1], b[..|b| - 1]))
      || Subsequence(a, b[..|b| - 1])
  }

  /** Filtering one more pair out of the rows filtered on the first m pairs filters on m+1 pairs. */
  lemma {:induction false} KeepPairExtends(rows: seq<TransitionRow>, m: nat)
    ensures KeepPair(KeepOrdered(rows, m), m) == KeepOrdered(rows, m + 1)
  {
    if |rows| > 0 {
      var n := |rows| - 1;
      KeepPairExtends(rows[..n], m);
      var last := rows[n];
      assert Ordered(last, m + 1) <==> Ordered(last, m) && PairInOrder(last, m);
      var kept := KeepOrdered(rows[..n], m);
      if Ordered(last, m) {
        assert KeepOrdered(rows, m) == kept + [last];
        assert (kept + [last])[..|kept|] == kept;
      }
    }
  }

  /** With no pair to check the filter keeps every row: zero or one area is a no-op. */
  lemma {:induction false} KeepNothingDropped(rows: seq<TransitionRow>)
    ensures KeepOrdered(rows, 0) == rows
  {
    if |rows| > 0 {
      KeepNothingDropped(rows[..|rows| - 1]);
      assert Ordered(rows[|rows| - 1], 0);
    }
  }

  /** The filter only drops rows: what it keeps is a subsequence of its input. */
  lemma {:induction false} KeepOrderedIsSubsequence(rows: seq<TransitionRow>, m: nat)
    ensures Subsequence(KeepOrdered(rows, m), rows)
  {
    if |rows| > 0 {
      var n := |rows| - 1;
      KeepOrderedIsSubsequence(rows[..n], m);
      var kept := KeepOrdered(rows[..n], m);
      if Ordered(rows[n], m) {
        var r := kept + [rows[n]];
        assert r[..|r| - 1] == kept;
      } else if |kept| > 0 {
        assert Subsequence(kept, rows);
      }
    }
  }

  /** One validation step on two areas keeps a row whose first-seen times rise (100, 200) and drops one whose times fall (300, 200) or whose second area is null. */
  lemma RisingPairKeptFallingOrNullDropped(w1: AreaWindow, w2: AreaWindow, w3: AreaWindow)
    requires w1.firstSeen == Some(100) && w2.firstSeen == Some(200) && w3.firstSeen == Some(300)
    ensures
      var a := TransitionRow("A", [w1, w2]);
      var b := TransitionRow("B", [w3, w2]);
      var c := TransitionRow("C", [w1, NullWindow]);
      KeepOrdered([a, b, c], 1) == [a]
  {
    var a := TransitionRow("A", [w1, w2]);
    var b := TransitionRow("B", [w3, w2]);
    var c := TransitionRow("C", [w1, NullWindow]);
    assert PairInOrder(a, 0) && !PairInOrder(b, 0) && !PairInOrder(c, 0);
    assert Ordered(a, 1) && !Ordered(b, 1) && !Ordered(c, 1);
    assert [a, b, c][..2] == [a, b] && [a, b][..1] == [a] && [a][..0] == [];
    assert KeepOrdered([a], 1) == [a];
    assert KeepOrdered([a, b], 1) == [a];
  }

  // ---------------------------------------------------------------------------
  // Columns and rows before the filter

  /** An area none of whose samples is classified "in": its `area_in_df` is empty. */
  ghost predicate EmptyArea(df: seq<Observation>, vertices: Polygon, ev: Evaluator)
  {
    forall q :: 0 <= q < |df| ==> CheckLeftArea(df[q], vertices, ev) != Success(In)
  }

  /** Which areas got `area{k+1}_*` columns: those with at least one "in" sample. */
  function Columns(df: seq<Observation>, tags: seq<seq<Label>>): (cols: seq<bool>)
    requires LabelsFit(df, tags)
    ensures |cols| == |tags|
  {
    seq(|tags|, k requires 0 <= k < |tags| => |InsideRows(df, tags[k])| > 0)
  }

  /** The windows of one entity in every area whose labels are given; an area without columns reads as null. */
  function PresentWindows(df: seq<Observation>, tags: seq<seq<Label>>, id: string): (w: seq<AreaWindow>)
    requires LabelsFit(df, tags)
    ensures |w| == |tags|
  {
    seq(|tags|, k requires 0 <= k < |tags| =>
      if |InsideRows(df, tags[k])| > 0 then WindowOf(GroupBy(InsideRows(df, tags[k])), id) else NullWindow)
  }

  /** `result_df` after the merges of all areas whose labels are given. */
  function TransitionRows(df: seq<Observation>, tags: seq<seq<Label>>): (rows: seq<TransitionRow>)
    requires LabelsFit(df, tags)
    ensures |rows| == |Distinct(df)|
  {
    var ids := Distinct(df);
    seq(|ids|, j requires 0 <= j < |ids| => TransitionRow(ids[j], PresentWindows(df, tags, ids[j])))
  }

  /** The index of the first false entry, or |cols| when there is none. */
  function FirstMissing(cols: seq<bool>): (k: nat)
    ensures k <= |cols|
    ensures forall i :: 0 <= i < k ==> cols[i]
    ensures k < |cols| ==> !cols[k]
  {
    if |cols| == 0 then 0 else if !cols[0] then 0 else 1 + FirstMissing(cols[1..])
  }

  /** FirstMissing is the only index with all entries before it set and its own entry clear (or the end). */
  lemma FirstMissingIs(cols: seq<bool>, j: nat)
    requires j <= |cols|
    requires forall k :: 0 <= k < j ==> cols[k]
    requires j < |cols| ==> !cols[j]
    ensures FirstMissing(cols) == j
  {
  }

  /** The number of consecutive pairs the loop of line 206 checks. */
  function PairCount(areas: nat): nat
  {
    if areas == 0 then 0 else areas - 1
  }

  /**
   * What `calculate_transitions_between_areas` returns, or the exception it
   * raises: a labelling exception, or the KeyError of the first
   * `area{k}_first_seen` column the validation loop reads and does not find.
   */
  function Transitions(df: seq<Observation>, areas: seq<Polygon>, ev: Evaluator): (r: Result<TransitionTable, Error>)
    ensures |df| == 0 ==> r == Success(TransitionTable([], []))
    ensures r.Success? && |df| > 0 ==> |r.value.hasColumns| == |areas|
  {
    if |df| == 0 then Success(TransitionTable([], []))
    else
      match TagAreas(df, areas, ev)
      case Failure(e) => Failure(e)
      case Success(tags) =>
        Validate(Columns(df, tags), TransitionRows(df, tags))
  }

  /**
   * The validation loop of lines 205-211 over a table with one column flag
   * per area: the KeyError of the first absent column it reads, or the rows
   * kept by all pair filters.
   */
  function Validate(cols: seq<bool>, rows: seq<TransitionRow>): (r: Result<TransitionTable, Error>)
    ensures r.Success? ==> r.value.hasColumns == cols
    ensures r.Failure? ==> r.error.MissingColumn? && 2 <= |cols| && 1 <= r.error.area <= |cols|
  {
    if |cols| >= 2 && FirstMissing(cols) < |cols| then Failure(MissingColumn(FirstMissing(cols) + 1))
    else Success(TransitionTable(cols, KeepOrdered(rows, PairCount(|cols|))))
  }

  // ---------------------------------------------------------------------------
  // The operation

  /** Merging one more area appends that area's window, or a null one when it has no "in" sample. */
  lemma MergeTransitionArea(df: seq<Observation>, tags: seq<seq<Label>>, labels: seq<Label>)
    requires LabelsFit(df, tags) && |labels| == |df|
    ensures LabelsFit(df, tags + [labels])
    ensures Columns(df, tags + [labels]) == Columns(df, tags) + [|InsideRows(df, labels)| > 0]
    ensures var w := (id: string) => if |InsideRows(df, labels)| > 0 then WindowOf(GroupBy(InsideRows(df, labels)), id) else NullWindow;
      TransitionRows(df, tags + [labels])
        == seq(|TransitionRows(df, tags)|, j requires 0 <= j < |TransitionRows(df, tags)| =>
               TransitionRows(df, tags)[j].(areas := TransitionRows(df, tags)[j].areas + [w(TransitionRows(df, tags)[j].climac)]))
  {
    var ts := tags + [labels];
    assert LabelsFit(df, ts);
    forall id ensures PresentWindows(df, ts, id) == PresentWindows(df, tags, id) +
      [if |InsideRows(df, labels)| > 0 then WindowOf(GroupBy(InsideRows(df, labels)), id) else NullWindow] {
    }
  }

  /**
   * `calculate_transitions_between_areas`: label and merge area after area,
   * skipping areas without an "in" sample, then narrow the rows pair by pair.
   */
  method CalculateTransitionsBetweenAreas(df: seq<Observation>, areas: seq<Polygon>, ev: Evaluator)
    returns (result: Result<TransitionTable, Error>)
    ensures result == Transitions(df, areas, ev)
  {
    if |df| == 0 {
      return Success(TransitionTable([], []));
    }
    var ids := Distinct(df);
    var rows := seq(|ids|, j requires 0 <= j < |ids| => TransitionRow(ids[j], []));
    var cols: seq<bool> := [];
    ghost var tags: seq<seq<Label>> := [];
    assert rows == TransitionRows(df, tags);
    for index := 0 to |areas|
      invariant |tags| == index && LabelsFit(df, tags)
      invariant forall k :: 0 <= k < index ==> TagRows(df, areas[k], ev) == Success(tags[k])
      invariant cols == Columns(df, tags)
      invariant rows == TransitionRows(df, tags)
    {
      var labels := TagRows(df, areas[index], ev);
      if labels.Failure? {
        TagAreasFailsAt(df, areas, ev, index);
        return Failure(labels.error);
      }
      var areaIn := InsideRows(df, labels.value);
      MergeTransitionArea(df, tags, labels.value);
      if |areaIn| == 0 {
        cols := cols + [false];
        rows := seq(|rows|, j requires 0 <= j < |rows| => rows[j].(areas := rows[j].areas + [NullWindow]));
      } else {
        var g := GroupBy(areaIn);
        cols := cols + [true];
        rows := seq(|rows|, j requires 0 <= j < |rows| => rows[j].(areas := rows[j].areas + [WindowOf(g, rows[j].climac)]));
      }
      tags := tags + [labels.value];
    }
    TagAreasSucceeds(df, areas, ev, tags);
    result := ValidateSequence(cols, rows);
  }

  /** The validation loop: check the columns of areas i and i+1, then keep the rows with that pair in order. */
  method ValidateSequence(cols: seq<bool>, rows: seq<TransitionRow>) returns (result: Result<TransitionTable, Error>)
    ensures result == Validate(cols, rows)
  {
    KeepNothingDropped(rows);
    var valid := rows;
    var i := 1;
    while i < |cols|
      invariant 1 <= i <= if |cols| == 0 then 1 else |cols|
      invariant forall k :: 0 <= k < i - 1 ==> cols[k]
      invariant i > 1 ==> cols[i - 1]
      invariant valid == KeepOrdered(rows, i - 1)
    {
      if !cols[i - 1] {
        ValidateMissingAt(cols, rows, i - 1);
        return Failure(MissingColumn(i));
      }
      if !cols[i] {
        ValidateMissingAt(cols, rows, i);
        return Failure(MissingColumn(i + 1));
      }
      valid := FilterPair(valid, rows, i - 1);
      i := i + 1;
    }
    ValidateComplete(cols, rows, i);
    return Success(TransitionTable(cols, valid));
  }

  /** `valid_sequence[condition]`: narrow the rows filtered on the first m pairs by pair m. */
  method FilterPair(valid: seq<TransitionRow>, ghost rows: seq<TransitionRow>, m: nat) returns (next: seq<TransitionRow>)
    requires valid == KeepOrdered(rows, m)
    ensures next == KeepOrdered(rows, m + 1)
  {
    KeepPairExtends(rows, m);
    next := KeepPair(valid, m);
  }

  /** With two areas or more, the first absent column j raises KeyError for area j+1. */
  lemma ValidateMissingAt(cols: seq<bool>, rows: seq<TransitionRow>, j: nat)
    requires 2 <= |cols| && j < |cols| && !cols[j]
    requires forall k :: 0 <= k < j ==> cols[k]
    ensures Validate(cols, rows) == Failure(MissingColumn(j + 1))
  {
    FirstMissingIs(cols, j);
  }

  /** When the loop has checked every pair without a KeyError, all pair filters have been applied. */
  lemma ValidateComplete(cols: seq<bool>, rows: seq<TransitionRow>, i: nat)
    requires 1 <= i && i >= |cols|
    requires i <= if |cols| == 0 then 1 else |cols|
    requires forall k :: 0 <= k < i - 1 ==> cols[k]
    requires i > 1 ==> cols[i - 1]
    ensures Validate(cols, rows) == Success(TransitionTable(cols, KeepOrdered(rows, i - 1)))
  {
    if |cols| >= 2 {
      FirstMissingIs(cols, |cols|);
    }
  }

  // ---------------------------------------------------------------------------
  // Properties

  /** The first/last-seen rows with their main columns dropped, to compare them with the transition rows. */
  function Project(rows: seq<ResultRow>): seq<TransitionRow>
  {
    seq(|rows|, j requires 0 <= j < |rows| => TransitionRow(rows[j].climac, rows[j].areas))
  }

  /** An area without "in" samples has no group for any entity, so its absent columns read as the null window. */
  lemma PresentWindowsAreAreaWindows(df: seq<Observation>, tags: seq<seq<Label>>, id: string)
    requires LabelsFit(df, tags)
    ensures PresentWindows(df, tags, id) == AreaWindows(df, tags, id)
  {
    forall k | 0 <= k < |tags| ensures PresentWindows(df, tags, id)[k] == AreaWindows(df, tags, id)[k] {
      if |InsideRows(df, tags[k])| == 0 {
        assert InsideRows(df, tags[k]) == [];
      }
    }
  }

  /** An area has columns exactly when one of the batch's samples is classified "in" there. */
  lemma ColumnPresentIff(df: seq<Observation>, areas: seq<Polygon>, ev: Evaluator, k: nat)
    requires TagAreas(df, areas, ev).Success? && k < |areas|
    ensures Columns(df, TagAreas(df, areas, ev).value)[k] <==> !EmptyArea(df, areas[k], ev)
  {
    var labels := TagAreas(df, areas, ev).value[k];
    assert TagRows(df, areas[k], ev) == Success(labels);
    InsideNonEmptyIff(df, labels, areas[k], ev);
  }

  lemma InsideNonEmptyIff(df: seq<Observation>, labels: seq<Label>, vertices: Polygon, ev: Evaluator)
    requires |labels| == |df|
    requires forall q :: 0 <= q < |df| ==> CheckLeftArea(df[q], vertices, ev) == Success(labels[q])
    ensures |InsideRows(df, labels)| > 0 <==> !EmptyArea(df, vertices, ev)
  {
    var inside := InsideRows(df, labels);
    forall q | 0 <= q < |df| ensures CheckLeftArea(df[q], vertices, ev) == Success(In) ==> df[q] in inside {
    }
    if |inside| > 0 {
      assert inside[0] in inside;
    }
  }

  /**
   * The rows returned are exactly the first/last-seen rows, main columns
   * aside, whose first-seen times increase strictly across all areas, kept
   * in the order of first appearance.
   */
  lemma TransitionsAgreeWithFirstLastSeen(df: seq<Observation>, areas: seq<Polygon>, ev: Evaluator)
    requires Transitions(df, areas, ev).Success? && |df| > 0
    ensures FirstLastSeen(df, areas, ev).Success?
    ensures Transitions(df, areas, ev).value.rows
      == KeepOrdered(Project(FirstLastSeen(df, areas, ev).value), PairCount(|areas|))
    ensures forall row :: row in Transitions(df, areas, ev).value.rows <==>
      row in Project(FirstLastSeen(df, areas, ev).value) && Ordered(row, PairCount(|areas|))
    ensures Subsequence(Transitions(df, areas, ev).value.rows, Project(FirstLastSeen(df, areas, ev).value))
  {
    var tags := TagAreas(df, areas, ev).value;
    var all := Project(Rows(df, tags));
    forall j | 0 <= j < |all| ensures all[j] == TransitionRows(df, tags)[j] {
      PresentWindowsAreAreaWindows(df, tags, Distinct(df)[j]);
    }
    assert all == TransitionRows(df, tags);
    KeepOrderedMembers(all, PairCount(|areas|));
    KeepOrderedIsSubsequence(all, PairCount(|areas|));
  }

  /** A labelling exception is raised exactly as by the first/last-seen aggregation. */
  lemma TransitionsLabellingErrors(df: seq<Observation>, areas: seq<Polygon>, ev: Evaluator)
    ensures FirstLastSeen(df, areas, ev).Failure? ==>
      Transitions(df, areas, ev) == Failure(FirstLastSeen(df, areas, ev).error)
    ensures Transitions(df, areas, ev).Failure? && FirstLastSeen(df, areas, ev).Success? ==>
      Transitions(df, areas, ev).error.MissingColumn?
  {
  }

  /**
   * With two or more areas, the KeyError names area a exactly when area a is
   * the first area none of whose samples is classified "in"; with fewer
   * areas no column is ever read.
   */
  lemma MissingColumnIff(df: seq<Observation>, areas: seq<Polygon>, ev: Evaluator, a: nat)
    requires TagAreas(df, areas, ev).Success? && |df| > 0
    ensures Transitions(df, areas, ev) == Failure(MissingColumn(a)) <==>
      && 2 <= |areas| && 1 <= a <= |areas|
      && EmptyArea(df, areas[a - 1], ev)
      && (forall k :: 0 <= k < a - 1 ==> !EmptyArea(df, areas[k], ev))
  {
    var tags := TagAreas(df, areas, ev).value;
    var cols := Columns(df, tags);
    assert Transitions(df, areas, ev) == Validate(cols, TransitionRows(df, tags));
    forall k | 0 <= k < |areas| ensures cols[k] <==> !EmptyArea(df, areas[k], ev) {
      ColumnPresentIff(df, areas, ev, k);
    }
    ValidateMissingIff(cols, TransitionRows(df, tags), a);
  }

  /** The validation loop raises for column a exactly when a is the first absent one and there are two areas or more. */
  lemma ValidateMissingIff(cols: seq<bool>, rows: seq<TransitionRow>, a: nat)
    ensures Validate(cols, rows) == Failure(MissingColumn(a)) <==>
      2 <= |cols| && 1 <= a <= |cols| && !cols[a - 1] && forall k :: 0 <= k < a - 1 ==> cols[k]
  {
    if 2 <= |cols| && 1 <= a <= |cols| && !cols[a - 1] && forall k :: 0 <= k < a - 1 ==> cols[k] {
      FirstMissingIs(cols, a - 1);
    }
  }
}
