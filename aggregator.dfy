/**
 * Per-entity aggregation of a batch (`calculate_first_last_seen`,
 * DataProcessor.py:93-154): one row per distinct CLIMAC with the
 * first/last-seen times and elapsed minutes over all its samples, and for
 * every area the first/last-seen times, the sample-count total and its
 * category over the samples labelled "in".
 */
module WindowAggregator {
  import opened Wrappers
  import opened Exceptions
  import opened Geometry
  import opened PositionParser
  import opened AreaTagger
  import opened Dwell

  /** What `groupby('CLIMAC')` computes per entity: `min()`, `max()` and `size()` of the timestamps. */
  datatype Stats = Stats(first: int, last: int, count: nat)

  /** One entity's fields for one area; all four are null when it has no "in" sample there. */
  datatype AreaWindow = AreaWindow(firstSeen: Option<int>, lastSeen: Option<int>, total: Option<int>, category: Option<Category>)

  const NullWindow := AreaWindow(None, None, None, None)

  /** One output row: CLIMAC, the `main_*` columns, then `area{k+1}_*` for every area k. */
  datatype ResultRow = ResultRow(climac: string, mainFirstSeen: int, mainLastSeen: int, mainTotal: int, areas: seq<AreaWindow>)

  // ---------------------------------------------------------------------------
  // Entities and their samples

  /** `df['CLIMAC'].unique()`: the entities in order of first appearance. */
  function Distinct(rows: seq<Observation>): (ids: seq<string>)
    ensures |ids| <= |rows|
  {
    if |rows| == 0 then []
    else
      var ids := Distinct(rows[..|rows| - 1]);
      if rows[|rows| - 1].climac in ids then ids else ids + [rows[|rows| - 1].climac]
  }

  ghost predicate Occurs(rows: seq<Observation>, id: string)
  {
    exists q :: 0 <= q < |rows| && rows[q].climac == id
  }

  /** `t` is the smallest timestamp among the samples of `id`. */
  ghost predicate IsEarliest(rows: seq<Observation>, id: string, t: int)
  {
    && (exists q :: 0 <= q < |rows| && rows[q].climac == id && rows[q].windowStart == t)
    && (forall q :: 0 <= q < |rows| && rows[q].climac == id ==> t <= rows[q].windowStart)
  }

  /** `t` is the largest timestamp among the samples of `id`. */
  ghost predicate IsLatest(rows: seq<Observation>, id: string, t: int)
  {
    && (exists q :: 0 <= q < |rows| && rows[q].climac == id && rows[q].windowStart == t)
    && (forall q :: 0 <= q < |rows| && rows[q].climac == id ==> rows[q].windowStart <= t)
  }

  /** The number of samples of `id`. */
  function Count(rows: seq<Observation>, id: string): nat
  {
    if |rows| == 0 then 0
    else Count(rows[..|rows| - 1], id) + (if rows[|rows| - 1].climac == id then 1 else 0)
  }

  /** The number of samples of `id` labelled "in". */
  function CountIn(rows: seq<Observation>, labels: seq<Label>, id: string): nat
    requires |labels| == |rows|
  {
    if |rows| == 0 then 0
    else
      CountIn(rows[..|rows| - 1], labels[..|rows| - 1], id)
      + (if rows[|rows| - 1].climac == id && labels[|rows| - 1] == In then 1 else 0)
  }

  lemma {:induction false} DistinctCorrect(rows: seq<Observation>)
    ensures forall i, j :: 0 <= i < j < |Distinct(rows)| ==> Distinct(rows)[i] != Distinct(rows)[j]
    ensures forall id :: id in Distinct(rows) <==> Occurs(rows, id)
  {
    if |rows| > 0 {
      var init := rows[..|rows| - 1];
      DistinctCorrect(init);
      forall id
        ensures Occurs(rows, id) <==> Occurs(init, id) || rows[|rows| - 1].climac == id
      {
        if Occurs(rows, id) && rows[|rows| - 1].climac != id {
          var q :| 0 <= q < |rows| && rows[q].climac == id;
          assert init[q] == rows[q];
        }
        if Occurs(init, id) {
          var q :| 0 <= q < |init| && init[q].climac == id;
          assert rows[q] == init[q];
        }
      }
    }
  }

  /** Entities are listed in order of first appearance: an earlier one was seen before any sample of a later one. */
  lemma {:induction false} DistinctOrder(rows: seq<Observation>, i: nat, j: nat, q: nat)
    requires i < j < |Distinct(rows)| && q < |rows| && rows[q].climac == Distinct(rows)[j]
    ensures exists p :: 0 <= p < q && rows[p].climac == Distinct(rows)[i]
  {
    var init := rows[..|rows| - 1];
    var ids := Distinct(init);
    DistinctCorrect(init);
    if j < |ids| {
      if q < |init| {
        DistinctOrder(init, i, j, q);
        var p :| 0 <= p < q && init[p].climac == ids[i];
        assert rows[p] == init[p];
      } else {
        assert Occurs(init, ids[j]);
        var q' :| 0 <= q' < |init| && init[q'].climac == ids[j];
        DistinctOrder(init, i, j, q');
        var p :| 0 <= p < q' && init[p].climac == ids[i];
        assert rows[p] == init[p];
      }
    } else {
      assert Distinct(rows) == ids + [rows[|rows| - 1].climac];
      assert !Occurs(init, rows[|rows| - 1].climac);
      assert forall q' :: 0 <= q' < |init| ==> rows[q'].climac != rows[|rows| - 1].climac;
      assert q == |rows| - 1;
      assert Occurs(init, ids[i]);
      var p :| 0 <= p < |init| && init[p].climac == ids[i];
      assert rows[p] == init[p];
    }
  }

  // ---------------------------------------------------------------------------
  // groupby('CLIMAC') with min, max and size

  /** Adds one sample to the per-entity statistics. */
  function Observe(g: map<string, Stats>, o: Observation): map<string, Stats>
  {
    if o.climac in g then
      var s := g[o.climac];
      g[o.climac := Stats(if o.windowStart < s.first then o.windowStart else s.first,
                          if o.windowStart > s.last then o.windowStart else s.last,
                          s.count + 1)]
    else
      g[o.climac := Stats(o.windowStart, o.windowStart, 1)]
  }

  /** `groupby('CLIMAC')` over the rows, with `min()`, `max()` and `size()` of WINDOW_START. */
  function GroupBy(rows: seq<Observation>): (g: map<string, Stats>)
    ensures forall id :: id in g ==> g[id].first <= g[id].last && g[id].count > 0
  {
    if |rows| == 0 then map[] else Observe(GroupBy(rows[..|rows| - 1]), rows[|rows| - 1])
  }

  /** The group of an entity exists iff it has a sample, and holds the min, the max and the number of its samples. */
  lemma GroupByCorrect(rows: seq<Observation>, id: string)
    ensures id in GroupBy(rows) <==> Occurs(rows, id)
    ensures id in GroupBy(rows) ==>
      && IsEarliest(rows, id, GroupBy(rows)[id].first)
      && IsLatest(rows, id, GroupBy(rows)[id].last)
      && GroupBy(rows)[id].count == Count(rows, id)
    ensures id !in GroupBy(rows) ==> Count(rows, id) == 0
  {
    GroupByMembers(rows, id);
    if id in GroupBy(rows) {
      GroupByFirst(rows, id);
      GroupByLast(rows, id);
      GroupByCount(rows, id);
    }
  }

  lemma {:induction false} GroupByMembers(rows: seq<Observation>, id: string)
    ensures id in GroupBy(rows) <==> Occurs(rows, id)
    ensures id !in GroupBy(rows) ==> Count(rows, id) == 0
  {
    if |rows| > 0 {
      var n := |rows| - 1;
      var init := rows[..n];
      GroupByMembers(init, id);
      if Occurs(rows, id) && rows[n].climac != id {
        var q :| 0 <= q < |rows| && rows[q].climac == id;
        assert init[q] == rows[q];
      }
      if Occurs(init, id) {
        var q :| 0 <= q < |init| && init[q].climac == id;
        assert rows[q] == init[q];
      }
    }
  }

  lemma {:induction false} GroupByCount(rows: seq<Observation>, id: string)
    requires id in GroupBy(rows)
    ensures GroupBy(rows)[id].count == Count(rows, id)
  {
    var init := rows[..|rows| - 1];
    GroupByMembers(init, id);
    if id in GroupBy(init) {
      GroupByCount(init, id);
    }
  }

  lemma {:induction false} GroupByFirst(rows: seq<Observation>, id: string)
    requires id in GroupBy(rows)
    ensures IsEarliest(rows, id, GroupBy(rows)[id].first)
  {
    var n := |rows| - 1;
    var init := rows[..n];
    var o := rows[n];
    GroupByMembers(init, id);
    assert forall q :: 0 <= q < n ==> rows[q] == init[q];
    if id in GroupBy(init) {
      GroupByFirst(init, id);
      var s := GroupBy(init)[id];
      var q1 :| 0 <= q1 < |init| && init[q1].climac == id && init[q1].windowStart == s.first;
      if o.climac == id && o.windowStart < s.first {
        assert rows[n].windowStart == GroupBy(rows)[id].first;
      } else {
        assert rows[q1].windowStart == GroupBy(rows)[id].first;
      }
    } else {
      assert forall q :: 0 <= q < n ==> rows[q].climac != id;
      assert rows[n].windowStart == GroupBy(rows)[id].first;
    }
  }

  lemma {:induction false} GroupByLast(rows: seq<Observation>, id: string)
    requires id in GroupBy(rows)
    ensures IsLatest(rows, id, GroupBy(rows)[id].last)
  {
    var n := |rows| - 1;
    var init := rows[..n];
    var o := rows[n];
    GroupByMembers(init, id);
    assert forall q :: 0 <= q < n ==> rows[q] == init[q];
    if id in GroupBy(init) {
      GroupByLast(init, id);
      var s := GroupBy(init)[id];
      var q2 :| 0 <= q2 < |init| && init[q2].climac == id && init[q2].windowStart == s.last;
      if o.climac == id && o.windowStart > s.last {
        assert rows[n].windowStart == GroupBy(rows)[id].last;
      } else {
        assert rows[q2].windowStart == GroupBy(rows)[id].last;
      }
    } else {
      assert forall q :: 0 <= q < n ==> rows[q].climac != id;
      assert rows[n].windowStart == GroupBy(rows)[id].last;
    }
  }

  /** Every entity of the batch has a group. */
  lemma DistinctHaveGroups(rows: seq<Observation>)
    ensures forall id :: id in Distinct(rows) ==> id in GroupBy(rows)
  {
    DistinctCorrect(rows);
    forall id | id in Distinct(rows) ensures id in GroupBy(rows) {
      GroupByCorrect(rows, id);
    }
  }

  /** The rows labelled "in" hold as many samples of `id` as the labels say. */
  lemma {:induction false} CountOfInsideRows(rows: seq<Observation>, labels: seq<Label>, id: string)
    requires |labels| == |rows|
    ensures Count(InsideRows(rows, labels), id) == CountIn(rows, labels, id)
  {
    if |rows| > 0 {
      var n := |rows| - 1;
      CountOfInsideRows(rows[..n], labels[..n], id);
      var rest := InsideRows(rows[..n], labels[..n]);
      if labels[n] == In {
        assert (rest + [rows[n]])[..|rest|] == rest;
      }
    }
  }

  /**
   * The group of an entity among the rows labelled "in" exists iff one of its
   * samples is labelled "in", and holds the min and the max over exactly
   * those samples and their number.
   */
  lemma InsideGroupCorrect(rows: seq<Observation>, labels: seq<Label>, id: string)
    requires |labels| == |rows|
    ensures var g := GroupBy(InsideRows(rows, labels));
      && (id in g <==> exists q :: 0 <= q < |rows| && rows[q].climac == id && labels[q] == In)
      && (id in g ==>
        && (exists q :: 0 <= q < |rows| && rows[q].climac == id && labels[q] == In && rows[q].windowStart == g[id].first)
        && (forall q :: 0 <= q < |rows| && rows[q].climac == id && labels[q] == In ==> g[id].first <= rows[q].windowStart)
        && (exists q :: 0 <= q < |rows| && rows[q].climac == id && labels[q] == In && rows[q].windowStart == g[id].last)
        && (forall q :: 0 <= q < |rows| && rows[q].climac == id && labels[q] == In ==> rows[q].windowStart <= g[id].last)
        && g[id].count == CountIn(rows, labels, id))
  {
    var inside := InsideRows(rows, labels);
    GroupByCorrect(inside, id);
    CountOfInsideRows(rows, labels, id);
    var g := GroupBy(inside);
    forall q | 0 <= q < |rows| && rows[q].climac == id && labels[q] == In
      ensures Occurs(inside, id)
      ensures id in g ==> g[id].first <= rows[q].windowStart <= g[id].last
    {
      assert rows[q] in inside;
      var p :| 0 <= p < |inside| && inside[p] == rows[q];
    }
    if id in g {
      var q1 :| 0 <= q1 < |inside| && inside[q1].climac == id && inside[q1].windowStart == g[id].first;
      assert inside[q1] in inside;
      var q2 :| 0 <= q2 < |inside| && inside[q2].climac == id && inside[q2].windowStart == g[id].last;
      assert inside[q2] in inside;
    }
  }

  // ---------------------------------------------------------------------------
  // The result table

  /** One entity's fields for an area, from the groups of that area's "in" rows (the left merges of lines 143-149). */
  function WindowOf(g: map<string, Stats>, id: string): (w: AreaWindow)
    ensures w.firstSeen.Some? <==> id in g
    ensures w.lastSeen.Some? <==> id in g
    ensures w.total.Some? <==> id in g
    ensures w.category.Some? <==> id in g
    ensures id in g ==>
      && w.firstSeen.value == g[id].first && w.lastSeen.value == g[id].last
      && w.total.value == RoundHalfEven(g[id].count, 2) && w.category == Bin(w.total)
  {
    if id in g then
      var total := SampleMinutes(g[id].count);
      AreaWindow(Some(g[id].first), Some(g[id].last), Some(total), Bin(Some(total)))
    else NullWindow
  }

  ghost predicate LabelsFit(df: seq<Observation>, tags: seq<seq<Label>>)
  {
    forall k :: 0 <= k < |tags| ==> |tags[k]| == |df|
  }

  /** The windows of one entity in every area whose labels are given. */
  function AreaWindows(df: seq<Observation>, tags: seq<seq<Label>>, id: string): (w: seq<AreaWindow>)
    requires LabelsFit(df, tags)
    ensures |w| == |tags|
  {
    seq(|tags|, k requires 0 <= k < |tags| => WindowOf(GroupBy(InsideRows(df, tags[k])), id))
  }

  /** The table after the merges of all areas whose labels are given. */
  function Rows(df: seq<Observation>, tags: seq<seq<Label>>): (rows: seq<ResultRow>)
    requires LabelsFit(df, tags)
    ensures |rows| == |Distinct(df)|
  {
    var ids := Distinct(df);
    var main := GroupBy(df);
    DistinctHaveGroups(df);
    seq(|ids|, j requires 0 <= j < |ids| =>
      ResultRow(ids[j], main[ids[j]].first, main[ids[j]].last,
                ElapsedMinutes(main[ids[j]].first, main[ids[j]].last), AreaWindows(df, tags, ids[j])))
  }

  /** What `calculate_first_last_seen` returns, or the exception it raises. */
  function FirstLastSeen(df: seq<Observation>, areas: seq<Polygon>, ev: Evaluator): (r: Result<seq<ResultRow>, Error>)
    ensures |df| == 0 ==> r == Success([])
    ensures |areas| == 0 ==> r.Success?
    ensures r.Success? ==>
      && |r.value| == |Distinct(df)|
      && (forall j :: 0 <= j < |r.value| ==> r.value[j].climac == Distinct(df)[j] && |r.value[j].areas| == |areas|)
  {
    if |df| == 0 then Success([])
    else
      match TagAreas(df, areas, ev)
      case Failure(e) => Failure(e)
      case Success(tags) => Success(Rows(df, tags))
  }

  /** Merging one more area appends that area's window to every row. */
  lemma MergeArea(df: seq<Observation>, tags: seq<seq<Label>>, labels: seq<Label>)
    requires LabelsFit(df, tags) && |labels| == |df|
    ensures LabelsFit(df, tags + [labels])
    ensures var g := GroupBy(InsideRows(df, labels));
      Rows(df, tags + [labels])
        == seq(|Rows(df, tags)|, j requires 0 <= j < |Rows(df, tags)| =>
               Rows(df, tags)[j].(areas := Rows(df, tags)[j].areas + [WindowOf(g, Rows(df, tags)[j].climac)]))
  {
    var ts := tags + [labels];
    assert LabelsFit(df, ts);
    forall id ensures AreaWindows(df, ts, id) == AreaWindows(df, tags, id) + [WindowOf(GroupBy(InsideRows(df, labels)), id)] {
    }
  }

  /**
   * `calculate_first_last_seen`: an empty batch gives an empty table; otherwise
   * the main columns are merged onto the unique entities, then each area in
   * turn labels every row, groups the "in" rows and merges its columns.
   */
  method CalculateFirstLastSeen(df: seq<Observation>, areas: seq<Polygon>, ev: Evaluator)
    returns (result: Result<seq<ResultRow>, Error>)
    ensures result == FirstLastSeen(df, areas, ev)
  {
    if |df| == 0 {
      return Success([]);
    }
    var ids := Distinct(df);
    var main := GroupBy(df);
    DistinctHaveGroups(df);
    var rows := seq(|ids|, j requires 0 <= j < |ids| =>
      ResultRow(ids[j], main[ids[j]].first, main[ids[j]].last,
                ElapsedMinutes(main[ids[j]].first, main[ids[j]].last), []));
    ghost var tags: seq<seq<Label>> := [];
    assert rows == Rows(df, tags);
    for index := 0 to |areas|
      invariant |tags| == index && LabelsFit(df, tags)
      invariant forall k :: 0 <= k < index ==> TagRows(df, areas[k], ev) == Success(tags[k])
      invariant rows == Rows(df, tags)
    {
      var labels := TagRows(df, areas[index], ev);
      if labels.Failure? {
        TagAreasFailsAt(df, areas, ev, index);
        return Failure(labels.error);
      }
      var areaIn := InsideRows(df, labels.value);
      var g := GroupBy(areaIn);
      MergeArea(df, tags, labels.value);
      rows := seq(|rows|, j requires 0 <= j < |rows| => rows[j].(areas := rows[j].areas + [WindowOf(g, rows[j].climac)]));
      tags := tags + [labels.value];
    }
    TagAreasSucceeds(df, areas, ev, tags);
    return Success(rows);
  }

  // ---------------------------------------------------------------------------
  // Properties of the result table

  /** Sample `q` belongs to `id` and the area's polygon classifies it "in". */
  ghost predicate SampleIn(df: seq<Observation>, vertices: Polygon, ev: Evaluator, q: int, id: string)
    requires 0 <= q < |df|
  {
    df[q].climac == id && CheckLeftArea(df[q], vertices, ev) == Success(In)
  }

  /** The number of samples of `id` that the area's polygon classifies "in". */
  function InsideCount(df: seq<Observation>, vertices: Polygon, ev: Evaluator, id: string): nat
  {
    if |df| == 0 then 0
    else
      InsideCount(df[..|df| - 1], vertices, ev, id)
      + (if df[|df| - 1].climac == id && CheckLeftArea(df[|df| - 1], vertices, ev) == Success(In) then 1 else 0)
  }

  lemma {:induction false} CountInIsInsideCount(df: seq<Observation>, labels: seq<Label>, vertices: Polygon, ev: Evaluator, id: string)
    requires |labels| == |df|
    requires forall q :: 0 <= q < |df| ==> CheckLeftArea(df[q], vertices, ev) == Success(labels[q])
    ensures CountIn(df, labels, id) == InsideCount(df, vertices, ev, id)
  {
    if |df| > 0 {
      var n := |df| - 1;
      CountInIsInsideCount(df[..n], labels[..n], vertices, ev, id);
    }
  }

  /** A successful run: the labels of every area, and each row built from them. */
  lemma SuccessfulRun(df: seq<Observation>, areas: seq<Polygon>, ev: Evaluator)
    requires FirstLastSeen(df, areas, ev).Success? && |df| > 0
    ensures TagAreas(df, areas, ev).Success?
    ensures LabelsFit(df, TagAreas(df, areas, ev).value)
    ensures FirstLastSeen(df, areas, ev).value == Rows(df, TagAreas(df, areas, ev).value)
  {
    var tags := TagAreas(df, areas, ev).value;
    assert LabelsFit(df, tags) by {
      forall k | 0 <= k < |tags| ensures |tags[k]| == |df| {
        assert TagRows(df, areas[k], ev) == Success(tags[k]);
      }
    }
  }

  /** The run raises exactly when the batch is not empty and some sample cannot be labelled for some area. */
  lemma FirstLastSeenFailsIff(df: seq<Observation>, areas: seq<Polygon>, ev: Evaluator)
    ensures FirstLastSeen(df, areas, ev).Failure? <==>
      |df| > 0 && exists k, q :: 0 <= k < |areas| && 0 <= q < |df| && CheckLeftArea(df[q], areas[k], ev).Failure?
  {
    var r := TagAreas(df, areas, ev);
    if |df| > 0 {
      if r.Success? {
        forall k, q | 0 <= k < |areas| && 0 <= q < |df| ensures CheckLeftArea(df[q], areas[k], ev).Success? {
          assert TagRows(df, areas[k], ev) == Success(r.value[k]);
        }
      } else {
        TagAreasFailure(df, areas, ev);
        var k :| 0 <= k < |areas| && TagRows(df, areas[k], ev) == Failure(r.error);
        TagRowsFailure(df, areas[k], ev);
        var q :| 0 <= q < |df| && CheckLeftArea(df[q], areas[k], ev) == Failure(r.error);
      }
    }
  }

  /**
   * The exception raised is that of the first failing sample of the first
   * failing area: areas are labelled one after the other, all rows each.
   */
  lemma FirstErrorWins(df: seq<Observation>, areas: seq<Polygon>, ev: Evaluator)
    requires FirstLastSeen(df, areas, ev).Failure?
    ensures exists k, q :: FirstFailureAt(df, areas, ev, k, q, FirstLastSeen(df, areas, ev).error)
  {
    var e := TagAreas(df, areas, ev).error;
    assert FirstLastSeen(df, areas, ev).error == e;
    TagAreasFailure(df, areas, ev);
    var k :| 0 <= k < |areas| && TagRows(df, areas[k], ev) == Failure(e)
      && forall k' :: 0 <= k' < k ==> TagRows(df, areas[k'], ev).Success?;
    TagRowsFailure(df, areas[k], ev);
    var q :| 0 <= q < |df| && CheckLeftArea(df[q], areas[k], ev) == Failure(e)
      && forall q' :: 0 <= q' < q ==> CheckLeftArea(df[q'], areas[k], ev).Success?;
    EarlierAreasLabelAll(df, areas, ev, k);
    assert FirstFailureAt(df, areas, ev, k, q, e);
  }

  /**
   * Sample q of area k raises `e`, every sample of an earlier area is
   * labelled, and so is every earlier sample of area k.
   */
  ghost predicate FirstFailureAt(df: seq<Observation>, areas: seq<Polygon>, ev: Evaluator, k: int, q: int, e: Error)
  {
    && 0 <= k < |areas| && 0 <= q < |df|
    && CheckLeftArea(df[q], areas[k], ev) == Failure(e)
    && (forall k', q' :: 0 <= k' < k && 0 <= q' < |df| ==> CheckLeftArea(df[q'], areas[k'], ev).Success?)
    && (forall q' :: 0 <= q' < q ==> CheckLeftArea(df[q'], areas[k], ev).Success?)
  }

  lemma EarlierAreasLabelAll(df: seq<Observation>, areas: seq<Polygon>, ev: Evaluator, k: nat)
    requires k <= |areas|
    requires forall k' :: 0 <= k' < k ==> TagRows(df, areas[k'], ev).Success?
    ensures forall k', q' :: 0 <= k' < k && 0 <= q' < |df| ==> CheckLeftArea(df[q'], areas[k'], ev).Success?
  {
    forall k', q' | 0 <= k' < k && 0 <= q' < |df| ensures CheckLeftArea(df[q'], areas[k'], ev).Success? {
      assert TagRows(df, areas[k'], ev) == Success(TagRows(df, areas[k'], ev).value);
    }
  }

  /** Exactly one row per entity of the batch: every entity has a row and no entity has two. */
  lemma OneRowPerEntity(df: seq<Observation>, areas: seq<Polygon>, ev: Evaluator)
    requires FirstLastSeen(df, areas, ev).Success?
    ensures var rows := FirstLastSeen(df, areas, ev).value;
      && (forall id :: (exists j :: 0 <= j < |rows| && rows[j].climac == id) <==> Occurs(df, id))
      && (forall i, j :: 0 <= i < j < |rows| ==> rows[i].climac != rows[j].climac)
  {
    var rows := FirstLastSeen(df, areas, ev).value;
    DistinctCorrect(df);
    forall id ensures (exists j :: 0 <= j < |rows| && rows[j].climac == id) <==> Occurs(df, id) {
      if id in Distinct(df) {
        var j :| 0 <= j < |Distinct(df)| && Distinct(df)[j] == id;
        assert rows[j].climac == id;
      }
    }
  }

  /** Rows come in order of first appearance: the entity of an earlier row was seen before any sample of a later row's entity. */
  lemma RowsInFirstAppearanceOrder(df: seq<Observation>, areas: seq<Polygon>, ev: Evaluator, i: nat, j: nat, q: nat)
    requires FirstLastSeen(df, areas, ev).Success?
    requires i < j < |FirstLastSeen(df, areas, ev).value| && q < |df|
    requires df[q].climac == FirstLastSeen(df, areas, ev).value[j].climac
    ensures exists p :: 0 <= p < q && df[p].climac == FirstLastSeen(df, areas, ev).value[i].climac
  {
    DistinctOrder(df, i, j, q);
  }

  /**
   * The main columns of a row: the earliest and latest timestamps of all the
   * entity's samples, and the elapsed time between them rounded to minutes.
   */
  lemma MainWindowCorrect(df: seq<Observation>, areas: seq<Polygon>, ev: Evaluator, j: nat)
    requires FirstLastSeen(df, areas, ev).Success? && j < |FirstLastSeen(df, areas, ev).value|
    ensures var row := FirstLastSeen(df, areas, ev).value[j];
      && row.mainFirstSeen <= row.mainLastSeen
      && IsEarliest(df, row.climac, row.mainFirstSeen)
      && IsLatest(df, row.climac, row.mainLastSeen)
      && row.mainTotal == ElapsedMinutes(row.mainFirstSeen, row.mainLastSeen)
  {
    SuccessfulRun(df, areas, ev);
    var id := Distinct(df)[j];
    DistinctHaveGroups(df);
    GroupByCorrect(df, id);
  }

  /**
   * `w` holds an entity's fields for an area as the source computes them:
   * non-null together, exactly when one of its samples is classified "in";
   * then the earliest and latest of those samples, the rounded half of their
   * number, and its category.
   */
  ghost predicate DescribesInsideSamples(df: seq<Observation>, vertices: Polygon, ev: Evaluator, id: string, w: AreaWindow)
  {
    && (w.firstSeen.Some? <==> exists q :: 0 <= q < |df| && SampleIn(df, vertices, ev, q, id))
    && (w.firstSeen.None? ==> w == NullWindow)
    && (w.firstSeen.Some? ==>
      && w.lastSeen.Some? && w.total.Some? && w.category.Some?
      && (exists q :: 0 <= q < |df| && SampleIn(df, vertices, ev, q, id) && df[q].windowStart == w.firstSeen.value)
      && (forall q :: 0 <= q < |df| && SampleIn(df, vertices, ev, q, id) ==> w.firstSeen.value <= df[q].windowStart)
      && (exists q :: 0 <= q < |df| && SampleIn(df, vertices, ev, q, id) && df[q].windowStart == w.lastSeen.value)
      && (forall q :: 0 <= q < |df| && SampleIn(df, vertices, ev, q, id) ==> df[q].windowStart <= w.lastSeen.value)
      && w.total.value == SampleMinutes(InsideCount(df, vertices, ev, id))
      && w.category == Bin(w.total))
  }

  /** The window merged in from the groups of an area's "in" rows describes the entity's "in" samples. */
  lemma WindowOfInsideRows(df: seq<Observation>, labels: seq<Label>, vertices: Polygon, ev: Evaluator, id: string)
    requires |labels| == |df|
    requires forall q :: 0 <= q < |df| ==> CheckLeftArea(df[q], vertices, ev) == Success(labels[q])
    ensures DescribesInsideSamples(df, vertices, ev, id, WindowOf(GroupBy(InsideRows(df, labels)), id))
  {
    InsideGroupCorrect(df, labels, id);
    CountInIsInsideCount(df, labels, vertices, ev, id);
    forall q | 0 <= q < |df| ensures SampleIn(df, vertices, ev, q, id) <==> df[q].climac == id && labels[q] == In {
    }
  }

  /**
   * The columns of area k in a row describe the entity's "in" samples there,
   * and lie within its main window.
   */
  lemma AreaWindowCorrect(df: seq<Observation>, areas: seq<Polygon>, ev: Evaluator, j: nat, k: nat)
    requires FirstLastSeen(df, areas, ev).Success?
    requires j < |FirstLastSeen(df, areas, ev).value| && k < |areas|
    ensures var row := FirstLastSeen(df, areas, ev).value[j];
      var w := row.areas[k];
      && DescribesInsideSamples(df, areas[k], ev, row.climac, w)
      && (w.firstSeen.Some? ==> row.mainFirstSeen <= w.firstSeen.value <= w.lastSeen.value <= row.mainLastSeen)
  {
    SuccessfulRun(df, areas, ev);
    var tags := TagAreas(df, areas, ev).value;
    var labels := tags[k];
    assert TagRows(df, areas[k], ev) == Success(labels);
    var row := FirstLastSeen(df, areas, ev).value[j];
    var id := row.climac;
    assert id == Distinct(df)[j];
    var w := WindowOf(GroupBy(InsideRows(df, labels)), id);
    assert row.areas[k] == w;
    WindowOfInsideRows(df, labels, areas[k], ev, id);
    DistinctHaveGroups(df);
    GroupByCorrect(df, id);
    if w.firstSeen.Some? {
      var q1 :| 0 <= q1 < |df| && SampleIn(df, areas[k], ev, q1, id) && df[q1].windowStart == w.firstSeen.value;
      var q2 :| 0 <= q2 < |df| && SampleIn(df, areas[k], ev, q2, id) && df[q2].windowStart == w.lastSeen.value;
      assert df[q1].climac == id && df[q2].climac == id;
    }
  }

  /** An entity seen only outside every area keeps its main columns and has null columns for every area. */
  lemma OutsideEverywhereGivesNullWindows(df: seq<Observation>, areas: seq<Polygon>, ev: Evaluator, j: nat)
    requires FirstLastSeen(df, areas, ev).Success? && j < |FirstLastSeen(df, areas, ev).value|
    requires forall q, k :: 0 <= q < |df| && 0 <= k < |areas| && df[q].climac == FirstLastSeen(df, areas, ev).value[j].climac ==>
      CheckLeftArea(df[q], areas[k], ev) == Success(Out)
    ensures forall k :: 0 <= k < |areas| ==> FirstLastSeen(df, areas, ev).value[j].areas[k] == NullWindow
  {
    forall k | 0 <= k < |areas| ensures FirstLastSeen(df, areas, ev).value[j].areas[k] == NullWindow {
      AreaWindowCorrect(df, areas, ev, j, k);
    }
  }
}
