/**
 * In/out labelling of observations against one area: `check_left_area`
 * (DataProcessor.py:22-38), its row-wise application
 * `df.apply(lambda row: self.check_left_area(row, vertices), axis=1)`
 * and the `df[df['area{i}_in'] == 'in']` filter (lines 135-137, 184-185).
 */
module AreaTagger {
  import opened Wrappers
  import opened Exceptions
  import opened Geometry
  import opened PositionParser

  /** One row of the input batch: the entity (CLIMAC), WINDOW_START in seconds, and POSITION. */
  datatype Observation = Observation(climac: string, windowStart: int, position: PyValue)

  /** The "in" / "out" strings of `check_left_area`. */
  datatype Label = In | Out

  /**
   * `check_left_area`: parse the position, then run the ray cast; the ray
   * cast raises IndexError on an empty vertex list.
   */
  function CheckLeftArea(row: Observation, vertices: Polygon, ev: Evaluator): (r: Result<Label, Error>)
    ensures r.Success? <==> ParsePosition(row.position, ev).Success? && |vertices| > 0
    ensures ParsePosition(row.position, ev).Failure? ==> r == Failure(ParsePosition(row.position, ev).error)
    ensures ParsePosition(row.position, ev).Success? && |vertices| == 0 ==> r == Failure(EmptyPolygon)
    ensures r.Success? ==>
      var p := ParsePosition(row.position, ev).value;
      (r.value == In <==> InPolygon(p.x, p.y, vertices))
  {
    match ParsePosition(row.position, ev)
    case Failure(e) => Failure(e)
    case Success(p) =>
      if |vertices| == 0 then Failure(EmptyPolygon)
      else if InPolygon(p.x, p.y, vertices) then Success(In)
      else Success(Out)
  }

  /**
   * The `area{i}_in` column: the label of every row in order, or the
   * exception of the first row whose labelling raises.
   */
  function TagRows(df: seq<Observation>, vertices: Polygon, ev: Evaluator): (r: Result<seq<Label>, Error>)
    ensures r.Success? ==>
      |r.value| == |df| && forall j :: 0 <= j < |df| ==> CheckLeftArea(df[j], vertices, ev) == Success(r.value[j])
  {
    if |df| == 0 then Success([])
    else
      var n := |df| - 1;
      var init := df[..n];
      assert forall j :: 0 <= j < n ==> init[j] == df[j];
      match TagRows(init, vertices, ev)
      case Failure(e) => Failure(e)
      case Success(labels) =>
        match CheckLeftArea(df[n], vertices, ev)
        case Failure(e) => Failure(e)
        case Success(l) =>
          var r := labels + [l];
          assert forall j :: 0 <= j < n ==> r[j] == labels[j] && init[j] == df[j];
          assert r[n] == l;
          Success(r)
  }

  /** `area_in_df`: the rows labelled "in", in their original order. */
  function InsideRows(df: seq<Observation>, labels: seq<Label>): (r: seq<Observation>)
    requires |labels| == |df|
    ensures |r| <= |df|
    ensures forall o :: o in r <==> exists j :: 0 <= j < |df| && df[j] == o && labels[j] == In
  {
    if |df| == 0 then []
    else
      var rest := InsideRows(df[..|df| - 1], labels[..|df| - 1]);
      if labels[|df| - 1] == In then rest + [df[|df| - 1]] else rest
  }

  /**
   * The `area{i}_in` columns of every area in turn: the per-area loops of
   * lines 132-135 and 182-184 label all rows for area 1, then for area 2, and
   * so on, so the first exception raised is that of the first failing area.
   */
  function TagAreas(df: seq<Observation>, areas: seq<Polygon>, ev: Evaluator): (r: Result<seq<seq<Label>>, Error>)
    ensures r.Success? ==>
      |r.value| == |areas| && forall k :: 0 <= k < |areas| ==> TagRows(df, areas[k], ev) == Success(r.value[k])
    ensures r.Success? ==> forall k :: 0 <= k < |r.value| ==> |r.value[k]| == |df|
  {
    if |areas| == 0 then Success([])
    else
      var n := |areas| - 1;
      var init := areas[..n];
      assert forall k :: 0 <= k < n ==> init[k] == areas[k];
      match TagAreas(df, init, ev)
      case Failure(e) => Failure(e)
      case Success(tags) =>
        match TagRows(df, areas[n], ev)
        case Failure(e) => Failure(e)
        case Success(labels) =>
          assert forall k :: 0 <= k < n ==> (tags + [labels])[k] == tags[k];
          Success(tags + [labels])
  }

  /** A failed labelling reports the exception of its first failing row, all earlier rows being labelled. */
  lemma {:induction false} TagRowsFailure(df: seq<Observation>, vertices: Polygon, ev: Evaluator)
    requires TagRows(df, vertices, ev).Failure?
    ensures exists j ::
      && 0 <= j < |df|
      && CheckLeftArea(df[j], vertices, ev) == Failure(TagRows(df, vertices, ev).error)
      && forall k :: 0 <= k < j ==> CheckLeftArea(df[k], vertices, ev).Success?
  {
    var n := |df| - 1;
    var init := df[..n];
    var e := TagRows(df, vertices, ev).error;
    if TagRows(init, vertices, ev).Failure? {
      TagRowsFailure(init, vertices, ev);
      var j :| 0 <= j < |init| && CheckLeftArea(init[j], vertices, ev) == Failure(e)
        && forall k :: 0 <= k < j ==> CheckLeftArea(init[k], vertices, ev).Success?;
      assert forall k :: 0 <= k <= j ==> init[k] == df[k];
    } else {
      var labels := TagRows(init, vertices, ev).value;
      assert forall k :: 0 <= k < n ==> init[k] == df[k] && CheckLeftArea(init[k], vertices, ev) == Success(labels[k]);
      assert CheckLeftArea(df[n], vertices, ev) == Failure(e);
    }
  }

  /** A failed labelling of the areas reports the exception of its first failing area, all earlier areas being labelled. */
  lemma {:induction false} TagAreasFailure(df: seq<Observation>, areas: seq<Polygon>, ev: Evaluator)
    requires TagAreas(df, areas, ev).Failure?
    ensures exists k ::
      && 0 <= k < |areas|
      && TagRows(df, areas[k], ev) == Failure(TagAreas(df, areas, ev).error)
      && forall k' :: 0 <= k' < k ==> TagRows(df, areas[k'], ev).Success?
  {
    var n := |areas| - 1;
    var init := areas[..n];
    var e := TagAreas(df, areas, ev).error;
    if TagAreas(df, init, ev).Failure? {
      TagAreasFailure(df, init, ev);
      var k :| 0 <= k < |init| && TagRows(df, init[k], ev) == Failure(e)
        && forall k' :: 0 <= k' < k ==> TagRows(df, init[k'], ev).Success?;
      assert forall k' :: 0 <= k' <= k ==> init[k'] == areas[k'];
    } else {
      var tags := TagAreas(df, init, ev).value;
      assert forall k :: 0 <= k < n ==> init[k] == areas[k] && TagRows(df, init[k], ev) == Success(tags[k]);
      assert TagRows(df, areas[n], ev) == Failure(e);
    }
  }

  /** When every area labels all rows, TagAreas gives exactly those labels. */
  lemma TagAreasSucceeds(df: seq<Observation>, areas: seq<Polygon>, ev: Evaluator, tags: seq<seq<Label>>)
    requires |tags| == |areas|
    requires forall k :: 0 <= k < |areas| ==> TagRows(df, areas[k], ev) == Success(tags[k])
    ensures TagAreas(df, areas, ev) == Success(tags)
  {
    var r := TagAreas(df, areas, ev);
    if r.Failure? {
      TagAreasFailure(df, areas, ev);
    }
    assert r.Success? ==> r.value == tags;
  }

  /** When area `index` is the first whose labelling raises, TagAreas raises its exception. */
  lemma TagAreasFailsAt(df: seq<Observation>, areas: seq<Polygon>, ev: Evaluator, index: nat)
    requires index < |areas| && TagRows(df, areas[index], ev).Failure?
    requires forall k :: 0 <= k < index ==> TagRows(df, areas[k], ev).Success?
    ensures TagAreas(df, areas, ev) == Failure(TagRows(df, areas[index], ev).error)
  {
    if TagAreas(df, areas, ev).Failure? {
      TagAreasFailure(df, areas, ev);
    }
  }

  /** Labelling fails exactly when some row cannot be labelled. */
  lemma TagRowsFailsIff(df: seq<Observation>, vertices: Polygon, ev: Evaluator)
    ensures TagRows(df, vertices, ev).Failure? <==>
      exists j :: 0 <= j < |df| && CheckLeftArea(df[j], vertices, ev).Failure?
  {
    if TagRows(df, vertices, ev).Failure? {
      TagRowsFailure(df, vertices, ev);
    }
  }
}
