# Geofenced dwell-time processing, modelled in Dafny

This project models the processing core of a Wi-Fi positioning pipeline
(`DataProcessor.py`). The input is a batch of observations, one row per
sample: an entity id (CLIMAC), a WINDOW_START timestamp in seconds, and a
POSITION payload. The areas of interest are polygons.

The core has four layers:

- It decodes the POSITION payload into a point (`parse_position`).
- It decides with an even-odd ray cast whether that point lies in an area
  (`is_point_in_polygon`, `check_left_area`).
- It aggregates the samples per entity (`calculate_first_last_seen`):
  - first-seen, last-seen and elapsed minutes over all samples;
  - for every area, first-seen, last-seen, a sample-count total in minutes
    and a dwell category over the samples classified "in";
  - an entity with no "in" sample in an area gets null columns for that
    area.
- It keeps only the entities that entered the areas in their listed order,
  with strictly increasing first-seen times
  (`calculate_transitions_between_areas`).

Modules, in dependency order:

| file | module | models |
|---|---|---|
| `wrappers.dfy` | `Wrappers` | `Option` and `Result` |
| `exceptions.dfy` | `Exceptions` | the exceptions the core can raise |
| `geometry.dfy` | `Geometry` | `is_point_in_polygon`, a `method` with the source's loop, proved against the `InPolygon` specification |
| `position.dfy` | `PositionParser` | `parse_position` and the decimal part of Python's `float()` |
| `tagger.dfy` | `AreaTagger` | `check_left_area` and its row-by-row, area-by-area application |
| `dwell.dfy` | `Dwell` | round-half-to-even, the 30-second sample estimator, the `pd.cut` categories |
| `aggregator.dfy` | `WindowAggregator` | `calculate_first_last_seen`: the spec function `FirstLastSeen` and the method `CalculateFirstLastSeen`, which follows the source's merge-per-area loop |
| `transitions.dfy` | `SequenceValidator` | `calculate_transitions_between_areas`: the spec function `Transitions` and the method `CalculateTransitionsBetweenAreas`, with the skip-empty-area loop and the pair-by-pair validation loop |

Modelling decisions:

- **Exceptions.** A Python exception becomes a `Failure` of `Result<_, Error>`.
  When several inputs would raise, the model returns the first exception in
  the source's evaluation order: "X" before "Y", rows in order, and all rows
  of area 1 before any row of area 2.
- **`eval`.** Python's `eval` of a string payload is not interpreted. It is
  an `Evaluator` parameter that yields a value, or `None` when it raises.
- **Timestamps.** WINDOW_START is an integer number of seconds. The model
  uses no datetime type: differences and comparisons of the converted
  datetimes agree with those of the seconds.
- **Missing columns.** In `calculate_transitions_between_areas`, columns
  for an area with no "in" sample are never created. The model records this
  in `TransitionTable.hasColumns`. The missing area's fields read as null;
  they equal what the first/last-seen table holds for that area
  (`PresentWindowsAreAreaWindows`).

Two consequences of the code worth knowing:

- **Left boundary.** A point on the left side of the square
  (0,0),(10,0),(10,10),(0,10), such as (0,5), classifies as outside: both
  vertical sides toggle `inside` (DataProcessor.py:85-89).
  `Geometry.SquareBoundaryCases` proves that the point is outside.
  `Geometry.RectangleMembership` proves the general rule: the right and top
  sides belong to the area, the left and bottom sides do not.
- **Main category.** `main_total` gets no category (DataProcessor.py:125-130);
  only the areas are binned.

## Model

| member | source | states |
|---|---|---|
| `Geometry.IsPointInPolygon` | DataProcessor.py:77-91 | the loop's result is the even-odd parity of the crossings of the n+1 visited edges (`InPolygon`), edge 0 being degenerate and edge n closing the ring |
| `Geometry.Flips` | DataProcessor.py:83-89 | the toggle condition of one edge: the half-open height test, the right-extent test, and a vertical edge or the point not right of the intercept; its meaning is `Geometry.EdgeFlipsBySide` |
| `Geometry.InPolygon` | DataProcessor.py:77-91 | the even-odd rule over the n+1 visited edges; its geometric meaning is proved for rectangles and for triangles of either winding below |
| `Geometry.ParityStep` | DataProcessor.py:83-89 | one more visited edge flips the parity exactly when it passes the half-open height test, the right-extent test and the vertical/intercept test |
| `Geometry.Intercept` | DataProcessor.py:87 | `xinters` lies on the line through the edge's endpoints at height `py` |
| `Geometry.InterceptBetween` | DataProcessor.py:83-87 | for an edge that passes the height test, `xinters` lies between the x of the edge's ends, so the right-extent test never excludes a point left of the intercept |
| `Geometry.EdgeFlipsBySide` | DataProcessor.py:83-89 | an edge that passes the height test toggles `inside` iff the point is on or left of it for an upward edge, on or right of it for a downward edge (by the sign of the cross product) |
| `Geometry.HorizontalEdgeNeverFlips` | DataProcessor.py:83-88 | a horizontal edge never toggles, so the stale `xinters` is never consulted for it |
| `Geometry.FirstEdgeNeverFlips` | DataProcessor.py:80-83 | the first visited edge, from vertex 0 to itself, never toggles |
| `Geometry.RectangleMembership` | DataProcessor.py:77-91 | for an axis-aligned rectangle, a point is inside iff x0 < px <= x1 and y0 < py <= y1: right and top boundaries in, left and bottom out |
| `Geometry.RectangleWindingIrrelevant` | DataProcessor.py:77-91 | listing the rectangle clockwise instead of counter-clockwise classifies every point the same |
| `Geometry.TriangleSides` | DataProcessor.py:77-91 | for a triangle the parity is that of its three sides a->b, b->c, c->a |
| `Geometry.TriangleInterior` | DataProcessor.py:65-91 | a point strictly left of all three sides of a triangle (strictly inside it, listed counter-clockwise) is inside |
| `Geometry.TriangleExterior` | DataProcessor.py:65-91 | a point strictly right of some side of a counter-clockwise triangle (strictly outside it) is outside |
| `Geometry.SameIntercept` | DataProcessor.py:87 | an edge and its reverse give the same `xinters` |
| `Geometry.FlipsSymmetric` | DataProcessor.py:83-89 | whether an edge toggles `inside` does not depend on its direction |
| `Geometry.TriangleWinding` | DataProcessor.py:77-91 | a triangle listed in the opposite winding classifies every point the same way |
| `Geometry.TriangleInteriorClockwise` | DataProcessor.py:65-91 | a point strictly right of all three sides of a triangle (strictly inside it, listed clockwise) is inside |
| `Geometry.TriangleExteriorClockwise` | DataProcessor.py:65-91 | a point strictly left of some side of a clockwise triangle (strictly outside it) is outside |
| `Geometry.SquareBoundaryCases` | DataProcessor.py:77-91 | on the 10x10 square, (0,5) is outside, (10,5) and (5,5) are inside, (5,0) is outside |
| `PositionParser.ParsePosition` | DataProcessor.py:56-62 | the ValueError "POSITION data is not string nor dictionary" exactly for payloads that are neither string nor dict; `eval` failure propagates; success iff the mapping has "X" and "Y" convertible by `float()`, and then the point is made of those two numbers |
| `PositionParser.Decoded` | DataProcessor.py:56-61 | the mapping a payload stands for: a dict itself, `eval` of a string, nothing for any other value; `ParsePosition`'s success is stated through it |
| `PositionParser.Subscript` | DataProcessor.py:62 | `d[key]` succeeds iff `d` is a dict holding the key; KeyError for a dict without it, TypeError for a non-dict |
| `PositionParser.Coordinate` | DataProcessor.py:62 | `float(position_dict[key])`: the subscript, then the conversion; its meaning is `PositionParser.CoordinateOfPayload` |
| `PositionParser.CoordinateOfPayload` | DataProcessor.py:62 | a coordinate is read iff the payload is a dict whose entry converts; otherwise TypeError for a non-dict, KeyError for a missing key, and for an entry `float()` rejects its ValueError or TypeError, recorded as `NotAFloat(key)`; a number converts to itself |
| `PositionParser.ToFloat` | DataProcessor.py:62 | a number converts to itself; dicts and other values are refused; a refusal is recorded as `NotAFloat(key)`, the model's note of which coordinate failed; Python raises ValueError for a bad string and TypeError for a dict or other value, and its message names the value |
| `PositionParser.ParseUnsigned` | DataProcessor.py:62 | an unsigned decimal is non-negative, and a string of digits reads as the number it denotes |
| `PositionParser.ParseFloat` | DataProcessor.py:62 | an empty string is refused |
| `PositionParser.ParseFloatOfNegated` | DataProcessor.py:62 | a leading '-' before a digit negates the unsigned value that follows, or refuses the string with it |
| `PositionParser.FirstDot` | DataProcessor.py:62 | the split point of a decimal is the first '.', or the end |
| `PositionParser.FormatNatDigits` | DataProcessor.py:47-48 | the decimal writing of a natural number is a non-empty digit string that reads back as that number |
| `PositionParser.ParseFloatOfFormatted` | DataProcessor.py:47-62 | `float()` reads back an integer written as "<i>" or as "<i>.0", negative ones included |
| `PositionParser.ParseFloatOfFormattedPlain` | DataProcessor.py:47-62 | `float()` reads back an integer written as "<i>" |
| `PositionParser.ParseFloatOfFormattedPointZero` | DataProcessor.py:47-62 | `float()` reads back an integer written as "<i>.0" |
| `PositionParser.ParsePositionOfFormatted` | DataProcessor.py:47-62 | round trip: the documented `{'X': '<a>.0', 'Y': '<b>.0'}` payload decodes to (a, b), as a dict and as a string that evaluates to it |
| `PositionParser.StringFormAgreesWithDict` | DataProcessor.py:56-59 | a string payload decodes exactly as the dict it evaluates to |
| `PositionParser.XIsCheckedBeforeY` | DataProcessor.py:62 | a mapping without "X" raises KeyError('X') whatever its "Y" |
| `AreaTagger.CheckLeftArea` | DataProcessor.py:36-38 | succeeds iff the position parses and the polygon has a vertex; a parse exception is raised unchanged, an empty polygon raises IndexError; the label is "in" iff the point is `InPolygon` |
| `AreaTagger.TagRows` | DataProcessor.py:135 | a labelled `area{i}_in` column is as long as the batch and holds at every row that row's `check_left_area` label |
| `AreaTagger.TagRowsFailure` | DataProcessor.py:135 | a failed labelling raises the exception of its first failing row, all earlier rows being labelled |
| `AreaTagger.TagRowsFailsIff` | DataProcessor.py:135 | labelling a batch raises iff some row cannot be labelled |
| `AreaTagger.InsideRows` | DataProcessor.py:137 | `area_in_df` holds only rows labelled "in", every such row, and no more rows than the batch; that it holds each entity's "in" samples as often as they occur is `WindowAggregator.CountOfInsideRows` |
| `AreaTagger.TagAreas` | DataProcessor.py:132-135 | a successful labelling holds every area's `area{i}_in` column in area order, each as long as the batch |
| `AreaTagger.TagAreasFailure` | DataProcessor.py:132-135 | a failed labelling raises the exception of its first failing area, all earlier areas being labelled |
| `AreaTagger.TagAreasSucceeds` | DataProcessor.py:132-135 | when every area labels all rows, the labels are exactly those of each area |
| `AreaTagger.TagAreasFailsAt` | DataProcessor.py:132-135 | the first area whose labelling raises decides the exception |
| `Dwell.RoundHalfEven` | DataProcessor.py:126-141 | the rounded value is within half a unit of num/den, and even on a tie |
| `Dwell.RoundHalfEvenUnique` | DataProcessor.py:126-141 | any integer within half a unit, even on a tie, is the rounded value |
| `Dwell.SampleMinutes` | DataProcessor.py:140-141 | `round(count * 30 / 60)` is the half-even rounding of count/2 |
| `Dwell.SampleMinutesTies` | DataProcessor.py:140-141 | 1, 3, 5, 2, 4 and 7 samples give 0, 2, 2, 1, 2 and 4 minutes |
| `Dwell.ElapsedMinutes` | DataProcessor.py:125-126 | the main total is non-negative and within half a minute of the elapsed seconds / 60 |
| `Dwell.Bin` | DataProcessor.py:147-149 | no category iff the total is null (or negative); otherwise the category whose half-open interval [edge k, edge k+1) holds the total |
| `Dwell.BinIsTheHoldingInterval` | DataProcessor.py:147-149 | the intervals partition the non-negative totals: a total in a category's interval gets that category |
| `Dwell.BinMonotone` | DataProcessor.py:147-149 | a longer dwell never falls into an earlier category |
| `Dwell.BinBoundaries` | DataProcessor.py:147-149 | 0, 1, 9, 10, 49, 50, 51 map to "Just Seen", "1-9", "1-9", "10-19", "40-49", "50+", "50+" |
| `WindowAggregator.Distinct` | DataProcessor.py:121 | `unique()` lists no more entities than samples; each entity once, in first-appearance order, by `DistinctCorrect` and `DistinctOrder` |
| `WindowAggregator.DistinctCorrect` | DataProcessor.py:121 | `unique()` lists each entity of the batch once and no other |
| `WindowAggregator.DistinctOrder` | DataProcessor.py:121 | `unique()` lists the entities in order of first appearance |
| `WindowAggregator.GroupBy` | DataProcessor.py:123-140 | every group has first <= last and at least one sample |
| `WindowAggregator.GroupByCorrect` | DataProcessor.py:123-140 | a group exists iff the entity has a sample; it holds the min, the max and the number of the entity's timestamps |
| `WindowAggregator.GroupByMembers` | DataProcessor.py:123-138 | a group exists iff the entity has a sample; an entity without a group has no samples |
| `WindowAggregator.GroupByFirst` | DataProcessor.py:123-138 | `min()` of a group is a timestamp of the entity and no later than any of its timestamps |
| `WindowAggregator.GroupByLast` | DataProcessor.py:124-139 | `max()` of a group is a timestamp of the entity and no earlier than any of its timestamps |
| `WindowAggregator.GroupByCount` | DataProcessor.py:140 | `size()` of a group is the number of the entity's samples |
| `WindowAggregator.InsideGroupCorrect` | DataProcessor.py:137-140 | the group of the inside rows exists iff the entity has an "in" sample; it holds the min, the max and the count over those samples |
| `WindowAggregator.Rows` | DataProcessor.py:121-149 | `result_df` after the main and per-area merges: one row per `unique()` entity (`OneRowPerEntity`, `RowsInFirstAppearanceOrder`), its main fields by `MainWindowCorrect`, its area fields by `AreaWindowCorrect` |
| `WindowAggregator.FirstLastSeen` | DataProcessor.py:110-154 | an empty batch gives an empty table; no area gives no exception; a result has one row per distinct entity, in `unique()` order, with one window per area |
| `WindowAggregator.CalculateFirstLastSeen` | DataProcessor.py:110-154 | the merge-per-area loop computes `FirstLastSeen` |
| `WindowAggregator.MergeArea` | DataProcessor.py:143-149 | one left merge appends the area's window to every row and changes nothing else |
| `WindowAggregator.CountOfInsideRows` | DataProcessor.py:137-140 | `area_in_df` holds as many samples of each entity as are labelled "in", so `size()` of its group counts them |
| `WindowAggregator.CountInIsInsideCount` | DataProcessor.py:137-140 | the group size of the inside rows counts the entity's samples that `check_left_area` calls "in" |
| `WindowAggregator.SuccessfulRun` | DataProcessor.py:121-149 | a successful run labels every area and builds its rows from those labels |
| `WindowAggregator.FirstLastSeenFailsIff` | DataProcessor.py:110-135 | the run raises iff the batch is non-empty and some sample cannot be labelled for some area |
| `WindowAggregator.FirstErrorWins` | DataProcessor.py:132-135 | the exception raised is that of some sample q of some area k such that every sample of an earlier area, and every earlier sample of area k, is labelled (`FirstFailureAt`) |
| `WindowAggregator.EarlierAreasLabelAll` | DataProcessor.py:132-135 | areas whose labelling succeeds label every sample |
| `WindowAggregator.OneRowPerEntity` | DataProcessor.py:121-130 | every entity of the batch has a row and no entity has two |
| `WindowAggregator.RowsInFirstAppearanceOrder` | DataProcessor.py:121-130 | an earlier row's entity was seen before any sample of a later row's entity |
| `WindowAggregator.MainWindowCorrect` | DataProcessor.py:123-130 | `main_first_seen` and `main_last_seen` are the earliest and latest timestamps of the entity's samples, in order, and `main_total` is the rounded elapsed minutes between them |
| `WindowAggregator.WindowOf` | DataProcessor.py:143-149 | the left merges give an entity its four fields from its group, all non-null iff it has a group: min, max, the half-even rounding of half the group's size, and that total's `pd.cut` bin |
| `WindowAggregator.WindowOfInsideRows` | DataProcessor.py:137-149 | the window merged in from the groups of the "in" rows describes the entity's "in" samples (`DescribesInsideSamples`): its four fields are non-null together, exactly when some sample is "in"; then first and last are the min and max over those samples, the total is the rounded half of their number and the category is its bin |
| `WindowAggregator.AreaWindowCorrect` | DataProcessor.py:135-151 | each area's fields in a result row describe the entity's "in" samples there (`DescribesInsideSamples`) and lie within its main window |
| `WindowAggregator.OutsideEverywhereGivesNullWindows` | DataProcessor.py:143-151 | an entity seen only outside every area has null fields for every area |
| `SequenceValidator.PairInOrder` | DataProcessor.py:209 | the condition of one validation step: both first-seen times non-null and strictly increasing |
| `SequenceValidator.KeepPair` | DataProcessor.py:210 | `valid_sequence[condition]` never adds rows; which rows it keeps is `KeepPairMembers` |
| `SequenceValidator.KeepOrdered` | DataProcessor.py:205-211 | the rows surviving the first m validation steps, never more than the input; which rows survive is `KeepOrderedMembers` |
| `SequenceValidator.KeepPairMembers` | DataProcessor.py:209-210 | one filter step keeps exactly the rows whose pair is non-null and strictly increasing |
| `SequenceValidator.KeepOrderedMembers` | DataProcessor.py:205-211 | the reference filter keeps exactly the rows whose first m pairs are all in order |
| `SequenceValidator.KeepPairExtends` | DataProcessor.py:205-211 | filtering pair m out of the rows filtered on pairs 0..m-1 filters on pairs 0..m |
| `SequenceValidator.KeepNothingDropped` | DataProcessor.py:206 | with zero pairs (zero or one area) the filter keeps every row |
| `SequenceValidator.KeepOrderedIsSubsequence` | DataProcessor.py:210 | the filter only drops rows: the survivors keep their order |
| `SequenceValidator.RisingPairKeptFallingOrNullDropped` | DataProcessor.py:209 | first-seen (100, 200) is kept; (300, 200) and a row missing area 2 are dropped |
| `SequenceValidator.FirstMissing` | DataProcessor.py:206-209 | the first absent column: every earlier column is present |
| `SequenceValidator.FirstMissingIs` | DataProcessor.py:206-209 | the first absent column is the only index with all earlier columns present and its own absent |
| `SequenceValidator.Columns` | DataProcessor.py:185-190 | one flag per area: whether its columns are created, i.e. its `area_in_df` is non-empty (`ColumnPresentIff`) |
| `SequenceValidator.PresentWindows` | DataProcessor.py:185-202 | one window per area: the merged fields of an area with "in" rows, the null window for a skipped one (`PresentWindowsAreAreaWindows`) |
| `SequenceValidator.TransitionRows` | DataProcessor.py:180-202 | `result_df` before validation: one row per `unique()` entity with one window per area, present or skipped (`PresentWindows`) |
| `SequenceValidator.PairCount` | DataProcessor.py:206 | the number of steps of `range(1, len(vertices_list))`: one fewer than the areas, none without areas |
| `SequenceValidator.Transitions` | DataProcessor.py:175-216 | an empty batch gives an empty table; a result on a non-empty batch flags one column set per area |
| `SequenceValidator.Validate` | DataProcessor.py:204-216 | a result keeps the column flags; a failure is a KeyError naming an area, with two areas or more |
| `SequenceValidator.MergeTransitionArea` | DataProcessor.py:185-202 | one more area appends its window to every row, or a null one when it has no "in" sample |
| `SequenceValidator.CalculateTransitionsBetweenAreas` | DataProcessor.py:175-216 | the skip-empty-area loop followed by the validation loop computes `Transitions` |
| `SequenceValidator.ValidateSequence` | DataProcessor.py:204-216 | the pair-by-pair validation loop computes `Validate`: the KeyError of the first absent column it reads, or the rows kept by `KeepOrdered` |
| `SequenceValidator.FilterPair` | DataProcessor.py:209-210 | narrowing the rows filtered on the first m pairs by pair m gives the rows filtered on m+1 pairs |
| `SequenceValidator.ValidateMissingAt` | DataProcessor.py:206-209 | with two areas or more, the first absent column j gives KeyError for area j+1 |
| `SequenceValidator.ValidateComplete` | DataProcessor.py:206-213 | when every pair was checked without a KeyError, the rows are those kept by all pair filters |
| `SequenceValidator.PresentWindowsAreAreaWindows` | DataProcessor.py:188-190 | an area skipped for lack of "in" samples reads as the same null fields the first/last-seen table holds |
| `SequenceValidator.ColumnPresentIff` | DataProcessor.py:185-190 | an area gets columns iff one of the batch's samples is "in" there |
| `SequenceValidator.InsideNonEmptyIff` | DataProcessor.py:185-188 | `area_in_df` is non-empty iff some sample is "in" |
| `SequenceValidator.TransitionsAgreeWithFirstLastSeen` | DataProcessor.py:175-216 | the rows returned are exactly the first/last-seen rows, main columns aside, whose first-seen times increase strictly across all areas, as a subsequence in first-appearance order |
| `SequenceValidator.TransitionsLabellingErrors` | DataProcessor.py:182-185 | a labelling exception is raised exactly as by the first/last-seen aggregation; any other exception is a KeyError |
| `SequenceValidator.MissingColumnIff` | DataProcessor.py:188-209 | with two or more areas, KeyError names area a iff area a is the first area with no "in" sample; with fewer areas no KeyError |
| `SequenceValidator.ValidateMissingIff` | DataProcessor.py:206-209 | the validation loop raises for column a iff a is the first absent one and there are two areas or more |

## Left out

- `eval`: a string payload is handed to an `Evaluator` parameter. Python's evaluation, with its arbitrary side effects, is not modelled.
- `PositionParser.ParseFloat`: covers only `[+|-]digits[.digits]`. Exponents, surrounding whitespace, underscores, "inf" and "nan" are not modelled, so such strings are refused.
- `PositionParser.ToFloat`: `float()`'s ValueError (a string that is not a number) and TypeError (a dict, None or other non-number) on line 62 are both recorded as `NotAFloat(key)`. The model keeps which coordinate failed, not which of the two exceptions Python raises or its message.
- Null entity ids: the model takes every CLIMAC to be a non-null string. In the source, `unique()` (line 121) keeps a NaN or None id, but `groupby('CLIMAC')` (lines 123-124, 138-140) drops it. The left merges (lines 128-130, 143-145) then give that entity a result row whose main and area fields are all null, even when it has samples. `WindowAggregator.MainWindowCorrect` and `WindowAggregator.AreaWindowCorrect` hold only for non-null ids.
- `Geometry.InPolygon`: its geometric meaning (strictly inside is in, strictly outside is out) is proved for axis-aligned rectangles and for triangles listed in either winding; polygons with more vertices are not covered by a lemma.
- Floating point: coordinates and intercepts are exact reals. IEEE rounding, at the intercept division on line 87 in particular, is not modelled.
- `PositionParser.ToFloat`: a Python bool or int inside the mapping is modelled as a number (`Num`); other objects with a `__float__` method are not modelled.
- WINDOW_START: modelled as integer seconds. Fractional seconds, and `pd.to_datetime` of values it rejects, are not modelled.
- Logging (lines 111, 114-116, 152, 174, 176, 186, 189, 211, 214): inessential output.
- The caller's frame is updated in place: lines 118 and 179 overwrite its `WINDOW_START` column with datetimes, and lines 119, 135 and 184 add the `WINDOW` and `area{i}_in` columns. The model's inputs are values, so these changes to the caller's frame are not modelled; nothing in the core reads the frame after the call.
- `WindowAggregator.FirstLastSeen`, `SequenceValidator.Transitions`: pandas index, dtype and column-name details of the frames are not modelled. Frames are sequences of rows with an indexed collection of per-area windows.
- The order in which `main.py:57` lists the areas drops ids without coordinates. This is the caller's concern; DatabaseController.py, Graph.py, UserInteraction.py and main.py are not part of this model.
- Idempotence and determinism of the aggregations hold by construction, because every operation is a function of its inputs.
