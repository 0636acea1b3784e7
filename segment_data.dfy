/** `get_trajectory_segment_data.py`: splits each trip of the map-matched trajectory into
    the runs of points on one edge or at one node, and summarises each run in one row:
    speed statistics, direction of travel, most frequent day and time type, travel time. */
module SegmentData {
  import opened Wrappers
  import opened Numeric
  import opened Ordering
  import opened Counters
  import opened Timestamps
  import opened TrajectoryMetadata
  import opened Frames

  /** One row of the map-matched trajectory file. `edge` is the text of the matched edge
      and `node` the matched node; either is missing when the point was too far from one. */
  datatype Point = Point(trip: int, edge: Option<string>, node: Option<int>,
                         lat: real, long: real, speed: Option<real>,
                         timestamp: ValidDateTime, dayType: int, timeType: int)

  // ---- columns ----

  function Stamps(pts: seq<Point>): (ks: seq<int>)
    ensures |ks| == |pts|
    ensures forall i :: 0 <= i < |pts| ==> ks[i] == TotalMicros(pts[i].timestamp)
  {
    if pts == [] then [] else [TotalMicros(pts[0].timestamp)] + Stamps(pts[1..])
  }

  function Speeds(pts: seq<Point>): (s: seq<Option<real>>)
    ensures |s| == |pts|
    ensures forall i :: 0 <= i < |pts| ==> s[i] == pts[i].speed
  {
    if pts == [] then [] else [pts[0].speed] + Speeds(pts[1..])
  }

  function DayTypes(pts: seq<Point>): (s: seq<int>)
    ensures |s| == |pts|
    ensures forall i :: 0 <= i < |pts| ==> s[i] == pts[i].dayType
  {
    if pts == [] then [] else [pts[0].dayType] + DayTypes(pts[1..])
  }

  function TimeTypes(pts: seq<Point>): (s: seq<int>)
    ensures |s| == |pts|
    ensures forall i :: 0 <= i < |pts| ==> s[i] == pts[i].timeType
  {
    if pts == [] then [] else [pts[0].timeType] + TimeTypes(pts[1..])
  }

  /** The first row holding the smallest key: `list(df.loc[df[c] == min(df[c])])[0]`. */
  function FirstMinIndex(ks: seq<int>): (r: nat)
    requires |ks| > 0
    ensures r < |ks|
    ensures forall j :: 0 <= j < |ks| ==> ks[r] <= ks[j]
    ensures forall j :: 0 <= j < r ==> ks[r] < ks[j]
  {
    if |ks| == 1 then 0
    else
      var init := ks[..|ks| - 1];
      var r := FirstMinIndex(init);
      assert forall j :: 0 <= j < |init| ==> init[j] == ks[j];
      if ks[|ks| - 1] < ks[r] then |ks| - 1 else r
  }

  /** The first row holding the largest key. */
  function FirstMaxIndex(ks: seq<int>): (r: nat)
    requires |ks| > 0
    ensures r < |ks|
    ensures forall j :: 0 <= j < |ks| ==> ks[j] <= ks[r]
    ensures forall j :: 0 <= j < r ==> ks[j] < ks[r]
  {
    if |ks| == 1 then 0
    else
      var init := ks[..|ks| - 1];
      var r := FirstMaxIndex(init);
      assert forall j :: 0 <= j < |init| ==> init[j] == ks[j];
      if ks[|ks| - 1] > ks[r] then |ks| - 1 else r
  }

  function Earliest(pts: seq<Point>): Point
    requires |pts| > 0
  {
    pts[FirstMinIndex(Stamps(pts))]
  }

  function Latest(pts: seq<Point>): Point
    requires |pts| > 0
  {
    pts[FirstMaxIndex(Stamps(pts))]
  }

  /** `Earliest` and `Latest` are rows of the run; the first holds the earliest time and
      no earlier row shares it, the second likewise for the latest time. */
  lemma EarliestLatest(pts: seq<Point>)
    requires |pts| > 0
    ensures Earliest(pts) in pts && Latest(pts) in pts
    ensures forall j :: 0 <= j < |pts| ==>
      TotalMicros(Earliest(pts).timestamp) <= TotalMicros(pts[j].timestamp) <= TotalMicros(Latest(pts).timestamp)
    ensures TotalMicros(Earliest(pts).timestamp) <= TotalMicros(Latest(pts).timestamp)
  {
    var ks := Stamps(pts);
    var f := FirstMinIndex(ks);
    assert ks[f] <= ks[FirstMaxIndex(ks)];
  }

  // ---- travel time ----

  /** `get_travel_time(df)`: minutes from the earliest to the latest point, rounded to four
      decimal places. */
  function TravelTime(pts: seq<Point>): real
    requires |pts| > 0
  {
    RoundTo(MinutesBetween(Earliest(pts).timestamp, Latest(pts).timestamp), 10000.0)
  }

  /** The travel time is `time_difference` of the two timestamps in minutes, rounded; it is
      never negative and lies within half a rounding step of the exact duration. */
  lemma TravelTimeSpec(pts: seq<Point>)
    requires |pts| > 0
    ensures TimeDifference(DateTimeObject(Earliest(pts).timestamp), DateTimeObject(Latest(pts).timestamp), "minutes")
      == Ok(MinutesBetween(Earliest(pts).timestamp, Latest(pts).timestamp))
    ensures TravelTime(pts) >= 0.0
    ensures MinutesBetween(Earliest(pts).timestamp, Latest(pts).timestamp) - 0.5 / 10000.0 <= TravelTime(pts)
      <= MinutesBetween(Earliest(pts).timestamp, Latest(pts).timestamp) + 0.5 / 10000.0
  {
    var f, l := Earliest(pts).timestamp, Latest(pts).timestamp;
    EarliestLatest(pts);
    TimeDifferenceSign(f, l);
    RoundToNonNegative(MinutesBetween(f, l), 10000.0);
    RoundToClose(MinutesBetween(f, l), 10000.0);
  }

  // ---- direction ----

  /** The edge-case direction label: the sign of the dot product of the edge's vector with
      the displacement from the earliest to the latest point. */
  function DirectionLabel(edgeVector: Vec2, first: Point, last: Point): string
  {
    var d := Dot(edgeVector, GetVector(first.long, first.lat, last.long, last.lat));
    if d > 0.0 then "+" else if d < 0.0 then "-" else "p"
  }

  function Flip(c: string): string
  {
    if c == "+" then "-" else if c == "-" then "+" else c
  }

  /** Travel against the edge vector reads as the opposite label; the label is one of three. */
  lemma DirectionLabelReverse(edgeVector: Vec2, first: Point, last: Point)
    ensures DirectionLabel(edgeVector, last, first) == Flip(DirectionLabel(edgeVector, first, last))
    ensures DirectionLabel(edgeVector, first, last) in {"+", "-", "p"}
  {
    var v := GetVector(first.long, first.lat, last.long, last.lat);
    GetVectorReverse(first.long, first.lat, last.long, last.lat);
    DotNegate(edgeVector, v);
  }

  // ---- speed statistics ----

  /** The average, largest and smallest speed of a run of several points, each rounded
      half to even. `np.mean` of the column skips missing speeds, while Python's `max` and
      `min` keep the first element when it is missing, so the conversion to `int` fails,
      and all three become missing, exactly when the first speed is missing. */
  function SpeedStats(pts: seq<Point>): (r: (Option<int>, Option<int>, Option<int>))
    requires |pts| > 1
  {
    if pts[0].speed.None? then (None, None, None)
    else
      var s := DropMissing(Speeds(pts));
      assert pts[0].speed.value in s;
      (Some(RoundHalfEven(Mean(s))), Some(RoundHalfEven(MaxOf(s))), Some(RoundHalfEven(MinOf(s))))
  }

  /** When present, the three statistics are ordered, and each present speed rounds to a
      value between the smallest and the largest. */
  lemma SpeedStatsOrder(pts: seq<Point>)
    requires |pts| > 1
    ensures SpeedStats(pts).0.None? <==> pts[0].speed.None?
    ensures SpeedStats(pts).1.None? <==> pts[0].speed.None?
    ensures SpeedStats(pts).2.None? <==> pts[0].speed.None?
    ensures pts[0].speed.Some? ==>
      SpeedStats(pts).2.value <= SpeedStats(pts).0.value <= SpeedStats(pts).1.value
    ensures pts[0].speed.Some? ==> forall i :: 0 <= i < |pts| && pts[i].speed.Some? ==>
      SpeedStats(pts).2.value <= RoundHalfEven(pts[i].speed.value) <= SpeedStats(pts).1.value
  {
    if pts[0].speed.Some? {
      var s := DropMissing(Speeds(pts));
      assert pts[0].speed.value in s;
      RoundHalfEvenMonotone(MinOf(s), Mean(s));
      RoundHalfEvenMonotone(Mean(s), MaxOf(s));
      forall i | 0 <= i < |pts| && pts[i].speed.Some?
        ensures RoundHalfEven(MinOf(s)) <= RoundHalfEven(pts[i].speed.value) <= RoundHalfEven(MaxOf(s))
      {
        assert Speeds(pts)[i].Some?;
        var v := pts[i].speed.value;
        assert v in s;
        RoundHalfEvenMonotone(MinOf(s), v);
        RoundHalfEvenMonotone(v, MaxOf(s));
      }
    }
  }

  /** With every speed present, the statistics are those of the whole column. */
  lemma SpeedStatsAllPresent(pts: seq<Point>)
    requires |pts| > 1 && forall i :: 0 <= i < |pts| ==> pts[i].speed.Some?
    ensures |DropMissing(Speeds(pts))| == |pts|
    ensures forall i :: 0 <= i < |pts| ==> DropMissing(Speeds(pts))[i] == pts[i].speed.value
  {
    DropMissingAllPresent(Speeds(pts));
  }

  // ---- one run ----

  /** The summary of one run of points. */
  datatype SegmentMeta = SegmentMeta(avgSpeed: Option<int>, maxSpeed: Option<int>, minSpeed: Option<int>,
                                     compassDir: Option<string>, dayType: int, timeType: int,
                                     travelTime: Option<real>)

  /** The direction of a run of several points: the dot-product label on an edge; at a node,
      the matched edge of the one latest point, and `ValueError` when the latest time is
      shared (`.item()` on several rows). */
  function RunDirection(pts: seq<Point>, edgeVector: Option<Vec2>): Result<Option<string>>
    requires |pts| > 0
  {
    match edgeVector
    case None =>
      var ks := Stamps(pts);
      if Count(ks, ks[FirstMaxIndex(ks)]) == 1 then Ok(Latest(pts).edge) else Err(ValueError)
    case Some(w) => Ok(Some(DirectionLabel(w, Earliest(pts), Latest(pts))))
  }

  /** The summary of a run of several points, given its direction. */
  function SeveralMeta(pts: seq<Point>, dir: Option<string>): SegmentMeta
    requires |pts| > 1
  {
    var stats := SpeedStats(pts);
    SegmentMeta(stats.0, stats.1, stats.2, dir, MostFrequent(DayTypes(pts)),
                MostFrequent(TimeTypes(pts)), Some(TravelTime(pts)))
  }

  /** `get_e_n_segment_metadata(df, v_vector)`. `edgeVector` is missing in the node case. */
  function SegmentMetadata(pts: seq<Point>, edgeVector: Option<Vec2>): Result<SegmentMeta>
  {
    if |pts| == 0 then Err(ValueError)
    else if |pts| == 1 then
      match pts[0].speed
      case None => Err(ValueError)
      case Some(v) =>
        var s := RoundHalfEven(v);
        Ok(SegmentMeta(Some(s), Some(s), Some(s), None, pts[0].dayType, pts[0].timeType, None))
    else
      match RunDirection(pts, edgeVector)
      case Err(e) => Err(e)
      case Ok(c) => Ok(SeveralMeta(pts, c))
  }

  /** The run fails, always with `ValueError`, when it is empty, when its one point has no
      speed, or, at a node, when several points share the latest time. */
  lemma SegmentMetadataErrors(pts: seq<Point>, edgeVector: Option<Vec2>)
    ensures SegmentMetadata(pts, edgeVector).Err? <==>
      || |pts| == 0
      || (|pts| == 1 && pts[0].speed.None?)
      || (|pts| > 1 && edgeVector.None? && Count(Stamps(pts), TotalMicros(Latest(pts).timestamp)) != 1)
    ensures SegmentMetadata(pts, edgeVector).Err? ==> SegmentMetadata(pts, edgeVector).error == ValueError
  {
    if |pts| > 1 {
      var dir := RunDirection(pts, edgeVector);
      assert SegmentMetadata(pts, edgeVector) == (if dir.Ok? then Ok(SeveralMeta(pts, dir.value)) else Err(dir.error));
      if edgeVector.None? {
        var ks := Stamps(pts);
        assert ks[FirstMaxIndex(ks)] == TotalMicros(Latest(pts).timestamp);
        assert dir.Err? <==> Count(ks, ks[FirstMaxIndex(ks)]) != 1;
      }
    }
  }

  /** A lone point gives its own rounded speed three times and no direction or travel time. */
  lemma SegmentMetadataOnePoint(p: Point, edgeVector: Option<Vec2>)
    requires p.speed.Some?
    ensures SegmentMetadata([p], edgeVector).Ok?
    ensures var m := SegmentMetadata([p], edgeVector).value;
      && m.avgSpeed == m.maxSpeed == m.minSpeed == Some(RoundHalfEven(p.speed.value))
      && m.compassDir.None? && m.travelTime.None?
  {
  }

  /** The day and time types are the most frequent in the run, the first seen among ties. */
  lemma SegmentMetadataTypes(pts: seq<Point>, edgeVector: Option<Vec2>)
    requires SegmentMetadata(pts, edgeVector).Ok?
    ensures SegmentMetadata(pts, edgeVector).value.dayType == MostFrequent(DayTypes(pts))
    ensures SegmentMetadata(pts, edgeVector).value.timeType == MostFrequent(TimeTypes(pts))
  {
    if |pts| == 1 {
      assert MostFrequent(DayTypes(pts)) in [pts[0].dayType];
      assert MostFrequent(TimeTypes(pts)) in [pts[0].timeType];
    } else {
      var dir := RunDirection(pts, edgeVector);
      assert SegmentMetadata(pts, edgeVector) == Ok(SeveralMeta(pts, dir.value));
    }
  }

  /** On several points: the speeds are `SpeedStats`, the direction is the dot-product label
      on an edge and the matched edge of the latest point at a node, and the travel time is
      present. */
  lemma SegmentMetadataSeveral(pts: seq<Point>, edgeVector: Option<Vec2>)
    requires |pts| > 1 && SegmentMetadata(pts, edgeVector).Ok?
    ensures var m := SegmentMetadata(pts, edgeVector).value;
      && (m.avgSpeed, m.maxSpeed, m.minSpeed) == SpeedStats(pts)
      && m.compassDir == (if edgeVector.Some? then Some(DirectionLabel(edgeVector.value, Earliest(pts), Latest(pts)))
                          else Latest(pts).edge)
      && m.travelTime == Some(TravelTime(pts))
  {
    var dir := RunDirection(pts, edgeVector);
    assert SegmentMetadata(pts, edgeVector) == Ok(SeveralMeta(pts, dir.value));
    if edgeVector.Some? {
      assert dir.value == Some(DirectionLabel(edgeVector.value, Earliest(pts), Latest(pts)));
    } else {
      assert dir.value == Latest(pts).edge;
    }
  }

  // ---- the edge or node table ----

  /** `df[df[trip_id] == trip]`. */
  function TripPoints(pts: seq<Point>, trip: int): seq<Point>
  {
    Where(pts, (p: Point) => p.trip == trip)
  }

  /** `t_df[t_df[val] == v]`. */
  function GroupPoints<E(==)>(tpts: seq<Point>, v: E, elemOf: Point -> Option<E>): seq<Point>
  {
    Where(tpts, (p: Point) => elemOf(p) == Some(v))
  }

  function Elements<E>(pts: seq<Point>, elemOf: Point -> Option<E>): (s: seq<Option<E>>)
    ensures |s| == |pts|
    ensures forall i :: 0 <= i < |pts| ==> s[i] == elemOf(pts[i])
  {
    if pts == [] then [] else [elemOf(pts[0])] + Elements(pts[1..], elemOf)
  }

  /** `np.unique(t_df[val].dropna())`. */
  function TripElements<E(==)>(tpts: seq<Point>, elemOf: Point -> Option<E>, lt: (E, E) -> bool): seq<E>
  {
    SortedUnique(DropMissing(Elements(tpts, elemOf)), lt)
  }

  /** The elements of a trip are those its points match, each once; so the run of each
      element is not empty. */
  lemma TripElementsSpec<E>(tpts: seq<Point>, elemOf: Point -> Option<E>, lt: (E, E) -> bool)
    ensures forall v :: v in TripElements(tpts, elemOf, lt) <==>
      exists j :: 0 <= j < |tpts| && elemOf(tpts[j]) == Some(v)
    ensures forall v :: v in TripElements(tpts, elemOf, lt) ==> |GroupPoints(tpts, v, elemOf)| > 0
  {
    var es := Elements(tpts, elemOf);
    var elems := TripElements(tpts, elemOf, lt);
    forall v | v in elems
      ensures exists j :: 0 <= j < |tpts| && elemOf(tpts[j]) == Some(v)
      ensures |GroupPoints(tpts, v, elemOf)| > 0
    {
      assert Some(v) in es;
      var j :| 0 <= j < |es| && es[j] == Some(v);
      assert tpts[j] in GroupPoints(tpts, v, elemOf);
    }
    forall v | exists j :: 0 <= j < |tpts| && elemOf(tpts[j]) == Some(v)
      ensures v in elems
    {
      var j :| 0 <= j < |tpts| && elemOf(tpts[j]) == Some(v);
      assert es[j].Some?;
      var vs := DropMissing(es);
      assert v in vs;
      var a :| 0 <= a < |vs| && vs[a] == v;
    }
  }

  /** Under a strict total order the elements of a trip ascend. */
  lemma TripElementsSorted<E(!new)>(tpts: seq<Point>, elemOf: Point -> Option<E>, lt: (E, E) -> bool)
    requires StrictTotalOrder(lt)
    ensures StrictlySorted(TripElements(tpts, elemOf, lt), lt)
  {
    SortedUniqueSorted(DropMissing(Elements(tpts, elemOf)), lt);
  }

  /** `edge_vector_df[edge_vector_df['Edge'] == v]['Vector'].item()`: the one vector stored
      for `v`; `ValueError` when there is none or more than one. */
  function LookupVector<E(==)>(table: seq<(E, Vec2)>, v: E): (r: Result<Vec2>)
    ensures r.Ok? <==> |VectorsOf(table, v)| == 1
    ensures r.Ok? ==> (v, r.value) in table
    ensures r.Err? ==> r.error == ValueError
  {
    var vs := VectorsOf(table, v);
    if |vs| == 1 then Ok(vs[0]) else Err(ValueError)
  }

  function VectorsOf<E(==)>(table: seq<(E, Vec2)>, v: E): (vs: seq<Vec2>)
    ensures forall i :: 0 <= i < |vs| ==> (v, vs[i]) in table
  {
    if table == [] then []
    else
      var rest := VectorsOf(table[1..], v);
      assert forall i :: 0 <= i < |rest| ==> (v, rest[i]) in table[1..];
      (if table[0].0 == v then [table[0].1] else []) + rest
  }

  /** When the table lists each edge once, looking an edge up finds its vector. */
  lemma {:induction false} LookupVectorDistinct<E>(table: seq<(E, Vec2)>, v: E, w: Vec2)
    requires forall i, j :: 0 <= i < j < |table| ==> table[i].0 != table[j].0
    requires (v, w) in table
    ensures LookupVector(table, v) == Ok(w)
  {
    VectorsOfDistinct(table, v, w);
  }

  lemma {:induction false} VectorsOfDistinct<E>(table: seq<(E, Vec2)>, v: E, w: Vec2)
    requires forall i, j :: 0 <= i < j < |table| ==> table[i].0 != table[j].0
    requires (v, w) in table
    ensures VectorsOf(table, v) == [w]
  {
    if table[0] == (v, w) {
      VectorsOfAbsent(table[1..], v);
    } else {
      assert table[0].0 != v by {
        var k :| 0 <= k < |table| && table[k] == (v, w);
        assert k != 0;
      }
      VectorsOfDistinct(table[1..], v, w);
    }
  }

  lemma {:induction false} VectorsOfAbsent<E>(table: seq<(E, Vec2)>, v: E)
    requires forall i :: 0 <= i < |table| ==> table[i].0 != v
    ensures VectorsOf(table, v) == []
  {
    if table != [] {
      VectorsOfAbsent(table[1..], v);
    }
  }

  /** Whether the table is built for nodes, or for edges with their vectors. */
  datatype Kind<E> = Nodes | Edges(vectors: seq<(E, Vec2)>)

  /** One row of the output: `trip, v, avg, max, min, c_dir, d_type, t_type, travel_t`,
      and `time_bin`, the day type plus the time type. */
  datatype Row<E> = Row(trip: int, element: E, meta: SegmentMeta, timeBin: int)

  /** The row of element `v` of a trip whose points are `tpts`. */
  function ElementRow<E(==)>(tpts: seq<Point>, trip: int, v: E, elemOf: Point -> Option<E>, kind: Kind<E>): (r: Result<Row<E>>)
    ensures r.Ok? ==> r.value.trip == trip && r.value.element == v
    ensures r.Ok? ==> r.value.timeBin == r.value.meta.dayType + r.value.meta.timeType
    ensures r.Ok? && kind.Nodes? ==> Ok(r.value.meta) == SegmentMetadata(GroupPoints(tpts, v, elemOf), None)
    ensures r.Ok? && kind.Edges? ==>
      && LookupVector(kind.vectors, v).Ok?
      && Ok(r.value.meta) == SegmentMetadata(GroupPoints(tpts, v, elemOf), Some(LookupVector(kind.vectors, v).value))
  {
    var vec: Result<Option<Vec2>> :=
      match kind
      case Nodes => Ok(None)
      case Edges(table) => (match LookupVector(table, v) case Ok(w) => Ok(Some(w)) case Err(e) => Err(e));
    match vec
    case Err(e) => Err(e)
    case Ok(w) =>
      match SegmentMetadata(GroupPoints(tpts, v, elemOf), w)
      case Err(e) => Err(e)
      case Ok(m) => Ok(Row(trip, v, m, m.dayType + m.timeType))
  }

  /** An edge row fails when the edge has no single vector, and otherwise exactly when
      its run fails. */
  lemma ElementRowErrors<E>(tpts: seq<Point>, trip: int, v: E, elemOf: Point -> Option<E>, kind: Kind<E>)
    ensures kind.Edges? && LookupVector(kind.vectors, v).Err? ==> ElementRow(tpts, trip, v, elemOf, kind) == Err(ValueError)
    ensures kind.Nodes? ==> (ElementRow(tpts, trip, v, elemOf, kind).Err? <==> SegmentMetadata(GroupPoints(tpts, v, elemOf), None).Err?)
    ensures kind.Edges? && LookupVector(kind.vectors, v).Ok? ==>
      (ElementRow(tpts, trip, v, elemOf, kind).Err? <==>
       SegmentMetadata(GroupPoints(tpts, v, elemOf), Some(LookupVector(kind.vectors, v).value)).Err?)
  {
  }

  /** The elements of each trip. */
  function ElementsOfTrip<E(==)>(pts: seq<Point>, elemOf: Point -> Option<E>, lt: (E, E) -> bool): int -> seq<E>
  {
    (trip: int) => TripElements(TripPoints(pts, trip), elemOf, lt)
  }

  /** The `(trip, element)` pairs of the table: trip by trip in the given order of trips,
      and within a trip in ascending order of element. */
  function EnKeys<E(==)>(pts: seq<Point>, trips: seq<int>, elemOf: Point -> Option<E>, lt: (E, E) -> bool): seq<(int, E)>
  {
    Flatten(Groups(trips, ElementsOfTrip(pts, elemOf, lt)))
  }

  /** The row of a pair. */
  function RowOf<E(==)>(pts: seq<Point>, elemOf: Point -> Option<E>, kind: Kind<E>): ((int, E)) -> Result<Row<E>>
  {
    (k: (int, E)) => ElementRow(TripPoints(pts, k.0), k.0, k.1, elemOf, kind)
  }

  /** The table `get_e_n_df` builds: the rows of the pairs in order, or the first error. */
  function EnRows<E(==)>(pts: seq<Point>, trips: seq<int>, elemOf: Point -> Option<E>,
                              lt: (E, E) -> bool, kind: Kind<E>): Result<seq<Row<E>>>
  {
    Collect(Map(RowOf(pts, elemOf, kind), EnKeys(pts, trips, elemOf, lt)))
  }

  /** `get_e_n_df`: for every trip, and for every element its points match, in ascending
      order, the row of that element. The two loops are those of `GroupRowsOf`. */
  method GetEnDf<E(==)>(pts: seq<Point>, trips: seq<int>, elemOf: Point -> Option<E>,
                        lt: (E, E) -> bool, kind: Kind<E>) returns (r: Result<seq<Row<E>>>)
    ensures r == EnRows(pts, trips, elemOf, lt, kind)
  {
    r := GroupRowsOf(RowOf(pts, elemOf, kind), Groups(trips, ElementsOfTrip(pts, elemOf, lt)));
  }

  // ---- what the table holds ----

  /** A table that is built has one row per pair, and each row is its pair's summary over
      the points of that trip matching the element; a table that fails fails with the
      error of the first pair whose row fails. */
  lemma EnRowsSpec<E>(pts: seq<Point>, trips: seq<int>, elemOf: Point -> Option<E>,
                            lt: (E, E) -> bool, kind: Kind<E>)
    ensures var keys := EnKeys(pts, trips, elemOf, lt);
      EnRows(pts, trips, elemOf, lt, kind).Ok? ==>
        && |EnRows(pts, trips, elemOf, lt, kind).value| == |keys|
        && forall i :: 0 <= i < |keys| ==>
          ElementRow(TripPoints(pts, keys[i].0), keys[i].0, keys[i].1, elemOf, kind)
            == Ok(EnRows(pts, trips, elemOf, lt, kind).value[i])
    ensures var keys := EnKeys(pts, trips, elemOf, lt);
      forall k :: (0 <= k < |keys| && ElementRow(TripPoints(pts, keys[k].0), keys[k].0, keys[k].1, elemOf, kind).Err? &&
                  (forall i :: 0 <= i < k ==> ElementRow(TripPoints(pts, keys[i].0), keys[i].0, keys[i].1, elemOf, kind).Ok?)) ==>
        EnRows(pts, trips, elemOf, lt, kind)
          == Err(ElementRow(TripPoints(pts, keys[k].0), keys[k].0, keys[k].1, elemOf, kind).error)
  {
    var keys := EnKeys(pts, trips, elemOf, lt);
    var rs := Map(RowOf(pts, elemOf, kind), keys);
    if Collect(rs).Ok? {
      CollectOk(rs);
    }
    forall k | 0 <= k < |keys| && rs[k].Err? && (forall i :: 0 <= i < k ==> rs[i].Ok?)
      ensures Collect(rs) == Err(rs[k].error)
    {
      CollectErr(rs, k);
    }
  }

  /** The pairs are exactly those of a listed trip with an element one of its points
      matches. */
  lemma EnKeysMembers<E>(pts: seq<Point>, trips: seq<int>, elemOf: Point -> Option<E>,
                         lt: (E, E) -> bool, t: int, v: E)
    ensures (t, v) in EnKeys(pts, trips, elemOf, lt) <==>
      t in trips && exists j :: 0 <= j < |pts| && pts[j].trip == t && elemOf(pts[j]) == Some(v)
  {
    FlattenGroupsMembers(trips, ElementsOfTrip(pts, elemOf, lt), t, v);
    TripElementsSpec(TripPoints(pts, t), elemOf, lt);
    TripPointsMembers(pts, t, elemOf, v);
  }

  /** A point of the trip matches `v` exactly when some point of the file of that trip does. */
  lemma TripPointsMembers<E>(pts: seq<Point>, t: int, elemOf: Point -> Option<E>, v: E)
    ensures (exists j :: 0 <= j < |TripPoints(pts, t)| && elemOf(TripPoints(pts, t)[j]) == Some(v)) <==>
      exists j :: 0 <= j < |pts| && pts[j].trip == t && elemOf(pts[j]) == Some(v)
  {
    var tpts := TripPoints(pts, t);
    if exists q :: 0 <= q < |tpts| && elemOf(tpts[q]) == Some(v) {
      var q :| 0 <= q < |tpts| && elemOf(tpts[q]) == Some(v);
      assert tpts[q] in pts;
      var j :| 0 <= j < |pts| && pts[j] == tpts[q];
    }
    if exists j :: 0 <= j < |pts| && pts[j].trip == t && elemOf(pts[j]) == Some(v) {
      var j :| 0 <= j < |pts| && pts[j].trip == t && elemOf(pts[j]) == Some(v);
      assert pts[j] in tpts;
      var q :| 0 <= q < |tpts| && tpts[q] == pts[j];
    }
  }

  /** Ascending order on pairs: by trip, then by element. */
  ghost predicate PairLess<E>(lt: (E, E) -> bool, a: (int, E), b: (int, E))
  {
    Lex(IntLess, lt, a, b)
  }

  /** Over trips listed in ascending order without repeats, the pairs ascend: no pair has
      two rows. */
  lemma EnKeysSorted<E(!new)>(pts: seq<Point>, trips: seq<int>, elemOf: Point -> Option<E>, lt: (E, E) -> bool)
    requires StrictTotalOrder(lt) && StrictlySorted(trips, IntLess)
    ensures forall a, b :: 0 <= a < b < |EnKeys(pts, trips, elemOf, lt)| ==>
      PairLess(lt, EnKeys(pts, trips, elemOf, lt)[a], EnKeys(pts, trips, elemOf, lt)[b])
  {
    var values := ElementsOfTrip(pts, elemOf, lt);
    forall i | 0 <= i < |trips| ensures StrictlySorted(values(trips[i]), lt) {
      TripElementsSorted(TripPoints(pts, trips[i]), elemOf, lt);
    }
    FlattenGroupsAscend(trips, values, IntLess, lt);
  }

  /** `np.unique(df[trip_id])`. */
  function TripList(pts: seq<Point>): (trips: seq<int>)
    ensures StrictlySorted(trips, IntLess)
    ensures forall i :: 0 <= i < |trips| ==> trips[i] in TripIds(pts)
    ensures forall i :: 0 <= i < |pts| ==> pts[i].trip in trips
  {
    IntLessIsStrictTotalOrder();
    SortedUniqueSorted(TripIds(pts), IntLess);
    var trips := SortedUnique(TripIds(pts), IntLess);
    assert forall i :: 0 <= i < |pts| ==> TripIds(pts)[i] in trips;
    trips
  }

  function TripIds(pts: seq<Point>): (s: seq<int>)
    ensures |s| == |pts|
    ensures forall i :: 0 <= i < |pts| ==> s[i] == pts[i].trip
  {
    if pts == [] then [] else [pts[0].trip] + TripIds(pts[1..])
  }

  function EdgeOf(p: Point): Option<string> { p.edge }

  function NodeOf(p: Point): Option<int> { p.node }

  /** The edge table as a value: edges are ordered as strings. */
  function EdgeTable(pts: seq<Point>, vectors: seq<(string, Vec2)>): Result<seq<Row<string>>>
  {
    EnRows(pts, TripList(pts), EdgeOf, StringLess, Edges(vectors))
  }

  /** The node table as a value. */
  function NodeTable(pts: seq<Point>): Result<seq<Row<int>>>
  {
    EnRows(pts, TripList(pts), NodeOf, IntLess, Nodes)
  }

  /** `get_trip_segment_metadata`: the edge table and the node table, over the trips of the
      file in ascending order. The script stops at an error of the edge table before it
      builds the node table, so `nodes` stands for the script's result only when
      `edges.Ok?`. */
  method TripSegmentMetadata(pts: seq<Point>, vectors: seq<(string, Vec2)>)
    returns (edges: Result<seq<Row<string>>>, nodes: Result<seq<Row<int>>>)
    ensures edges == EdgeTable(pts, vectors) && nodes == NodeTable(pts)
  {
    var trips := TripList(pts);
    edges := GetEnDf(pts, trips, EdgeOf, StringLess, Edges(vectors));
    nodes := GetEnDf(pts, trips, NodeOf, IntLess, Nodes);
  }
}
