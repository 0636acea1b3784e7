/** The stand-alone metadata script `get_map_metadata.py`: one functional table per kind of
    element, built with a larger small-group threshold, a flow on every row and the travel
    time of several values left unrounded; and structural columns (one-way flag or street
    count, and number of segments) joined onto the OpenStreetMap edge and node tables. */
module MapMetadataTables {
  import opened Wrappers
  import opened Numeric
  import opened Ordering
  import opened Counters
  import opened Frames
  import opened MetadataUtils

  /** Groups with fewer segments than this get one row for all times. */
  const ScriptSmallGroup: nat := 7

  // ---- structural helpers ----

  /** Every value of the column is missing. */
  predicate AllMissing(x: seq<Option<string>>) {
    forall i :: 0 <= i < |x| ==> x[i].None?
  }

  /** `compute_oneway`: nothing when the group's directions are all missing, not one-way
      when the group is travelled both ways (`+` and `-`), and one-way otherwise. */
  function Oneway(x: seq<Option<string>>): (r: Option<bool>)
    ensures r.None? <==> |x| > 0 && AllMissing(x)
    ensures r == Some(false) <==> Some("+") in x && Some("-") in x
    ensures r == Some(true) <==> (|x| == 0 || !AllMissing(x)) && !(Some("+") in x && Some("-") in x)
  {
    if |x| > 0 && AllMissing(x) then None
    else Some(!(Some("-") in x && Some("+") in x))
  }

  /** `compute_oneway` looks only at the set of values: any two columns holding the same
      values give the same answer, whatever their order and repetitions. */
  lemma OnewaySetOnly(x: seq<Option<string>>, y: seq<Option<string>>)
    requires forall d :: d in x <==> d in y
    ensures Oneway(x) == Oneway(y)
  {
    if |x| > 0 {
      assert x[0] in y;
    }
    if |y| > 0 {
      assert y[0] in x;
    }
    if |x| > 0 && AllMissing(x) {
      forall j | 0 <= j < |y| ensures y[j].None? {
        assert y[j] in x;
      }
    } else if |x| > 0 {
      var i :| 0 <= i < |x| && x[i].Some?;
      assert x[i] in y;
    }
  }

  /** `compute_street_count`: the number of distinct values of the column. */
  function StreetCount(x: seq<Option<string>>): nat
  {
    |set d | d in x|
  }

  ghost predicate AllDistinct<T>(x: seq<T>) {
    forall i, j :: 0 <= i < j < |x| ==> x[i] != x[j]
  }

  /** A group has at least one street and at most one per segment, and exactly one per
      segment when no two segments share a direction. */
  lemma {:induction false} StreetCountBounds(x: seq<Option<string>>)
    ensures StreetCount(x) <= |x|
    ensures |x| > 0 ==> StreetCount(x) >= 1
    ensures StreetCount(x) == |x| <==> AllDistinct(x)
  {
    if x != [] {
      var init, last := x[..|x| - 1], x[|x| - 1];
      assert x == init + [last];
      StreetCountBounds(init);
      StreetCountSnoc(init, last);
      AllDistinctSnoc(init, last);
    }
  }

  /** Appending a segment adds a street exactly when its direction is new. */
  lemma StreetCountSnoc(init: seq<Option<string>>, last: Option<string>)
    ensures StreetCount(init + [last]) == StreetCount(init) + (if last in init then 0 else 1)
  {
    var x := init + [last];
    assert (set d | d in x) == (set d | d in init) + {last};
    if last in init {
      assert (set d | d in x) == (set d | d in init);
    }
  }

  lemma AllDistinctSnoc<T>(init: seq<T>, last: T)
    ensures AllDistinct(init + [last]) <==> AllDistinct(init) && last !in init
  {
    var x := init + [last];
    if last in init {
      var p :| 0 <= p < |init| && init[p] == last;
      assert x[p] == x[|x| - 1];
    } else if AllDistinct(init) {
      forall i, j | 0 <= i < j < |x| ensures x[i] != x[j] {
        if j < |x| - 1 {
          assert x[i] == init[i] && x[j] == init[j];
        } else {
          assert x[i] == init[i];
        }
      }
    } else {
      var i, j :| 0 <= i < j < |init| && init[i] == init[j];
      assert x[i] == x[j];
    }
  }

  // ---- functional rows ----

  /** The flow of a group: how many of its segments carry each direction, with the missing
      direction's count deleted. */
  function ScriptFlow(dirs: seq<Option<string>>): Flow
  {
    Delete(Counter(dirs), None)
  }

  /** The flow has no entry for a missing direction and one entry per present direction. */
  lemma ScriptFlowKeys(dirs: seq<Option<string>>)
    ensures var fl := ScriptFlow(dirs);
      && DistinctKeys(fl)
      && None !in KeysOf(fl)
      && (forall d: Option<string> :: d.Some? ==> (d in KeysOf(fl) <==> d in dirs))
  {
    var c := Counter(dirs);
    assert DistinctKeys(c) by { CounterKeys(dirs); }
    DeleteKeys(c, None);
    forall d: Option<string> | d.Some? ensures d in KeysOf(c) <==> d in dirs {
      CounterKeys(dirs);
      if d in KeysOf(c) {
        var j :| 0 <= j < |KeysOf(c)| && KeysOf(c)[j] == d;
        assert c[j].0 == d;
      }
    }
  }

  /** Each present direction's entry holds its number of segments, so the flow counts every
      segment whose direction is present. */
  lemma ScriptFlowCounts(dirs: seq<Option<string>>)
    ensures var fl := ScriptFlow(dirs);
      && (forall d: Option<string> :: d.Some? ==> Get(fl, d) == Count(dirs, d))
      && Get(fl, None) == 0
      && Total(fl) + Count(dirs, None) == |dirs|
  {
    var c := Counter(dirs);
    CounterKeys(dirs);
    CounterTotal(dirs);
    CounterGet(dirs, None);
    DeleteKeys(c, None);
    forall d: Option<string> | d.Some? ensures Get(ScriptFlow(dirs), d) == Count(dirs, d) {
      DeleteGet(c, None, d);
      CounterGet(dirs, d);
    }
    DeleteGet(c, None, None);
  }

  /** A row of the script's functional table: the average speed (a whole number) and its
      interval, the maximum and minimum speed (a single value as it is, several rounded to a
      whole number), the travel time and its interval, and the flow. */
  datatype ScriptFunctional = ScriptFunctional(
    avgSpeed: Option<int>, avgCI: Option<Interval>,
    maxSpeed: Option<real>, minSpeed: Option<real>,
    travelTime: Option<real>, travelCI: Option<Interval>,
    flow: Flow)

  function RoundWhole(x: Option<real>): Option<int>
  {
    match x
    case None => None
    case Some(a) => Some(RoundHalfEven(a))
  }

  /** The maximum or minimum speed of a group: a single value as it is, several rounded. */
  function SpeedBound(vals: seq<real>, bound: seq<real> -> Option<real>): Option<real>
  {
    if |vals| <= 1 then bound(vals)
    else match bound(vals)
      case None => None
      case Some(m) => Some(RoundHalfEven(m) as real)
  }

  /** The travel time of a group AS WRITTEN: one value rounded to four places, the mean of
      several left as it is (line 182 rounds it and throws the result away). */
  function TravelAsWritten(vals: seq<real>, margin: seq<real> -> NonNegReal): (Option<real>, Option<Interval>)
  {
    var (t, ci) := Summarise(vals, margin);
    if |vals| == 1 then (RoundPlaces4(t), ci) else (t, ci)
  }

  /** The travel time of a group as intended: rounded to four places however many values
      there are. */
  function Travel(vals: seq<real>, margin: seq<real> -> NonNegReal): (Option<real>, Option<Interval>)
  {
    var (t, ci) := Summarise(vals, margin);
    (RoundPlaces4(t), ci)
  }

  /** The intended travel time is there with one value or more, is on the four-place grid and
      lies within half a step of the range of the values; the interval comes with two values
      or more. */
  lemma TravelRounded(vals: seq<real>, margin: seq<real> -> NonNegReal)
    ensures var (t, ci) := Travel(vals, margin);
      && (t.Some? <==> |vals| >= 1)
      && (ci.Some? <==> |vals| >= 2)
      && (|vals| == 1 ==> t == TravelAsWritten(vals, margin).0)
      && (t.Some? ==> OnGrid(t.value, 10000.0) && MinOf(vals) - 0.00005 <= t.value <= MaxOf(vals) + 0.00005)
  {
    var t := Summarise(vals, margin).0;
    if t.Some? {
      RoundToOnGrid(t.value, 10000.0);
      RoundToClose(t.value, 10000.0);
    }
  }

  /** The travel time the script writes for a group of several values need not be on the
      four-place grid: two readings of 1.00005 give 1.00005 itself. */
  lemma TravelAsWrittenUnrounded(margin: seq<real> -> NonNegReal)
    ensures var t := TravelAsWritten([1.00005, 1.00005], margin).0;
      t == Some(1.00005) && !OnGrid(t.value, 10000.0)
  {
    var data := [1.00005, 1.00005];
    assert Sum(data) == 2.0001 by {
      assert data[..1] == [1.00005];
      assert Sum(data[..1]) == 1.00005 by { assert data[..1][..0] == []; }
    }
    assert Mean(data) == 1.00005;
    assert (1.00005 * 10000.0).Floor == 10000;
  }

  /** `get_functional_row` (without the box plots), with the travel time rounded as
      intended. It never fails: a column with no values gives a missing value. */
  function FunctionalRow<E>(s: seq<Segment<E>>, margin: seq<real> -> NonNegReal): ScriptFunctional
  {
    var avgs := DropMissing(Map(AvgSpeedOf, s));
    var (avg, avgCI) := Summarise(avgs, margin);
    var (travel, travelCI) := Travel(DropMissing(Map(TravelOf, s)), margin);
    ScriptFunctional(RoundWhole(avg), avgCI,
                     SpeedBound(DropMissing(Map(MaxSpeedOf, s)), Largest),
                     SpeedBound(DropMissing(Map(MinSpeedOf, s)), Smallest),
                     travel, travelCI, ScriptFlow(Map(CompassOf, s)))
  }

  /** The average speed is there exactly when some segment has one, is the single value or
      the interval's mean rounded to a whole number, and lies between the rounded smallest
      and largest speed; the interval comes with two values or more. */
  lemma FunctionalRowAverage<E>(s: seq<Segment<E>>, margin: seq<real> -> NonNegReal)
    ensures var f, avgs := FunctionalRow(s, margin), DropMissing(Map(AvgSpeedOf, s));
      && (f.avgSpeed.Some? <==> AnyPresent(s, AvgSpeedOf))
      && (f.avgCI.Some? <==> |avgs| >= 2)
      && (|avgs| == 1 ==> f.avgSpeed == Some(RoundHalfEven(avgs[0])))
      && (|avgs| >= 2 ==> f.avgSpeed == Some(RoundHalfEven(ConfidenceInterval(avgs, margin).1)) &&
                          f.avgCI == Some(ConfidenceInterval(avgs, margin).0))
      && (|avgs| >= 1 ==> RoundHalfEven(MinOf(avgs)) <= f.avgSpeed.value <= RoundHalfEven(MaxOf(avgs)))
  {
    var avgs := DropMissing(Map(AvgSpeedOf, s));
    ColumnPresent(s, AvgSpeedOf);
    if |avgs| >= 1 {
      var a := Summarise(avgs, margin).0.value;
      RoundHalfEvenMonotone(MinOf(avgs), a);
      RoundHalfEvenMonotone(a, MaxOf(avgs));
    }
  }

  /** The maximum speed of a group is there with one value or more: the single value as it
      is, or the largest of several rounded to a whole number, which no rounded value
      exceeds. */
  lemma SpeedBoundMax(vals: seq<real>)
    ensures var m := SpeedBound(vals, Largest);
      && (m.Some? <==> |vals| >= 1)
      && (|vals| == 1 ==> m == Some(vals[0]))
      && (|vals| >= 2 ==> m == Some(RoundHalfEven(MaxOf(vals)) as real) &&
                          forall i :: 0 <= i < |vals| ==> RoundHalfEven(vals[i]) as real <= m.value)
  {
    if |vals| >= 2 {
      forall i | 0 <= i < |vals| ensures RoundHalfEven(vals[i]) <= RoundHalfEven(MaxOf(vals)) {
        RoundHalfEvenMonotone(vals[i], MaxOf(vals));
      }
    }
  }

  /** The minimum speed, the mirror image: the single value, or the smallest of several
      rounded, which no rounded value undercuts. */
  lemma SpeedBoundMin(vals: seq<real>)
    ensures var m := SpeedBound(vals, Smallest);
      && (m.Some? <==> |vals| >= 1)
      && (|vals| == 1 ==> m == Some(vals[0]))
      && (|vals| >= 2 ==> m == Some(RoundHalfEven(MinOf(vals)) as real) &&
                          forall i :: 0 <= i < |vals| ==> m.value <= RoundHalfEven(vals[i]) as real)
  {
    if |vals| >= 2 {
      forall i | 0 <= i < |vals| ensures RoundHalfEven(MinOf(vals)) <= RoundHalfEven(vals[i]) {
        RoundHalfEvenMonotone(MinOf(vals), vals[i]);
      }
    }
  }

  /** `get_functional_row` as the summary of a group, which never fails. */
  function ScriptSummary<E>(margin: seq<real> -> NonNegReal): seq<Segment<E>> -> Result<ScriptFunctional>
  {
    d => Ok(FunctionalRow(d, margin))
  }

  // ---- the functional table ----

  /** The functional rows of one element, with the script's threshold; they never fail. */
  function ScriptRows<E(==)>(df: seq<Segment<E>>, margin: seq<real> -> NonNegReal, v: E): seq<FRow<E, ScriptFunctional>>
  {
    FunctionalRowsErrors(ScriptSmallGroup, v, Rows(df, v), ScriptSummary(margin));
    FunctionalRowsOf(ScriptSmallGroup, v, Rows(df, v), ScriptSummary(margin)).value
  }

  /** The script's rows of an element are the rows the threshold of seven gives. */
  lemma ScriptRowsOk<E>(df: seq<Segment<E>>, margin: seq<real> -> NonNegReal, v: E)
    ensures FunctionalRowsOf(ScriptSmallGroup, v, Rows(df, v), ScriptSummary(margin)) == Ok(ScriptRows(df, margin, v))
  {
    var vdf := Rows(df, v);
    FunctionalRowsErrors(ScriptSmallGroup, v, vdf, ScriptSummary(margin));
    assert ScriptSummary(margin)(vdf).Ok?;
    forall i | 0 <= i < |TimeBins| ensures ScriptSummary(margin)(BinRowsOf(vdf, TimeBins[i])).Ok? {
    }
  }

  function ScriptRowsOf<E(==)>(df: seq<Segment<E>>, margin: seq<real> -> NonNegReal): E -> seq<FRow<E, ScriptFunctional>>
  {
    v => ScriptRows(df, margin, v)
  }

  /** The functional table: the rows of every distinct element, in ascending order. */
  function FunctionalTableOf<E(==)>(df: seq<Segment<E>>, lt: (E, E) -> bool, margin: seq<real> -> NonNegReal)
    : seq<FRow<E, ScriptFunctional>>
  {
    Flatten(Map(ScriptRowsOf(df, margin), Elements(df, lt)))
  }

  /** `get_functional_metadata`: the loop over the distinct elements. */
  method GetFunctionalMetadata<E(==)>(df: seq<Segment<E>>, lt: (E, E) -> bool, margin: seq<real> -> NonNegReal)
    returns (rows: seq<FRow<E, ScriptFunctional>>)
    ensures rows == FunctionalTableOf(df, lt, margin)
  {
    var vals := Elements(df, lt);
    var f := ScriptRowsOf(df, margin);
    rows := [];
    for i := 0 to |vals|
      invariant rows == Flatten(Map(f, vals[..i]))
    {
      var r := ElementRows(df, margin, vals[i]);
      FlattenStep(f, vals, i);
      rows := rows + r;
    }
    WholePrefix(vals);
  }

  /** One element's functional rows, computed by the loop over its bins. */
  method ElementRows<E(==)>(df: seq<Segment<E>>, margin: seq<real> -> NonNegReal, v: E)
    returns (rows: seq<FRow<E, ScriptFunctional>>)
    ensures rows == ScriptRows(df, margin, v)
  {
    var r := FunctionalRows(ScriptSmallGroup, v, Rows(df, v), ScriptSummary(margin));
    ScriptRowsOk(df, margin, v);
    rows := r.value;
  }

  /** An element's rows: for fewer than seven segments, one row in bin 3 with
      `get_functional_row` of all of them and their number; otherwise four rows in bin order
      -1, 1, 0, 2, each with `get_functional_row` of its bin's segments and their number. */
  lemma ScriptRowsShape<E>(df: seq<Segment<E>>, margin: seq<real> -> NonNegReal, v: E)
    ensures var rows, vdf := ScriptRows(df, margin, v), Rows(df, v);
      && (forall i :: 0 <= i < |rows| ==> rows[i].element == v)
      && (|vdf| < 7 ==> |rows| == 1 && rows[0].timeBin == AllTimes && rows[0].count == |vdf| &&
                        rows[0].values == FunctionalRow(vdf, margin))
      && (|vdf| >= 7 ==> |rows| == 4 && forall i :: 0 <= i < 4 ==>
            && rows[i].timeBin == TimeBins[i] && rows[i].count == |BinRowsOf(vdf, TimeBins[i])|
            && rows[i].values == FunctionalRow(BinRowsOf(vdf, TimeBins[i]), margin))
  {
    ScriptRowsOk(df, margin, v);
    FunctionalRowsShape(ScriptSmallGroup, v, Rows(df, v), ScriptSummary(margin));
  }

  /** Selecting the element `x` from rows that all belong to `v`. */
  function OfElement<E(==), S>(x: E): FRow<E, S> -> bool
  {
    (r: FRow<E, S>) => r.element == x
  }

  lemma {:induction false} WhereOwn<E, S>(rows: seq<FRow<E, S>>, v: E, x: E)
    requires forall i :: 0 <= i < |rows| ==> rows[i].element == v
    ensures Where(rows, OfElement(x)) == if v == x then rows else []
  {
    if rows != [] {
      WhereOwn(rows[1..], v, x);
      assert rows == [rows[0]] + rows[1..];
    }
  }

  /** In a table made of each key's own rows, the rows of `x` are the rows of key `x`. */
  lemma {:induction false} WhereOwnRows<E, S>(f: E -> seq<FRow<E, S>>, ks: seq<E>, x: E)
    requires forall k, i :: k in ks && 0 <= i < |f(k)| ==> f(k)[i].element == k
    requires forall i, j :: 0 <= i < j < |ks| ==> ks[i] != ks[j]
    ensures Where(Flatten(Map(f, ks)), OfElement(x)) == if x in ks then f(x) else []
  {
    if ks == [] {
      assert Flatten(Map(f, ks)) == [];
    } else {
      var init, last := ks[..|ks| - 1], ks[|ks| - 1];
      assert ks == init + [last];
      WhereOwnRows(f, init, x);
      assert Map(f, ks) == Map(f, init) + [f(last)];
      FlattenSnoc(Map(f, init), f(last));
      WhereAppend(Flatten(Map(f, init)), f(last), OfElement(x));
      WhereOwn(f(last), last, x);
    }
  }

  /** `num_traj_col`: the sum of the counts of the functional rows of `x`. */
  function TrajectoryCount<E(==), S>(table: seq<FRow<E, S>>, x: E): nat
  {
    Counts(Where(table, OfElement(x)))
  }

  /** Every segment lies in one of the four bins. */
  ghost predicate BinsKnown<E>(df: seq<Segment<E>>) {
    forall i :: 0 <= i < |df| ==> -1 <= df[i].timeBin <= 2
  }

  /** The trajectory count of a distinct element is its number of segments: its rows'
      counts add up to its group's size. */
  lemma TrajectoryCountSegments<E(!new)>(df: seq<Segment<E>>, lt: (E, E) -> bool, margin: seq<real> -> NonNegReal, x: E)
    requires StrictTotalOrder(lt) && BinsKnown(df)
    requires x in Elements(df, lt)
    ensures TrajectoryCount(FunctionalTableOf(df, lt, margin), x) == |Rows(df, x)|
  {
    var vals := Elements(df, lt);
    var f := ScriptRowsOf(df, margin);
    SortedUniqueSorted(DropMissing(Map(ElementOf, df)), lt);
    forall i, j | 0 <= i < j < |vals| ensures vals[i] != vals[j] {
      StrictlySortedDistinct(vals, lt, i, j);
    }
    forall k, i | k in vals && 0 <= i < |f(k)| ensures f(k)[i].element == k {
      ScriptRowsShape(df, margin, k);
    }
    WhereOwnRows(f, vals, x);
    var vdf := Rows(df, x);
    ScriptRowsOk(df, margin, x);
    FunctionalRowsCount(ScriptSmallGroup, x, vdf, ScriptSummary(margin));
  }

  // ---- the structural columns of the OpenStreetMap tables ----

  /** The two columns `get_edge_metadata` adds for one OpenStreetMap edge: its one-way flag
      and its trajectory count, or `KeyError` for an edge no segment was matched to. */
  function EdgeColumns(df: seq<Segment<string>>, table: seq<FRow<string, ScriptFunctional>>, x: Option<string>)
    : Result<(Option<bool>, nat)>
  {
    if x.Some? && x.value in Elements(df, StringLess) then
      Ok((Oneway(Map(CompassOf, Rows(df, x.value))), TrajectoryCount(table, x.value)))
    else Err(KeyError)
  }

  function EdgeColumnsOf(df: seq<Segment<string>>, table: seq<FRow<string, ScriptFunctional>>)
    : Option<string> -> Result<(Option<bool>, nat)>
  {
    x => EdgeColumns(df, table, x)
  }

  /** The one-way and trajectory-count columns of the whole edge table, or the error of the
      first edge that has none. */
  function EdgeJoin(osmEdges: seq<Option<string>>, df: seq<Segment<string>>, margin: seq<real> -> NonNegReal)
    : Result<seq<(Option<bool>, nat)>>
  {
    Collect(Map(EdgeColumnsOf(df, FunctionalTableOf(df, StringLess, margin)), osmEdges))
  }

  /** The join succeeds exactly when every OpenStreetMap edge has segments, and fails with
      `KeyError` otherwise; each edge then gets the one-way flag of its segments' directions and
      its number of segments. */
  lemma EdgeJoinSpec(osmEdges: seq<Option<string>>, df: seq<Segment<string>>, margin: seq<real> -> NonNegReal)
    requires BinsKnown(df)
    ensures EdgeJoin(osmEdges, df, margin).Ok? <==>
      forall i :: 0 <= i < |osmEdges| ==> osmEdges[i].Some? && exists j :: 0 <= j < |df| && df[j].element == osmEdges[i]
    ensures EdgeJoin(osmEdges, df, margin).Err? ==> EdgeJoin(osmEdges, df, margin) == Err(KeyError)
    ensures EdgeJoin(osmEdges, df, margin).Ok? ==> var cols := EdgeJoin(osmEdges, df, margin).value;
      |cols| == |osmEdges| &&
      forall i :: 0 <= i < |osmEdges| ==>
        cols[i] == (Oneway(Map(CompassOf, Rows(df, osmEdges[i].value))), |Rows(df, osmEdges[i].value)|)
  {
    var table := FunctionalTableOf(df, StringLess, margin);
    var f := EdgeColumnsOf(df, table);
    var rs := Map(f, osmEdges);
    StringLessIsStrictTotalOrder();
    ElementsSpec(df, StringLess);
    if Collect(rs).Ok? {
      CollectOk(rs);
      forall i | 0 <= i < |osmEdges|
        ensures osmEdges[i].Some? && osmEdges[i].value in Elements(df, StringLess)
        ensures Collect(rs).value[i] == (Oneway(Map(CompassOf, Rows(df, osmEdges[i].value))), |Rows(df, osmEdges[i].value)|)
      {
        assert rs[i].Ok?;
        TrajectoryCountSegments(df, StringLess, margin, osmEdges[i].value);
      }
    } else {
      CollectErrFirst(rs);
      var k :| 0 <= k < |rs| && rs[k].Err? && Collect(rs) == Err(rs[k].error);
      assert !(osmEdges[k].Some? && osmEdges[k].value in Elements(df, StringLess));
    }
    if forall i :: 0 <= i < |osmEdges| ==> osmEdges[i].Some? && osmEdges[i].value in Elements(df, StringLess) {
      CollectAllOk(rs);
    }
  }

  /** The two columns `get_node_metadata` adds for one OpenStreetMap node: its street count
      and its trajectory count, both 0 for a node no segment was matched to. */
  function NodeColumns(df: seq<Segment<int>>, table: seq<FRow<int, ScriptFunctional>>, x: Option<int>): (nat, nat)
  {
    if x.Some? && x.value in Elements(df, IntLess) then
      (StreetCount(Map(CompassOf, Rows(df, x.value))), TrajectoryCount(table, x.value))
    else (0, 0)
  }

  function NodeColumnsOf(df: seq<Segment<int>>, table: seq<FRow<int, ScriptFunctional>>): Option<int> -> (nat, nat)
  {
    x => NodeColumns(df, table, x)
  }

  /** The street-count and trajectory-count columns of the whole node table. */
  function NodeJoin(osmNodes: seq<Option<int>>, df: seq<Segment<int>>, margin: seq<real> -> NonNegReal): seq<(nat, nat)>
  {
    Map(NodeColumnsOf(df, FunctionalTableOf(df, IntLess, margin)), osmNodes)
  }

  /** Every OpenStreetMap node gets a row: a node with segments gets the number of distinct
      directions among them (at least one, at most one per segment) and its number of
      segments, and any other node gets `(0, 0)`. */
  lemma NodeJoinSpec(osmNodes: seq<Option<int>>, df: seq<Segment<int>>, margin: seq<real> -> NonNegReal)
    requires BinsKnown(df)
    ensures var cols := NodeJoin(osmNodes, df, margin);
      && |cols| == |osmNodes|
      && forall i :: 0 <= i < |osmNodes| ==>
        if osmNodes[i].Some? && exists j :: 0 <= j < |df| && df[j].element == osmNodes[i] then
          var vdf := Rows(df, osmNodes[i].value);
          && cols[i] == (StreetCount(Map(CompassOf, vdf)), |vdf|)
          && 1 <= cols[i].0 <= cols[i].1
        else cols[i] == (0, 0)
  {
    var table := FunctionalTableOf(df, IntLess, margin);
    var cols := NodeJoin(osmNodes, df, margin);
    IntLessIsStrictTotalOrder();
    ElementsSpec(df, IntLess);
    forall i | 0 <= i < |osmNodes| && osmNodes[i].Some? && osmNodes[i].value in Elements(df, IntLess)
      ensures var vdf := Rows(df, osmNodes[i].value);
        && cols[i] == (StreetCount(Map(CompassOf, vdf)), |vdf|)
        && 1 <= cols[i].0 <= cols[i].1
    {
      var vdf := Rows(df, osmNodes[i].value);
      TrajectoryCountSegments(df, IntLess, margin, osmNodes[i].value);
      RowsOfPresent(df, osmNodes[i].value);
      StreetCountBounds(Map(CompassOf, vdf));
    }
  }

  /** The OpenStreetMap edge table, which `get_edge_metadata` extends in place with a one-way
      column and a trajectory-count column. */
  class OsmEdgeTable {
    const edges: seq<Option<string>>
    var oneway: seq<Option<bool>>
    var trajCount: seq<nat>

    constructor (edges: seq<Option<string>>)
      ensures this.edges == edges && oneway == [] && trajCount == []
    {
      this.edges := edges;
      oneway := [];
      trajCount := [];
    }

    /** `get_edge_metadata`: the functional edge table, and the two new columns, which are
        written only when every edge has segments; otherwise `KeyError` and no change. */
    method GetEdgeMetadata(df: seq<Segment<string>>, margin: seq<real> -> NonNegReal)
      returns (r: Result<seq<FRow<string, ScriptFunctional>>>)
      modifies this
      ensures EdgeJoin(edges, df, margin).Err? ==>
        r == Err(KeyError) && oneway == old(oneway) && trajCount == old(trajCount)
      ensures EdgeJoin(edges, df, margin).Ok? ==>
        && r == Ok(FunctionalTableOf(df, StringLess, margin))
        && oneway == Unzip(EdgeJoin(edges, df, margin).value).0
        && trajCount == Unzip(EdgeJoin(edges, df, margin).value).1
    {
      var table, cols := EdgeColumnsTable(edges, df, margin);
      if cols.Err? {
        return Err(KeyError);
      }
      oneway := Unzip(cols.value).0;
      trajCount := Unzip(cols.value).1;
      return Ok(table);
    }
  }

  /** The functional edge table and, by a loop over the OpenStreetMap edges, their two new
      columns or the `KeyError` of the first edge without segments. */
  method EdgeColumnsTable(edges: seq<Option<string>>, df: seq<Segment<string>>, margin: seq<real> -> NonNegReal)
    returns (table: seq<FRow<string, ScriptFunctional>>, cols: Result<seq<(Option<bool>, nat)>>)
    ensures table == FunctionalTableOf(df, StringLess, margin)
    ensures cols == EdgeJoin(edges, df, margin)
    ensures cols.Err? ==> cols == Err(KeyError)
  {
    table := GetFunctionalMetadata(df, StringLess, margin);
    cols := RowsOf(EdgeColumnsOf(df, table), edges);
    EdgeJoinErrors(edges, df, margin);
  }

  /** A failing edge join fails with `KeyError`. */
  lemma EdgeJoinErrors(osmEdges: seq<Option<string>>, df: seq<Segment<string>>, margin: seq<real> -> NonNegReal)
    ensures EdgeJoin(osmEdges, df, margin).Err? ==> EdgeJoin(osmEdges, df, margin) == Err(KeyError)
  {
    var rs := Map(EdgeColumnsOf(df, FunctionalTableOf(df, StringLess, margin)), osmEdges);
    if Collect(rs).Err? {
      CollectErrFirst(rs);
    }
  }

  /** The OpenStreetMap node table, which `get_node_metadata` extends in place with a
      street-count column and a trajectory-count column. */
  class OsmNodeTable {
    const nodes: seq<Option<int>>
    var streetCount: seq<nat>
    var trajCount: seq<nat>

    constructor (nodes: seq<Option<int>>)
      ensures this.nodes == nodes && streetCount == [] && trajCount == []
    {
      this.nodes := nodes;
      streetCount := [];
      trajCount := [];
    }

    /** `get_node_metadata`: the functional node table, and the two new columns. */
    method GetNodeMetadata(df: seq<Segment<int>>, margin: seq<real> -> NonNegReal)
      returns (table: seq<FRow<int, ScriptFunctional>>)
      modifies this
      ensures table == FunctionalTableOf(df, IntLess, margin)
      ensures streetCount == Unzip(NodeJoin(nodes, df, margin)).0
      ensures trajCount == Unzip(NodeJoin(nodes, df, margin)).1
    {
      table := GetFunctionalMetadata(df, IntLess, margin);
      var cols := Map(NodeColumnsOf(df, table), nodes);
      streetCount := Unzip(cols).0;
      trajCount := Unzip(cols).1;
    }
  }
}
