/** The map metadata of `utils.py`: from the per-trip segment tables of edges and of nodes
    to one structural row per element (its compass directions and how one-way it is, or
    the edges meeting at a node) and functional rows per element and time bin (speeds,
    travel time, their confidence intervals, and for a node its flow). */
module MetadataUtils {
  import opened Wrappers
  import opened Numeric
  import opened Ordering
  import opened Counters
  import opened Constants
  import opened Frames
  import opened EdgeText

  /** One row of a segment table as read back from its CSV file: the element (an edge's
      text or a node's id, missing when the cell is empty), its compass direction, speeds
      and travel time (missing cells are `None`) and its time bin. */
  datatype Segment<E> = Segment(element: Option<E>, compassDir: Option<string>,
                                avgSpeed: Option<real>, maxSpeed: Option<real>,
                                minSpeed: Option<real>, travelTime: Option<real>,
                                timeBin: int)

  function ElementOf<E>(s: Segment<E>): Option<E> { s.element }
  function CompassOf<E>(s: Segment<E>): Option<string> { s.compassDir }
  function AvgSpeedOf<E>(s: Segment<E>): Option<real> { s.avgSpeed }
  function MaxSpeedOf<E>(s: Segment<E>): Option<real> { s.maxSpeed }
  function MinSpeedOf<E>(s: Segment<E>): Option<real> { s.minSpeed }
  function TravelOf<E>(s: Segment<E>): Option<real> { s.travelTime }

  /** The segments of one element: `df[df[col] == v]`. */
  function Rows<E(==)>(df: seq<Segment<E>>, v: E): seq<Segment<E>>
  {
    Where(df, (s: Segment<E>) => s.element == Some(v))
  }

  /** The segments of one time bin: `df[df[time_bin] == b]`. */
  function BinRowsOf<E>(df: seq<Segment<E>>, b: int): seq<Segment<E>>
  {
    Where(df, (s: Segment<E>) => s.timeBin == b)
  }

  // ---- structural metadata of an edge ----

  /** Every value present. */
  function Somes<T>(xs: seq<T>): (r: seq<Option<T>>)
    ensures |r| == |xs|
    ensures forall i :: 0 <= i < |xs| ==> r[i] == Some(xs[i])
  {
    seq(|xs|, i requires 0 <= i < |xs| => Some(xs[i]))
  }

  ghost predicate MixesMissing(labels: seq<Option<string>>) {
    (exists i :: 0 <= i < |labels| && labels[i].None?) && (exists j :: 0 <= j < |labels| && labels[j].Some?)
  }

  /** `np.unique` of the compass column: the distinct labels in ascending order; a column
      of missing values only gives one missing value, and a column mixing labels with
      missing values cannot be sorted (`TypeError`). */
  function UniqueLabels(labels: seq<Option<string>>): (r: Result<seq<Option<string>>>)
    ensures r.Err? <==> MixesMissing(labels)
    ensures r.Err? ==> r.error == TypeError
    ensures r.Ok? ==> forall i :: 0 <= i < |labels| ==> labels[i] in r.value
    ensures r.Ok? ==> forall i :: 0 <= i < |r.value| ==> r.value[i] in labels
  {
    if forall i :: 0 <= i < |labels| ==> labels[i].Some? then
      var u := SortedUnique(DropMissing(labels), StringLess);
      var r := Somes(u);
      DropMissingAllPresent(labels);
      assert forall i :: 0 <= i < |labels| ==> labels[i] == Some(DropMissing(labels)[i]);
      assert forall i :: 0 <= i < |labels| ==> labels[i] in r by {
        forall i | 0 <= i < |labels| ensures labels[i] in r {
          var x := DropMissing(labels)[i];
          assert x in u;
          var k :| 0 <= k < |u| && u[k] == x;
          assert r[k] == labels[i];
        }
      }
      assert forall i :: 0 <= i < |r| ==> r[i] in labels by {
        forall i | 0 <= i < |r| ensures r[i] in labels {
          assert u[i] in DropMissing(labels);
        }
      }
      Ok(r)
    else if forall i :: 0 <= i < |labels| ==> labels[i].None? then
      Ok([None])
    else
      Err(TypeError)
  }

  /** With a label in every row, the direction list is the distinct labels, strictly
      ascending, and so depends only on the set of labels. */
  lemma UniqueLabelsSorted(labels: seq<Option<string>>, others: seq<Option<string>>)
    requires forall i :: 0 <= i < |labels| ==> labels[i].Some?
    requires forall i :: 0 <= i < |others| ==> others[i].Some?
    ensures StrictlySorted(DropMissing(UniqueLabels(labels).value), StringLess)
    ensures (forall x :: x in labels <==> x in others) ==> UniqueLabels(labels) == UniqueLabels(others)
  {
    StringLessIsStrictTotalOrder();
    var u := SortedUnique(DropMissing(labels), StringLess);
    SortedUniqueSorted(DropMissing(labels), StringLess);
    DropMissingSomes(u);
    if forall x :: x in labels <==> x in others {
      DropMissingMembers(labels);
      DropMissingMembers(others);
      SortedUniqueSameMembers(DropMissing(labels), DropMissing(others), StringLess);
    }
  }

  lemma DropMissingSomes<T>(u: seq<T>)
    ensures DropMissing(Somes(u)) == u
  {
    DropMissingAllPresent(Somes(u));
  }

  lemma DropMissingMembers<T>(xs: seq<Option<T>>)
    ensures forall x :: x in DropMissing(xs) <==> Some(x) in xs
  {
    forall x | Some(x) in xs ensures x in DropMissing(xs) {
      var i :| 0 <= i < |xs| && xs[i] == Some(x);
    }
  }

  /** Lists with the same members have the same distinct sorted values. */
  lemma SortedUniqueSameMembers<T(!new)>(xs: seq<T>, ys: seq<T>, lt: (T, T) -> bool)
    requires StrictTotalOrder(lt)
    requires forall x :: x in xs <==> x in ys
    ensures SortedUnique(xs, lt) == SortedUnique(ys, lt)
  {
    var u, w := SortedUnique(xs, lt), SortedUnique(ys, lt);
    SortedUniqueSorted(xs, lt);
    SortedUniqueSorted(ys, lt);
    assert forall i :: 0 <= i < |u| ==> u[i] in w;
    assert forall i :: 0 <= i < |w| ==> w[i] in u;
    StrictlySortedUnique(u, w, lt);
  }

  /** `label in c_dir`. */
  predicate HasLabel(cdir: seq<Option<string>>, h: Heading) {
    Some(Name(h)) in cdir
  }

  /** `pair[0] in c_dir and pair[1] in c_dir`. */
  predicate PairIn(cdir: seq<Option<string>>, p: (Heading, Heading)) {
    HasLabel(cdir, p.0) && HasLabel(cdir, p.1)
  }

  predicate HasPair(cdir: seq<Option<string>>, pairs: seq<(Heading, Heading)>) {
    exists k :: 0 <= k < |pairs| && PairIn(cdir, pairs[k])
  }

  /** How one-way an edge with direction list `cdir` is: 0.0 when it is travelled in two
      directly opposite directions, 0.5 when only in two generally opposite ones, and 1.0
      otherwise. */
  function OneWay(cdir: seq<Option<string>>): real
  {
    if HasPair(cdir, DirectlyOppositePairs) then 0.0
    else if HasPair(cdir, GenerallyOppositePairs) then 0.5
    else 1.0
  }

  lemma GenerallyOppositeListed(h: Heading, g: Heading)
    requires g in Opposite(h)
    ensures (h, g) in GenerallyOppositePairs
  {
  }

  lemma GenerallyOppositeEntry(k: int)
    requires 0 <= k < |GenerallyOppositePairs|
    ensures GenerallyOppositePairs[k].1 in Opposite(GenerallyOppositePairs[k].0)
  {
  }

  lemma DirectlyOppositeEntry(k: int)
    requires 0 <= k < |DirectlyOppositePairs|
    ensures DirectlyOppositePairs[k].1 == DirectOpposite(DirectlyOppositePairs[k].0)
  {
  }

  lemma DirectlyOppositeListed(h: Heading)
    ensures (h, DirectOpposite(h)) in DirectlyOppositePairs || (DirectOpposite(h), h) in DirectlyOppositePairs
  {
  }

  /** A directly opposite pair is present exactly when some label and its direct opposite are. */
  lemma DirectPairPresent(cdir: seq<Option<string>>)
    ensures HasPair(cdir, DirectlyOppositePairs) <==>
      exists h :: HasLabel(cdir, h) && HasLabel(cdir, DirectOpposite(h))
  {
    if exists h :: HasLabel(cdir, h) && HasLabel(cdir, DirectOpposite(h)) {
      var h :| HasLabel(cdir, h) && HasLabel(cdir, DirectOpposite(h));
      DirectlyOppositeListed(h);
      DirectOppositeInvolution(h);
      var k :| 0 <= k < |DirectlyOppositePairs| &&
        (DirectlyOppositePairs[k] == (h, DirectOpposite(h)) || DirectlyOppositePairs[k] == (DirectOpposite(h), h));
      assert PairIn(cdir, DirectlyOppositePairs[k]);
    }
    if HasPair(cdir, DirectlyOppositePairs) {
      var k :| 0 <= k < |DirectlyOppositePairs| && PairIn(cdir, DirectlyOppositePairs[k]);
      DirectlyOppositeEntry(k);
      var p := DirectlyOppositePairs[k];
      assert HasLabel(cdir, p.0) && HasLabel(cdir, DirectOpposite(p.0));
    }
  }

  /** A generally opposite pair is present exactly when some label and one of its
      `OPPOSITE_HEADING` entries are. */
  lemma GeneralPairPresent(cdir: seq<Option<string>>)
    ensures HasPair(cdir, GenerallyOppositePairs) <==>
      exists h, g :: g in Opposite(h) && HasLabel(cdir, h) && HasLabel(cdir, g)
  {
    if exists h, g :: g in Opposite(h) && HasLabel(cdir, h) && HasLabel(cdir, g) {
      var h, g :| g in Opposite(h) && HasLabel(cdir, h) && HasLabel(cdir, g);
      GenerallyOppositeListed(h, g);
      var k :| 0 <= k < |GenerallyOppositePairs| && GenerallyOppositePairs[k] == (h, g);
      assert PairIn(cdir, GenerallyOppositePairs[k]);
    }
    if HasPair(cdir, GenerallyOppositePairs) {
      var k :| 0 <= k < |GenerallyOppositePairs| && PairIn(cdir, GenerallyOppositePairs[k]);
      GenerallyOppositeEntry(k);
      var p := GenerallyOppositePairs[k];
      assert HasLabel(cdir, p.0) && HasLabel(cdir, p.1);
    }
  }

  /** The one-way value, stated in terms of the direction tables rather than the pair lists. */
  lemma OneWayOpposites(cdir: seq<Option<string>>)
    ensures OneWay(cdir) == 0.0 <==>
      exists h :: HasLabel(cdir, h) && HasLabel(cdir, DirectOpposite(h))
    ensures OneWay(cdir) == 0.5 <==>
      && (forall h :: HasLabel(cdir, h) ==> !HasLabel(cdir, DirectOpposite(h)))
      && (exists h, g :: g in Opposite(h) && HasLabel(cdir, h) && HasLabel(cdir, g))
    ensures OneWay(cdir) == 0.0 || OneWay(cdir) == 0.5 || OneWay(cdir) == 1.0
  {
    DirectPairPresent(cdir);
    GeneralPairPresent(cdir);
  }

  /** The two loops with `break` that look for a directly, then a generally opposite pair. */
  method Directionality(cdir: seq<Option<string>>) returns (oneWay: real)
    ensures oneWay == OneWay(cdir)
  {
    oneWay := 1.0;
    for i := 0 to |DirectlyOppositePairs|
      invariant oneWay == 1.0 ==> forall k :: 0 <= k < i ==> !PairIn(cdir, DirectlyOppositePairs[k])
      invariant oneWay != 1.0 ==> oneWay == 0.0 && HasPair(cdir, DirectlyOppositePairs)
    {
      if PairIn(cdir, DirectlyOppositePairs[i]) {
        oneWay := 0.0;
        break;
      }
    }
    if oneWay == 1.0 {
      for i := 0 to |GenerallyOppositePairs|
        invariant oneWay == 1.0 ==> forall k :: 0 <= k < i ==> !PairIn(cdir, GenerallyOppositePairs[k])
        invariant oneWay != 1.0 ==> oneWay == 0.5 && HasPair(cdir, GenerallyOppositePairs)
      {
        if PairIn(cdir, GenerallyOppositePairs[i]) {
          oneWay := 0.5;
          break;
        }
      }
    }
  }

  /** The structural values of an edge: its direction list and how one-way it is. */
  datatype Structural = Structural(directions: Option<seq<Option<string>>>, oneWay: Option<real>)

  /** `get_edge_structural_metadata`: the direction list of every group that is not empty,
      and the one-way value of every group of two segments or more. */
  function EdgeStructuralOf<E>(df: seq<Segment<E>>): (r: Result<Structural>)
    ensures r.Err? <==> MixesMissing(Map(CompassOf, df))
    ensures r.Ok? ==> (r.value.directions.Some? <==> |df| >= 1)
    ensures r.Ok? ==> (r.value.oneWay.Some? <==> |df| >= 2)
    ensures r.Ok? && |df| >= 1 ==> r.value.directions == Some(UniqueLabels(Map(CompassOf, df)).value)
  {
    match UniqueLabels(Map(CompassOf, df))
    case Err(e) => Err(e)
    case Ok(c) =>
      if |df| == 0 then Ok(Structural(None, None))
      else if |df| == 1 then Ok(Structural(Some(c), None))
      else Ok(Structural(Some(c), Some(OneWay(c))))
  }

  method EdgeStructural<E>(df: seq<Segment<E>>) returns (r: Result<Structural>)
    ensures r == EdgeStructuralOf(df)
  {
    var labels := UniqueLabels(Map(CompassOf, df));
    if labels.Err? {
      return Err(labels.error);
    }
    var c := labels.value;
    if |df| == 0 {
      return Ok(Structural(None, None));
    } else if |df| == 1 {
      return Ok(Structural(Some(c), None));
    }
    var oneWay := Directionality(c);
    return Ok(Structural(Some(c), Some(oneWay)));
  }

  /** With two segments or more, a group is two-way exactly when it has two directly
      opposite labels, and half two-way when it has only two generally opposite ones. */
  lemma EdgeStructuralOneWay<E>(df: seq<Segment<E>>)
    requires |df| >= 2 && EdgeStructuralOf(df).Ok?
    ensures var c := EdgeStructuralOf(df).value.directions.value;
      && (EdgeStructuralOf(df).value.oneWay == Some(0.0) <==>
            exists h :: HasLabel(c, h) && HasLabel(c, DirectOpposite(h)))
      && (EdgeStructuralOf(df).value.oneWay == Some(0.5) <==>
            (forall h :: HasLabel(c, h) ==> !HasLabel(c, DirectOpposite(h))) &&
            (exists h, g :: g in Opposite(h) && HasLabel(c, h) && HasLabel(c, g)))
    ensures var c := EdgeStructuralOf(df).value.directions.value;
      forall h :: HasLabel(c, h) <==> exists i :: 0 <= i < |df| && df[i].compassDir == Some(Name(h))
  {
    var c := EdgeStructuralOf(df).value.directions.value;
    OneWayOpposites(c);
    var col := Map(CompassOf, df);
    forall h ensures HasLabel(c, h) <==> exists i :: 0 <= i < |df| && df[i].compassDir == Some(Name(h)) {
      if HasLabel(c, h) {
        var k :| 0 <= k < |c| && c[k] == Some(Name(h));
        assert c[k] in col;
        var i :| 0 <= i < |col| && col[i] == c[k];
        assert df[i].compassDir == Some(Name(h));
      }
      if exists i :: 0 <= i < |df| && df[i].compassDir == Some(Name(h)) {
        var i :| 0 <= i < |df| && df[i].compassDir == Some(Name(h));
        assert col[i] in c;
      }
    }
  }

  // ---- functional metadata ----

  /** A margin of error is never negative. */
  type NonNegReal = r: real | r >= 0.0

  datatype Interval = Interval(lower: real, upper: real)

  /** `calc_confidence_interval`: the mean of the values, and the interval of `margin`
      around it with both ends rounded to two places. The margin (the t-quantile times
      the standard error) is a parameter. */
  function ConfidenceInterval(data: seq<real>, margin: seq<real> -> NonNegReal): (r: (Interval, real))
    requires |data| >= 2
    ensures MinOf(data) <= r.1 <= MaxOf(data)
    ensures r.0.lower <= RoundTo(r.1, 100.0) <= r.0.upper
    ensures r.0.lower == RoundTo(r.1 - margin(data), 100.0)
    ensures r.0.upper == RoundTo(r.1 + margin(data), 100.0)
  {
    var mean := Mean(data);
    var m := margin(data);
    RoundToMonotone(mean - m, mean, 100.0);
    RoundToMonotone(mean, mean + m, 100.0);
    (Interval(RoundTo(mean - m, 100.0), RoundTo(mean + m, 100.0)), mean)
  }

  /** Because the ends are rounded and the mean is not, the mean can lie outside its own
      interval: two readings of 1.003 with no spread give the interval [1.0, 1.0]. */
  lemma MeanOutsideInterval()
    ensures var r := ConfidenceInterval([1.003, 1.003], _ => 0.0);
      r.0.upper < r.1
  {
    var data := [1.003, 1.003];
    assert Sum(data) == 2.006 by {
      assert data[..1] == [1.003];
      assert Sum(data[..1]) == 1.003 by { assert data[..1][..0] == []; }
    }
    assert Mean(data) == 1.003;
    assert RoundHalfEven(1.003 * 100.0) == 100;
  }

  /** The value and interval of one column: nothing for no values, the value alone for
      one, and the mean with its interval for two or more. */
  function Summarise(vals: seq<real>, margin: seq<real> -> NonNegReal): (r: (Option<real>, Option<Interval>))
    ensures r.0.Some? <==> |vals| >= 1
    ensures r.1.Some? <==> |vals| >= 2
    ensures |vals| >= 1 ==> MinOf(vals) <= r.0.value <= MaxOf(vals)
    ensures |vals| == 1 ==> r.0.value == vals[0]
    ensures r.1.Some? ==> r.1.value.lower <= RoundTo(r.0.value, 100.0) <= r.1.value.upper
  {
    if |vals| == 0 then (None, None)
    else if |vals| == 1 then (Some(vals[0]), None)
    else
      var (ci, mean) := ConfidenceInterval(vals, margin);
      (Some(mean), Some(ci))
  }

  /** The largest value, if any: the one value itself, or `max` of several. */
  function Largest(vals: seq<real>): (r: Option<real>)
    ensures r.Some? <==> |vals| >= 1
    ensures r.Some? ==> r.value in vals && forall i :: 0 <= i < |vals| ==> vals[i] <= r.value
  {
    if |vals| == 0 then None else if |vals| == 1 then Some(vals[0]) else Some(MaxOf(vals))
  }

  /** The smallest value, if any: the one value itself, or `min` of several. */
  function Smallest(vals: seq<real>): (r: Option<real>)
    ensures r.Some? <==> |vals| >= 1
    ensures r.Some? ==> r.value in vals && forall i :: 0 <= i < |vals| ==> r.value <= vals[i]
  {
    if |vals| == 0 then None else if |vals| == 1 then Some(vals[0]) else Some(MinOf(vals))
  }

  /** The functional values of a group: average speed and its interval, maximum and minimum
      speed (whole numbers), and travel time (to four places) and its interval. */
  datatype Functional = Functional(avgSpeed: Option<int>, avgCI: Option<Interval>,
                                   maxSpeed: Option<int>, minSpeed: Option<int>,
                                   travelTime: Option<real>, travelCI: Option<Interval>)

  const NoFunctional := Functional(None, None, None, None, None, None)

  function RoundPlaces4(x: Option<real>): Option<real>
  {
    match x
    case None => None
    case Some(t) => Some(RoundTo(t, 10000.0))
  }

  /** `get_edge_functional_metadata`: an empty group has no values; otherwise the speeds
      are rounded to whole numbers, which fails (`ValueError`) when a speed column holds
      no value at all, and a missing travel time stays missing. */
  function EdgeFunctional<E>(df: seq<Segment<E>>, margin: seq<real> -> NonNegReal): (r: Result<Functional>)
    ensures |df| == 0 ==> r == Ok(NoFunctional)
    ensures r.Err? ==> r.error == ValueError
  {
    if |df| == 0 then Ok(NoFunctional)
    else
      var (avg, avgCI) := Summarise(DropMissing(Map(AvgSpeedOf, df)), margin);
      var (travel, travelCI) := Summarise(DropMissing(Map(TravelOf, df)), margin);
      var mx := Largest(DropMissing(Map(MaxSpeedOf, df)));
      var mn := Smallest(DropMissing(Map(MinSpeedOf, df)));
      if avg.None? || mx.None? || mn.None? then Err(ValueError)
      else
        Ok(Functional(Some(RoundHalfEven(avg.value)), avgCI, Some(RoundHalfEven(mx.value)),
                      Some(RoundHalfEven(mn.value)), RoundPlaces4(travel), travelCI))
  }

  /** Some segment of the group has a value in the column. */
  ghost predicate AnyPresent<E>(df: seq<Segment<E>>, col: Segment<E> -> Option<real>) {
    exists i :: 0 <= i < |df| && col(df[i]).Some?
  }

  lemma DropMissingEmpty<T>(xs: seq<Option<T>>)
    ensures |DropMissing(xs)| == 0 <==> forall i :: 0 <= i < |xs| ==> xs[i].None?
  {
    if exists i :: 0 <= i < |xs| && xs[i].Some? {
      var i :| 0 <= i < |xs| && xs[i].Some?;
      assert xs[i].value in DropMissing(xs);
    }
  }

  lemma ColumnPresent<E>(df: seq<Segment<E>>, col: Segment<E> -> Option<real>)
    ensures |DropMissing(Map(col, df))| >= 1 <==> AnyPresent(df, col)
  {
    var xs := Map(col, df);
    DropMissingEmpty(xs);
    if AnyPresent(df, col) {
      var i :| 0 <= i < |df| && col(df[i]).Some?;
      assert xs[i].Some?;
    }
  }

  /** A group that is not empty fails exactly when one of its speed columns is empty. */
  lemma EdgeFunctionalErrors<E>(df: seq<Segment<E>>, margin: seq<real> -> NonNegReal)
    ensures EdgeFunctional(df, margin).Err? <==>
      |df| > 0 && !(AnyPresent(df, AvgSpeedOf) && AnyPresent(df, MaxSpeedOf) && AnyPresent(df, MinSpeedOf))
  {
    ColumnPresent(df, AvgSpeedOf);
    ColumnPresent(df, MaxSpeedOf);
    ColumnPresent(df, MinSpeedOf);
  }

  /** The group's maximum speed is the rounded largest of its segments' present maxima:
      no segment's rounded maximum exceeds it, and some segment's reaches it. */
  lemma EdgeFunctionalMax<E>(df: seq<Segment<E>>, margin: seq<real> -> NonNegReal)
    requires |df| > 0 && EdgeFunctional(df, margin).Ok?
    ensures var m := EdgeFunctional(df, margin).value.maxSpeed;
      && m.Some?
      && (forall i :: 0 <= i < |df| && df[i].maxSpeed.Some? ==> RoundHalfEven(df[i].maxSpeed.value) <= m.value)
      && (exists i :: 0 <= i < |df| && df[i].maxSpeed.Some? && RoundHalfEven(df[i].maxSpeed.value) == m.value)
  {
    var col := Map(MaxSpeedOf, df);
    var vals := DropMissing(col);
    var x := Largest(vals).value;
    forall i | 0 <= i < |df| && df[i].maxSpeed.Some?
      ensures RoundHalfEven(df[i].maxSpeed.value) <= RoundHalfEven(x)
    {
      assert col[i].value in vals;
      RoundHalfEvenMonotone(df[i].maxSpeed.value, x);
    }
    assert Some(x) in col;
    var i :| 0 <= i < |col| && col[i] == Some(x);
    assert df[i].maxSpeed == Some(x);
  }

  /** The group's minimum speed is the rounded smallest of its segments' present minima. */
  lemma EdgeFunctionalMin<E>(df: seq<Segment<E>>, margin: seq<real> -> NonNegReal)
    requires |df| > 0 && EdgeFunctional(df, margin).Ok?
    ensures var m := EdgeFunctional(df, margin).value.minSpeed;
      && m.Some?
      && (forall i :: 0 <= i < |df| && df[i].minSpeed.Some? ==> m.value <= RoundHalfEven(df[i].minSpeed.value))
      && (exists i :: 0 <= i < |df| && df[i].minSpeed.Some? && RoundHalfEven(df[i].minSpeed.value) == m.value)
  {
    var col := Map(MinSpeedOf, df);
    var vals := DropMissing(col);
    var x := Smallest(vals).value;
    forall i | 0 <= i < |df| && df[i].minSpeed.Some?
      ensures RoundHalfEven(x) <= RoundHalfEven(df[i].minSpeed.value)
    {
      assert col[i].value in vals;
      RoundHalfEvenMonotone(x, df[i].minSpeed.value);
    }
    assert Some(x) in col;
    var i :| 0 <= i < |col| && col[i] == Some(x);
    assert df[i].minSpeed == Some(x);
  }

  /** An interval comes with two present values or more, a value with one or more; with
      exactly one, that value is taken as it is. */
  lemma EdgeFunctionalIntervals<E>(df: seq<Segment<E>>, margin: seq<real> -> NonNegReal)
    requires |df| > 0 && EdgeFunctional(df, margin).Ok?
    ensures var f := EdgeFunctional(df, margin).value;
      var avgs, travels := DropMissing(Map(AvgSpeedOf, df)), DropMissing(Map(TravelOf, df));
      && (f.avgCI.Some? <==> |avgs| >= 2)
      && (f.travelCI.Some? <==> |travels| >= 2)
      && (f.travelTime.Some? <==> |travels| >= 1)
      && (|avgs| == 1 ==> f.avgSpeed == Some(RoundHalfEven(avgs[0])))
      && (|travels| == 1 ==> f.travelTime == Some(RoundTo(travels[0], 10000.0)))
      && RoundHalfEven(MinOf(avgs)) <= f.avgSpeed.value <= RoundHalfEven(MaxOf(avgs))
  {
    var avgs := DropMissing(Map(AvgSpeedOf, df));
    var a := Summarise(avgs, margin).0.value;
    RoundHalfEvenMonotone(MinOf(avgs), a);
    RoundHalfEvenMonotone(a, MaxOf(avgs));
  }

  /** A node's flow: how many of its segments carry each label (the matched edge of the
      segment's last point). */
  type Flow = seq<(Option<string>, nat)>

  /** `get_node_functional_metadata`: the edge values, and the flow of a group of two
      segments or more (an empty flow otherwise). */
  function NodeFunctional<E>(df: seq<Segment<E>>, margin: seq<real> -> NonNegReal): (r: Result<(Functional, Flow)>)
    ensures r.Ok? <==> EdgeFunctional(df, margin).Ok?
    ensures r.Ok? ==> r.value.0 == EdgeFunctional(df, margin).value
    ensures r.Err? ==> r.error == EdgeFunctional(df, margin).error
  {
    match EdgeFunctional(df, margin)
    case Err(e) => Err(e)
    case Ok(f) => Ok((f, if |df| > 1 then Counter(Map(CompassOf, df)) else []))
  }

  /** The flow counts every label's segments, and so its counts add up to the group's size. */
  lemma NodeFlowCounts<E>(df: seq<Segment<E>>, margin: seq<real> -> NonNegReal)
    requires NodeFunctional(df, margin).Ok?
    ensures var flow := NodeFunctional(df, margin).value.1;
      && (|df| <= 1 ==> flow == [])
      && (|df| > 1 ==> Total(flow) == |df| && DistinctKeys(flow))
      && (|df| > 1 ==> forall x :: Get(flow, x) == Count(Map(CompassOf, df), x))
  {
    var col := Map(CompassOf, df);
    if |df| > 1 {
      CounterTotal(col);
      CounterKeys(col);
      forall x ensures Get(Counter(col), x) == Count(col, x) {
        CounterGet(col, x);
      }
    }
  }

  // ---- functional rows per time bin ----

  /** The time bins, in the order their rows are written. */
  const TimeBins: seq<int> := [-1, 1, 0, 2]

  /** Groups with fewer segments than this get one row for all times. */
  const SmallGroup: nat := 5

  /** The bin of that one row. */
  const AllTimes: int := 3

  /** A functional row: the element, the time bin, the values of its segments in that bin
      and how many segments there are. */
  datatype FRow<E, S> = FRow(element: E, timeBin: int, values: S, count: nat)

  /** The row of one time bin. */
  function BinRow<E, S>(v: E, vdf: seq<Segment<E>>, summary: seq<Segment<E>> -> Result<S>, b: int): (r: Result<FRow<E, S>>)
    ensures r.Ok? <==> summary(BinRowsOf(vdf, b)).Ok?
  {
    var bdf := BinRowsOf(vdf, b);
    match summary(bdf)
    case Err(e) => Err(e)
    case Ok(x) => Ok(FRow(v, b, x, |bdf|))
  }

  function BinRowOf<E, S>(v: E, vdf: seq<Segment<E>>, summary: seq<Segment<E>> -> Result<S>): int -> Result<FRow<E, S>>
  {
    b => BinRow(v, vdf, summary, b)
  }

  /** The functional rows of one element: a single row for a small group, one per time bin
      otherwise. */
  function FunctionalRowsOf<E, S>(small: nat, v: E, vdf: seq<Segment<E>>, summary: seq<Segment<E>> -> Result<S>): Result<seq<FRow<E, S>>>
  {
    if |vdf| < small then
      match summary(vdf)
      case Err(e) => Err(e)
      case Ok(x) => Ok([FRow(v, AllTimes, x, |vdf|)])
    else
      Collect(Map(BinRowOf(v, vdf, summary), TimeBins))
  }

  /** The branch on the group's size and the loop over the time bins. */
  method FunctionalRows<E, S>(small: nat, v: E, vdf: seq<Segment<E>>, summary: seq<Segment<E>> -> Result<S>)
    returns (r: Result<seq<FRow<E, S>>>)
    ensures r == FunctionalRowsOf(small, v, vdf, summary)
  {
    if |vdf| < small {
      var x := summary(vdf);
      if x.Err? {
        return Err(x.error);
      }
      return Ok([FRow(v, AllTimes, x.value, |vdf|)]);
    }
    r := RowsOf(BinRowOf(v, vdf, summary), TimeBins);
  }

  /** A small group has one row in bin 3 holding the values and the number of all its
      segments; a larger one has four rows, in bin order -1, 1, 0, 2, each holding the
      values and the number of the segments of its bin (possibly none). Every row is the
      element's. */
  lemma FunctionalRowsShape<E, S>(small: nat, v: E, vdf: seq<Segment<E>>, summary: seq<Segment<E>> -> Result<S>)
    requires FunctionalRowsOf(small, v, vdf, summary).Ok?
    ensures var rows := FunctionalRowsOf(small, v, vdf, summary).value;
      && (forall i :: 0 <= i < |rows| ==> rows[i].element == v)
      && (|vdf| < small ==> |rows| == 1 && rows[0].timeBin == AllTimes && rows[0].count == |vdf| &&
                            summary(vdf) == Ok(rows[0].values))
      && (|vdf| >= small ==> |rows| == 4 && forall i :: 0 <= i < 4 ==>
            && rows[i].timeBin == TimeBins[i] && rows[i].count == |BinRowsOf(vdf, TimeBins[i])|
            && summary(BinRowsOf(vdf, TimeBins[i])) == Ok(rows[i].values))
  {
    if |vdf| >= small {
      var rs := Map(BinRowOf(v, vdf, summary), TimeBins);
      CollectOk(rs);
    }
  }

  /** A small group fails when its values do; a larger one when the values of one of its
      bins do. */
  lemma FunctionalRowsErrors<E, S>(small: nat, v: E, vdf: seq<Segment<E>>, summary: seq<Segment<E>> -> Result<S>)
    ensures FunctionalRowsOf(small, v, vdf, summary).Err? <==>
      if |vdf| < small then summary(vdf).Err?
      else exists i :: 0 <= i < |TimeBins| && summary(BinRowsOf(vdf, TimeBins[i])).Err?
  {
    if |vdf| >= small {
      var rs := Map(BinRowOf(v, vdf, summary), TimeBins);
      if exists i :: 0 <= i < |TimeBins| && summary(BinRowsOf(vdf, TimeBins[i])).Err? {
        var i :| 0 <= i < |TimeBins| && summary(BinRowsOf(vdf, TimeBins[i])).Err?;
        assert rs[i].Err?;
        if Collect(rs).Ok? {
          CollectOk(rs);
        }
      } else {
        assert forall i :: 0 <= i < |rs| ==> rs[i].Ok?;
        CollectAllOk(rs);
      }
    }
  }

  /** The segment counts of a list of functional rows, added up. */
  function Counts<E, S>(rows: seq<FRow<E, S>>): nat
  {
    if rows == [] then 0 else Counts(rows[..|rows| - 1]) + rows[|rows| - 1].count
  }

  /** Every segment lies in exactly one of the four bins when its bin is one of them. */
  lemma {:induction false} BinsPartition<E>(vdf: seq<Segment<E>>)
    requires forall i :: 0 <= i < |vdf| ==> -1 <= vdf[i].timeBin <= 2
    ensures |BinRowsOf(vdf, -1)| + |BinRowsOf(vdf, 1)| + |BinRowsOf(vdf, 0)| + |BinRowsOf(vdf, 2)| == |vdf|
  {
    if vdf != [] {
      BinsPartition(vdf[1..]);
    }
  }

  /** The counts of an element's functional rows add up to its number of segments, when
      every segment's bin is one of the four. */
  lemma FunctionalRowsCount<E, S>(small: nat, v: E, vdf: seq<Segment<E>>, summary: seq<Segment<E>> -> Result<S>)
    requires FunctionalRowsOf(small, v, vdf, summary).Ok?
    requires forall i :: 0 <= i < |vdf| ==> -1 <= vdf[i].timeBin <= 2
    ensures Counts(FunctionalRowsOf(small, v, vdf, summary).value) == |vdf|
  {
    var rows := FunctionalRowsOf(small, v, vdf, summary).value;
    FunctionalRowsShape(small, v, vdf, summary);
    if |vdf| >= small {
      BinsPartition(vdf);
      assert rows[..1][..0] == [];
      assert Counts(rows[..1]) == rows[0].count;
      assert rows[..2][..1] == rows[..1];
      assert Counts(rows[..2]) == rows[0].count + rows[1].count;
      assert rows[..3][..2] == rows[..2];
      assert Counts(rows[..3]) == rows[0].count + rows[1].count + rows[2].count;
      assert rows[..3] == rows[..|rows| - 1];
    } else {
      assert rows[..0] == [];
    }
  }

  // ---- the edges of a node ----

  /** A structural row of the edge table: the edge's text, its direction list, how one-way
      it is, and its number of segments. */
  datatype EdgeSRow = EdgeSRow(edge: string, directions: Option<seq<Option<string>>>,
                               oneWay: Option<real>, count: nat)

  function EdgeTextOf(r: EdgeSRow): string { r.edge }

  /** A direction list as stored in the edge table. */
  type Dirs = Option<seq<Option<string>>>

  /** `list(e_df[e_df[edge] == s][compass_dir])[0]`: the direction list of the first row of
      edge text `s`, or `IndexError` when there is none. */
  function FirstDirections(esrows: seq<EdgeSRow>, s: string): (r: Result<Dirs>)
    ensures r.Ok? <==> exists i :: 0 <= i < |esrows| && esrows[i].edge == s
    ensures r.Err? ==> r.error == IndexError
    ensures r.Ok? ==> exists i :: 0 <= i < |esrows| && esrows[i].edge == s && esrows[i].directions == r.value &&
                                  (forall j :: 0 <= j < i ==> esrows[j].edge != s)
  {
    if esrows == [] then Err(IndexError)
    else if esrows[0].edge == s then Ok(esrows[0].directions)
    else
      var r := FirstDirections(esrows[1..], s);
      assert forall i :: 1 <= i < |esrows| ==> esrows[i] == esrows[1..][i - 1];
      if r.Ok? then
        var i :| 0 <= i < |esrows[1..]| && esrows[1..][i].edge == s && esrows[1..][i].directions == r.value &&
                 (forall j :: 0 <= j < i ==> esrows[1..][j].edge != s);
        assert esrows[i + 1].edge == s && esrows[i + 1].directions == r.value;
        assert forall j :: 0 <= j < i + 1 ==> esrows[j].edge != s;
        r
      else r
  }

  /** `n == u_e[0] or n == u_e[1]`. */
  predicate Touches(n: int, e: EdgeKey) {
    n == e.u || n == e.v
  }

  /** What the loop of `get_edges_of_node` adds for one edge text: nothing for an edge
      away from `n`, the edge and its first direction list for one at `n`. */
  function NodeEdgeEntry(n: int, esrows: seq<EdgeSRow>, s: string): Result<seq<(EdgeKey, Dirs)>>
  {
    match LiteralEval(s)
    case Err(x) => Err(x)
    case Ok(e) =>
      if !Touches(n, e) then Ok([])
      else
        match FirstDirections(esrows, s)
        case Err(x) => Err(x)
        case Ok(d) => Ok([(e, d)])
  }

  function NodeEdgeEntryOf(n: int, esrows: seq<EdgeSRow>): string -> Result<seq<(EdgeKey, Dirs)>>
  {
    s => NodeEdgeEntry(n, esrows, s)
  }

  /** `np.unique(e_df[edge])`. */
  function EdgeTexts(esrows: seq<EdgeSRow>): seq<string>
  {
    SortedUnique(Map(EdgeTextOf, esrows), StringLess)
  }

  /** The edges of node `n` paired with their direction lists, in ascending order of text. */
  function NodeEdgesOf(n: int, esrows: seq<EdgeSRow>): Result<seq<(EdgeKey, Dirs)>>
  {
    match Collect(Map(NodeEdgeEntryOf(n, esrows), EdgeTexts(esrows)))
    case Err(x) => Err(x)
    case Ok(gs) => Ok(Flatten(gs))
  }

  /** `get_edges_of_node` (and `get_node_structural_metadata`, which only calls it). */
  method EdgesOfNode(n: int, esrows: seq<EdgeSRow>) returns (r: Result<(seq<EdgeKey>, seq<Dirs>)>)
    ensures NodeEdgesOf(n, esrows).Err? ==> r == Err(NodeEdgesOf(n, esrows).error)
    ensures NodeEdgesOf(n, esrows).Ok? ==> r == Ok(Unzip(NodeEdgesOf(n, esrows).value))
  {
    var keys := EdgeTexts(esrows);
    var entry := NodeEdgeEntryOf(n, esrows);
    var nodeEdges: seq<EdgeKey> := [];
    var edgeDirs: seq<Dirs> := [];
    ghost var gs: seq<seq<(EdgeKey, Dirs)>> := [];
    for i := 0 to |keys|
      invariant Collect(Map(entry, keys[..i])) == Ok(gs)
      invariant (nodeEdges, edgeDirs) == Unzip(Flatten(gs))
    {
      var s := keys[i];
      CollectMapStep(entry, keys, i, gs);
      var e := LiteralEval(s);
      if e.Err? {
        return Err(e.error);
      }
      if Touches(n, e.value) {
        var d := FirstDirections(esrows, s);
        if d.Err? {
          return Err(d.error);
        }
        assert entry(s) == Ok([(e.value, d.value)]);
        FlattenSnoc(gs, [(e.value, d.value)]);
        UnzipSnoc(Flatten(gs), e.value, d.value);
        nodeEdges := nodeEdges + [e.value];
        edgeDirs := edgeDirs + [d.value];
      } else {
        assert entry(s) == Ok([]);
        FlattenSnoc(gs, []);
        assert Flatten(gs) + [] == Flatten(gs);
      }
      gs := gs + [entry(s).value];
    }
    WholePrefix(keys);
    return Ok((nodeEdges, edgeDirs));
  }

  /** Every edge text of the table has a first row, so its entry fails only when the text
      does not read as an edge. */
  lemma NodeEdgeEntryErrors(n: int, esrows: seq<EdgeSRow>, s: string)
    requires s in Map(EdgeTextOf, esrows)
    ensures NodeEdgeEntry(n, esrows, s).Err? <==> LiteralEval(s).Err?
    ensures NodeEdgeEntry(n, esrows, s).Err? ==> NodeEdgeEntry(n, esrows, s).error == ValueError
    ensures NodeEdgeEntry(n, esrows, s).Ok? ==>
      NodeEdgeEntry(n, esrows, s).value ==
        if Touches(n, LiteralEval(s).value) then [(LiteralEval(s).value, FirstDirections(esrows, s).value)] else []
  {
    var col := Map(EdgeTextOf, esrows);
    var i :| 0 <= i < |col| && col[i] == s;
    assert esrows[i].edge == s;
  }

  /** `get_edges_of_node` fails exactly when some edge text of the table does not read as an
      edge. In the model's canonical-only reading of `literal_eval` that failure is
      `ValueError`; Python raises `SyntaxError` for unbalanced or empty text, and a literal
      that is not a tuple fails later with `TypeError` or `IndexError`. */
  lemma NodeEdgesErrors(n: int, esrows: seq<EdgeSRow>)
    ensures NodeEdgesOf(n, esrows).Err? <==> exists i :: 0 <= i < |esrows| && LiteralEval(esrows[i].edge).Err?
    ensures NodeEdgesOf(n, esrows).Err? ==> NodeEdgesOf(n, esrows).error == ValueError
  {
    var col := Map(EdgeTextOf, esrows);
    var entry := NodeEdgeEntryOf(n, esrows);
    forall i | 0 <= i < |col|
      ensures (entry(col[i]).Err? <==> LiteralEval(esrows[i].edge).Err?)
      ensures entry(col[i]).Err? ==> entry(col[i]).error == ValueError
    {
      NodeEdgeEntryErrors(n, esrows, col[i]);
    }
    CollectOverColumn(entry, EdgeTexts(esrows), col);
  }

  /** What one edge text adds is its edge, when that has `n` as an end, with the direction
      list of the edge's first row. */
  lemma NodeEdgeEntryPairs(n: int, esrows: seq<EdgeSRow>, s: string)
    requires s in Map(EdgeTextOf, esrows) && NodeEdgeEntry(n, esrows, s).Ok?
    ensures var x := NodeEdgeEntry(n, esrows, s).value;
      forall a :: 0 <= a < |x| ==>
        Touches(n, x[a].0) && FirstDirections(esrows, EdgeText.EdgeText(x[a].0)) == Ok(x[a].1)
  {
    var e := LiteralEval(s).value;
    LiteralEvalCanonical(s);
    assert EdgeText.EdgeText(e) == s;
    if Touches(n, e) {
      assert NodeEdgeEntry(n, esrows, s).value == [(e, FirstDirections(esrows, s).value)];
    } else {
      assert NodeEdgeEntry(n, esrows, s).value == [];
    }
  }

  /** Every edge `get_edges_of_node` lists has `n` as an end and comes with the direction
      list of its first row in the table. */
  lemma NodeEdgesSound(n: int, esrows: seq<EdgeSRow>)
    requires NodeEdgesOf(n, esrows).Ok?
    ensures var ps := NodeEdgesOf(n, esrows).value;
      forall a :: 0 <= a < |ps| ==>
        Touches(n, ps[a].0) && FirstDirections(esrows, EdgeText.EdgeText(ps[a].0)) == Ok(ps[a].1)
  {
    var keys := EdgeTexts(esrows);
    var entry := NodeEdgeEntryOf(n, esrows);
    var rs := Map(entry, keys);
    CollectOk(rs);
    var gs: seq<seq<(EdgeKey, Dirs)>> := Collect(rs).value;
    var ps := Flatten(gs);
    FlattenFrom(gs);
    forall a | 0 <= a < |ps|
      ensures Touches(n, ps[a].0) && FirstDirections(esrows, EdgeText.EdgeText(ps[a].0)) == Ok(ps[a].1)
    {
      var k :| 0 <= k < |gs| && ps[a] in gs[k];
      assert entry(keys[k]) == Ok(gs[k]);
      NodeEdgeEntryPairs(n, esrows, keys[k]);
      var j :| 0 <= j < |gs[k]| && gs[k][j] == ps[a];
    }
  }

  /** Every edge of the table with `n` as an end is listed, with the direction list of its
      first row. */
  lemma NodeEdgesComplete(n: int, esrows: seq<EdgeSRow>)
    requires NodeEdgesOf(n, esrows).Ok?
    ensures var ps := NodeEdgesOf(n, esrows).value;
      forall i :: 0 <= i < |esrows| && LiteralEval(esrows[i].edge).Ok? && Touches(n, LiteralEval(esrows[i].edge).value) ==>
        (LiteralEval(esrows[i].edge).value, FirstDirections(esrows, esrows[i].edge).value) in ps
  {
    var col := Map(EdgeTextOf, esrows);
    var keys := EdgeTexts(esrows);
    var entry := NodeEdgeEntryOf(n, esrows);
    var rs := Map(entry, keys);
    CollectOk(rs);
    var gs: seq<seq<(EdgeKey, Dirs)>> := Collect(rs).value;
    var ps := Flatten(gs);
    FlattenHas(gs);
    forall i | 0 <= i < |esrows| && LiteralEval(esrows[i].edge).Ok? && Touches(n, LiteralEval(esrows[i].edge).value)
      ensures (LiteralEval(esrows[i].edge).value, FirstDirections(esrows, esrows[i].edge).value) in ps
    {
      var s := col[i];
      assert s in keys;
      var k :| 0 <= k < |keys| && keys[k] == s;
      NodeEdgeEntryErrors(n, esrows, s);
      var p := (LiteralEval(s).value, FirstDirections(esrows, s).value);
      assert rs[k] == entry(s) == Ok([p]);
      assert gs[k][0] == p;
    }
  }

  /** No edge is listed twice. */
  lemma NodeEdgesDistinct(n: int, esrows: seq<EdgeSRow>)
    requires NodeEdgesOf(n, esrows).Ok?
    ensures var ps := NodeEdgesOf(n, esrows).value;
      forall a, b :: 0 <= a < b < |ps| ==> ps[a].0 != ps[b].0
  {
    var col := Map(EdgeTextOf, esrows);
    var keys := EdgeTexts(esrows);
    var rs := Map(NodeEdgeEntryOf(n, esrows), keys);
    CollectOk(rs);
    var gs: seq<seq<(EdgeKey, Dirs)>> := Collect(rs).value;
    StringLessIsStrictTotalOrder();
    SortedUniqueSorted(col, StringLess);
    forall k | 0 <= k < |gs|
      ensures |gs[k]| <= 1 && (|gs[k]| == 1 ==> EdgeText.EdgeText(gs[k][0].0) == keys[k])
    {
      NodeEdgeEntryErrors(n, esrows, keys[k]);
      if |gs[k]| == 1 {
        LiteralEvalCanonical(keys[k]);
      }
    }
    forall k, j | 0 <= k < j < |gs| && |gs[k]| == 1 && |gs[j]| == 1
      ensures gs[k][0].0 != gs[j][0].0
    {
      StrictlySortedDistinct(keys, StringLess, k, j);
    }
    FlattenDistinct(gs);
  }

  // ---- the edge and node tables ----

  /** `np.unique(df[col].dropna())`: the distinct elements present, ascending under `lt`. */
  function Elements<E(==)>(df: seq<Segment<E>>, lt: (E, E) -> bool): seq<E>
  {
    SortedUnique(DropMissing(Map(ElementOf, df)), lt)
  }

  /** The values of one edge's segments. */
  function EdgeSummary(margin: seq<real> -> NonNegReal): seq<Segment<string>> -> Result<Functional>
  {
    d => EdgeFunctional(d, margin)
  }

  /** The structural row and the functional rows of edge `v`. */
  function EdgeEntry(df: seq<Segment<string>>, margin: seq<real> -> NonNegReal, v: string)
    : (r: Result<(EdgeSRow, seq<FRow<string, Functional>>)>)
    ensures r.Ok? ==> EdgeStructuralOf(Rows(df, v)).Ok? && FunctionalRowsOf(SmallGroup, v, Rows(df, v), EdgeSummary(margin)) == Ok(r.value.1)
    ensures r.Ok? ==> var st := EdgeStructuralOf(Rows(df, v)).value;
      r.value.0 == EdgeSRow(v, st.directions, st.oneWay, |Rows(df, v)|)
  {
    var vdf := Rows(df, v);
    match EdgeStructuralOf(vdf)
    case Err(e) => Err(e)
    case Ok(st) =>
      match FunctionalRowsOf(SmallGroup, v, vdf, EdgeSummary(margin))
      case Err(e) => Err(e)
      case Ok(fr) => Ok((EdgeSRow(v, st.directions, st.oneWay, |vdf|), fr))
  }

  function EdgeEntryOf(df: seq<Segment<string>>, margin: seq<real> -> NonNegReal)
    : string -> Result<(EdgeSRow, seq<FRow<string, Functional>>)>
  {
    v => EdgeEntry(df, margin, v)
  }

  /** The structural and the functional edge tables. */
  function EdgeMetadataOf(df: seq<Segment<string>>, margin: seq<real> -> NonNegReal)
    : Result<(seq<EdgeSRow>, seq<FRow<string, Functional>>)>
  {
    Gather(EdgeEntryOf(df, margin), Elements(df, StringLess))
  }

  /** `get_edge_metadata_df`: for every distinct edge, one structural row and its functional
      rows, stopping at the first edge that fails. */
  method GetEdgeMetadataDf(df: seq<Segment<string>>, margin: seq<real> -> NonNegReal)
    returns (r: Result<(seq<EdgeSRow>, seq<FRow<string, Functional>>)>)
    ensures r == EdgeMetadataOf(df, margin)
  {
    var vals := Elements(df, StringLess);
    var entry := EdgeEntryOf(df, margin);
    var structuralRows: seq<EdgeSRow> := [];
    var functionalRows: seq<FRow<string, Functional>> := [];
    ghost var es: seq<(EdgeSRow, seq<FRow<string, Functional>>)> := [];
    for i := 0 to |vals|
      invariant Collect(Map(entry, vals[..i])) == Ok(es)
      invariant structuralRows == Firsts(es) && functionalRows == Joined(es)
    {
      var v := vals[i];
      GatherStep(entry, vals, i, es);
      var vdf := Rows(df, v);
      var st := EdgeStructural(vdf);
      if st.Err? {
        return Err(st.error);
      }
      var fr := FunctionalRows(SmallGroup, v, vdf, EdgeSummary(margin));
      if fr.Err? {
        return Err(fr.error);
      }
      var row := EdgeSRow(v, st.value.directions, st.value.oneWay, |vdf|);
      assert entry(v) == Ok((row, fr.value));
      structuralRows := structuralRows + [row];
      functionalRows := functionalRows + fr.value;
      es := es + [(row, fr.value)];
    }
    GatherEnd(entry, vals, es);
    return Ok((structuralRows, functionalRows));
  }

  /** The distinct elements are exactly those present, each once, in ascending order. */
  lemma ElementsSpec<E(!new)>(df: seq<Segment<E>>, lt: (E, E) -> bool)
    requires StrictTotalOrder(lt)
    ensures StrictlySorted(Elements(df, lt), lt)
    ensures forall v :: v in Elements(df, lt) <==> exists i :: 0 <= i < |df| && df[i].element == Some(v)
  {
    SortedUniqueSorted(DropMissing(Map(ElementOf, df)), lt);
    var col := Map(ElementOf, df);
    DropMissingMembers(col);
    forall v ensures Some(v) in col <==> exists i :: 0 <= i < |df| && df[i].element == Some(v) {
      if Some(v) in col {
        var i :| 0 <= i < |col| && col[i] == Some(v);
      }
      if exists i :: 0 <= i < |df| && df[i].element == Some(v) {
        var i :| 0 <= i < |df| && df[i].element == Some(v);
        assert col[i] == Some(v);
      }
    }
  }

  /** An element present in the table has at least one segment. */
  lemma RowsOfPresent<E>(df: seq<Segment<E>>, v: E)
    requires exists i :: 0 <= i < |df| && df[i].element == Some(v)
    ensures |Rows(df, v)| >= 1
  {
    var i :| 0 <= i < |df| && df[i].element == Some(v);
    assert df[i] in Rows(df, v);
  }

  /** The structural row of an edge present in the table. */
  lemma EdgeEntryRow(df: seq<Segment<string>>, margin: seq<real> -> NonNegReal, v: string)
    requires EdgeEntry(df, margin, v).Ok?
    requires exists i :: 0 <= i < |df| && df[i].element == Some(v)
    ensures var row := EdgeEntry(df, margin, v).value.0;
      && row.edge == v
      && row.count == |Rows(df, v)| >= 1
      && row.directions.Some? && UniqueLabels(Map(CompassOf, Rows(df, v))) == Ok(row.directions.value)
      && (row.oneWay.Some? <==> row.count >= 2)
  {
    RowsOfPresent(df, v);
  }

  /** The structural edge table has one row per distinct edge, in ascending order, holding its
      number of segments (at least one) and its direction list; the one-way value is there
      exactly when the edge has two segments or more. */
  lemma EdgeMetadataStructural(df: seq<Segment<string>>, margin: seq<real> -> NonNegReal)
    requires EdgeMetadataOf(df, margin).Ok?
    ensures var srows, vals := EdgeMetadataOf(df, margin).value.0, Elements(df, StringLess);
      && |srows| == |vals|
      && StrictlySorted(vals, StringLess)
      && (forall v :: v in vals <==> exists i :: 0 <= i < |df| && df[i].element == Some(v))
      && forall k :: 0 <= k < |srows| ==>
        && srows[k].edge == vals[k]
        && srows[k].count == |Rows(df, vals[k])| >= 1
        && srows[k].directions.Some? && UniqueLabels(Map(CompassOf, Rows(df, vals[k]))) == Ok(srows[k].directions.value)
        && (srows[k].oneWay.Some? <==> srows[k].count >= 2)
  {
    var vals := Elements(df, StringLess);
    var entry := EdgeEntryOf(df, margin);
    StringLessIsStrictTotalOrder();
    ElementsSpec(df, StringLess);
    GatherFirsts(entry, vals);
    var srows := Gather(entry, vals).value.0;
    forall k | 0 <= k < |srows|
      ensures && srows[k].edge == vals[k]
              && srows[k].count == |Rows(df, vals[k])| >= 1
              && srows[k].directions.Some? && UniqueLabels(Map(CompassOf, Rows(df, vals[k]))) == Ok(srows[k].directions.value)
              && (srows[k].oneWay.Some? <==> srows[k].count >= 2)
    {
      assert vals[k] in vals;
      EdgeEntryRow(df, margin, vals[k]);
    }
  }

  /** A functional row an edge's entry holds is one of that edge's own functional rows. */
  lemma EdgeEntryFunctional(df: seq<Segment<string>>, margin: seq<real> -> NonNegReal, v: string, x: FRow<string, Functional>)
    requires EdgeEntry(df, margin, v).Ok? && x in EdgeEntry(df, margin, v).value.1
    ensures x.element == v
    ensures FunctionalRowsOf(SmallGroup, v, Rows(df, v), EdgeSummary(margin)).Ok?
    ensures x in FunctionalRowsOf(SmallGroup, v, Rows(df, v), EdgeSummary(margin)).value
  {
    var rows := EdgeEntry(df, margin, v).value.1;
    FunctionalRowsShape(SmallGroup, v, Rows(df, v), EdgeSummary(margin));
    var i :| 0 <= i < |rows| && rows[i] == x;
  }

  /** Every distinct edge of a table that succeeds has its functional rows. */
  lemma EdgeMetadataFunctional(df: seq<Segment<string>>, margin: seq<real> -> NonNegReal)
    requires EdgeMetadataOf(df, margin).Ok?
    ensures var vals := Elements(df, StringLess);
      forall k :: 0 <= k < |vals| ==> FunctionalRowsOf(SmallGroup, vals[k], Rows(df, vals[k]), EdgeSummary(margin)).Ok?
  {
    GatherSeconds(EdgeEntryOf(df, margin), Elements(df, StringLess));
  }

  /** Every functional edge row belongs to one of the distinct edges and is one of that edge's
      own functional rows. */
  lemma EdgeMetadataFunctionalSound(df: seq<Segment<string>>, margin: seq<real> -> NonNegReal)
    requires EdgeMetadataOf(df, margin).Ok?
    ensures var frows := EdgeMetadataOf(df, margin).value.1;
      forall a :: 0 <= a < |frows| ==>
        var v := frows[a].element;
        && v in Elements(df, StringLess)
        && FunctionalRowsOf(SmallGroup, v, Rows(df, v), EdgeSummary(margin)).Ok?
        && frows[a] in FunctionalRowsOf(SmallGroup, v, Rows(df, v), EdgeSummary(margin)).value
  {
    var vals := Elements(df, StringLess);
    var entry := EdgeEntryOf(df, margin);
    var frows := Gather(entry, vals).value.1;
    assert frows == EdgeMetadataOf(df, margin).value.1;
    GatherSeconds(entry, vals);
    forall a | 0 <= a < |frows|
      ensures var v := frows[a].element;
        && v in vals
        && FunctionalRowsOf(SmallGroup, v, Rows(df, v), EdgeSummary(margin)).Ok?
        && frows[a] in FunctionalRowsOf(SmallGroup, v, Rows(df, v), EdgeSummary(margin)).value
    {
      var k :| 0 <= k < |vals| && entry(vals[k]).Ok? && frows[a] in entry(vals[k]).value.1;
      EdgeEntryFunctional(df, margin, vals[k], frows[a]);
    }
  }

  /** Every functional row of every distinct edge is in the functional edge table. */
  lemma EdgeMetadataFunctionalComplete(df: seq<Segment<string>>, margin: seq<real> -> NonNegReal)
    requires EdgeMetadataOf(df, margin).Ok?
    ensures var frows, vals := EdgeMetadataOf(df, margin).value.1, Elements(df, StringLess);
      forall k, x ::
        (0 <= k < |vals| && FunctionalRowsOf(SmallGroup, vals[k], Rows(df, vals[k]), EdgeSummary(margin)).Ok? &&
         x in FunctionalRowsOf(SmallGroup, vals[k], Rows(df, vals[k]), EdgeSummary(margin)).value) ==> x in frows
  {
    var vals := Elements(df, StringLess);
    var entry := EdgeEntryOf(df, margin);
    var frows := Gather(entry, vals).value.1;
    assert frows == EdgeMetadataOf(df, margin).value.1;
    GatherSeconds(entry, vals);
    forall k, x | 0 <= k < |vals| && FunctionalRowsOf(SmallGroup, vals[k], Rows(df, vals[k]), EdgeSummary(margin)).Ok? &&
                  x in FunctionalRowsOf(SmallGroup, vals[k], Rows(df, vals[k]), EdgeSummary(margin)).value
      ensures x in frows
    {
      assert entry(vals[k]).Ok?;
      assert x in entry(vals[k]).value.1;
    }
  }

  /** The edge tables are built exactly when every distinct edge's rows are, and otherwise the
      first edge that fails gives the error. */
  lemma EdgeMetadataOutcome(df: seq<Segment<string>>, margin: seq<real> -> NonNegReal)
    ensures var vals := Elements(df, StringLess);
      && (EdgeMetadataOf(df, margin).Ok? <==> forall k :: 0 <= k < |vals| ==> EdgeEntry(df, margin, vals[k]).Ok?)
      && (EdgeMetadataOf(df, margin).Err? ==>
            exists k :: 0 <= k < |vals| && EdgeEntry(df, margin, vals[k]).Err? &&
                        (forall i :: 0 <= i < k ==> EdgeEntry(df, margin, vals[i]).Ok?) &&
                        EdgeMetadataOf(df, margin) == Err(EdgeEntry(df, margin, vals[k]).error))
  {
    var vals := Elements(df, StringLess);
    EntriesOk(EdgeEntryOf(df, margin), vals);
    if EdgeMetadataOf(df, margin).Err? {
      var k := EdgeMetadataFirstErr(df, margin);
    }
  }

  /** Every distinct edge's rows are built exactly when each entry is. */
  lemma EntriesOk(entry: string -> Result<(EdgeSRow, seq<FRow<string, Functional>>)>, vals: seq<string>)
    ensures Gather(entry, vals).Ok? <==> forall k :: 0 <= k < |vals| ==> entry(vals[k]).Ok?
  {
    GatherOutcome(entry, vals);
  }

  /** The first distinct edge whose rows fail, when the edge tables fail. */
  lemma EdgeMetadataFirstErr(df: seq<Segment<string>>, margin: seq<real> -> NonNegReal) returns (k: int)
    requires EdgeMetadataOf(df, margin).Err?
    ensures var vals := Elements(df, StringLess);
      && 0 <= k < |vals| && EdgeEntry(df, margin, vals[k]).Err?
      && (forall i :: 0 <= i < k ==> EdgeEntry(df, margin, vals[i]).Ok?)
      && EdgeMetadataOf(df, margin) == Err(EdgeEntry(df, margin, vals[k]).error)
  {
    var vals := Elements(df, StringLess);
    var entry := EdgeEntryOf(df, margin);
    GatherOutcome(entry, vals);
    k :| 0 <= k < |vals| && entry(vals[k]).Err? && (forall i :: 0 <= i < k ==> entry(vals[i]).Ok?) &&
         Gather(entry, vals) == Err(entry(vals[k]).error);
    assert forall i :: 0 <= i < k ==> EdgeEntry(df, margin, vals[i]).Ok?;
  }

  // ---- the node tables ----

  /** A row of the structural node table: the node, the edges it is an end of, their number,
      their direction lists and the node's number of segments. */
  datatype NodeSRow = NodeSRow(node: int, edges: seq<EdgeKey>, edgesCount: nat, directions: seq<Dirs>, count: nat)

  function NodeSummary(margin: seq<real> -> NonNegReal): seq<Segment<int>> -> Result<(Functional, Flow)>
  {
    d => NodeFunctional(d, margin)
  }

  /** The structural row and the functional rows of one node: its edges first, then its
      functional rows. */
  function NodeEntry(df: seq<Segment<int>>, esrows: seq<EdgeSRow>, margin: seq<real> -> NonNegReal, v: int)
    : (r: Result<(NodeSRow, seq<FRow<int, (Functional, Flow)>>)>)
    ensures NodeEdgesOf(v, esrows).Err? ==> r == Err(NodeEdgesOf(v, esrows).error)
    ensures r.Ok? ==> NodeEdgesOf(v, esrows).Ok? && FunctionalRowsOf(SmallGroup, v, Rows(df, v), NodeSummary(margin)) == Ok(r.value.1)
    ensures r.Ok? ==> var ps := NodeEdgesOf(v, esrows).value;
      r.value.0 == NodeSRow(v, Unzip(ps).0, |ps|, Unzip(ps).1, |Rows(df, v)|)
  {
    var vdf := Rows(df, v);
    match NodeEdgesOf(v, esrows)
    case Err(e) => Err(e)
    case Ok(ps) =>
      match FunctionalRowsOf(SmallGroup, v, vdf, NodeSummary(margin))
      case Err(e) => Err(e)
      case Ok(fr) => Ok((NodeSRow(v, Unzip(ps).0, |ps|, Unzip(ps).1, |vdf|), fr))
  }

  function NodeEntryOf(df: seq<Segment<int>>, esrows: seq<EdgeSRow>, margin: seq<real> -> NonNegReal)
    : int -> Result<(NodeSRow, seq<FRow<int, (Functional, Flow)>>)>
  {
    v => NodeEntry(df, esrows, margin, v)
  }

  /** The structural and the functional node tables, given the structural edge table. */
  function NodeMetadataOf(df: seq<Segment<int>>, esrows: seq<EdgeSRow>, margin: seq<real> -> NonNegReal)
    : Result<(seq<NodeSRow>, seq<FRow<int, (Functional, Flow)>>)>
  {
    Gather(NodeEntryOf(df, esrows, margin), Elements(df, IntLess))
  }

  /** One pass of the loop over the nodes: the node's edges, then its functional rows. */
  method NodeRows(df: seq<Segment<int>>, esrows: seq<EdgeSRow>, margin: seq<real> -> NonNegReal, v: int)
    returns (r: Result<(NodeSRow, seq<FRow<int, (Functional, Flow)>>)>)
    ensures r == NodeEntry(df, esrows, margin, v)
  {
    var vdf := Rows(df, v);
    var edges := EdgesOfNode(v, esrows);
    if edges.Err? {
      return Err(edges.error);
    }
    var fr := FunctionalRows(SmallGroup, v, vdf, NodeSummary(margin));
    if fr.Err? {
      return Err(fr.error);
    }
    var (e, dirs) := edges.value;
    return Ok((NodeSRow(v, e, |e|, dirs, |vdf|), fr.value));
  }

  /** `get_node_metadata_df`: for every distinct node, one structural row listing its edges and
      its functional rows, stopping at the first node that fails. */
  method GetNodeMetadataDf(df: seq<Segment<int>>, esrows: seq<EdgeSRow>, margin: seq<real> -> NonNegReal)
    returns (r: Result<(seq<NodeSRow>, seq<FRow<int, (Functional, Flow)>>)>)
    ensures r == NodeMetadataOf(df, esrows, margin)
  {
    var vals := Elements(df, IntLess);
    var entry := NodeEntryOf(df, esrows, margin);
    var structuralRows: seq<NodeSRow> := [];
    var functionalRows: seq<FRow<int, (Functional, Flow)>> := [];
    ghost var es: seq<(NodeSRow, seq<FRow<int, (Functional, Flow)>>)> := [];
    for i := 0 to |vals|
      invariant Collect(Map(entry, vals[..i])) == Ok(es)
      invariant structuralRows == Firsts(es) && functionalRows == Joined(es)
    {
      var v := vals[i];
      GatherStep(entry, vals, i, es);
      var rows := NodeRows(df, esrows, margin, v);
      if rows.Err? {
        return Err(rows.error);
      }
      structuralRows := structuralRows + [rows.value.0];
      functionalRows := functionalRows + rows.value.1;
      es := es + [rows.value];
    }
    GatherEnd(entry, vals, es);
    return Ok((structuralRows, functionalRows));
  }

  /** The two lists `get_edges_of_node` returns: as long as each other, the edges with `n` as
      an end, each once, each with the direction list of its first row in the table. */
  lemma EdgesOfNodeLists(n: int, esrows: seq<EdgeSRow>)
    requires NodeEdgesOf(n, esrows).Ok?
    ensures var (edges, dirs) := Unzip(NodeEdgesOf(n, esrows).value);
      && |edges| == |dirs| == |NodeEdgesOf(n, esrows).value|
      && (forall a :: 0 <= a < |edges| ==>
            Touches(n, edges[a]) && FirstDirections(esrows, EdgeText.EdgeText(edges[a])) == Ok(dirs[a]))
      && (forall a, b :: 0 <= a < b < |edges| ==> edges[a] != edges[b])
  {
    NodeEdgesSound(n, esrows);
    NodeEdgesDistinct(n, esrows);
  }

  /** Every edge of the table with `n` as an end is in the first list. */
  lemma EdgesOfNodeListsComplete(n: int, esrows: seq<EdgeSRow>)
    requires NodeEdgesOf(n, esrows).Ok?
    ensures var edges := Unzip(NodeEdgesOf(n, esrows).value).0;
      forall i :: 0 <= i < |esrows| && LiteralEval(esrows[i].edge).Ok? && Touches(n, LiteralEval(esrows[i].edge).value) ==>
        LiteralEval(esrows[i].edge).value in edges
  {
    var ps := NodeEdgesOf(n, esrows).value;
    var edges := Unzip(ps).0;
    NodeEdgesComplete(n, esrows);
    forall i | 0 <= i < |esrows| && LiteralEval(esrows[i].edge).Ok? && Touches(n, LiteralEval(esrows[i].edge).value)
      ensures LiteralEval(esrows[i].edge).value in edges
    {
      var p := (LiteralEval(esrows[i].edge).value, FirstDirections(esrows, esrows[i].edge).value);
      var a :| 0 <= a < |ps| && ps[a] == p;
      assert edges[a] == p.0;
    }
  }

  /** The structural row of a node present in the table: its edges are those of the edge
      table that have it as an end, each once, with the direction list of its first row. */
  lemma NodeEntryRow(df: seq<Segment<int>>, esrows: seq<EdgeSRow>, margin: seq<real> -> NonNegReal, v: int)
    requires NodeEntry(df, esrows, margin, v).Ok?
    requires exists i :: 0 <= i < |df| && df[i].element == Some(v)
    ensures var row := NodeEntry(df, esrows, margin, v).value.0;
      && row.node == v
      && row.count == |Rows(df, v)| >= 1
      && row.edgesCount == |row.edges| == |row.directions|
      && (forall a :: 0 <= a < |row.edges| ==>
            Touches(v, row.edges[a]) && FirstDirections(esrows, EdgeText.EdgeText(row.edges[a])) == Ok(row.directions[a]))
      && (forall a, b :: 0 <= a < b < |row.edges| ==> row.edges[a] != row.edges[b])
      && (forall i :: 0 <= i < |esrows| && LiteralEval(esrows[i].edge).Ok? && Touches(v, LiteralEval(esrows[i].edge).value) ==>
            LiteralEval(esrows[i].edge).value in row.edges)
  {
    RowsOfPresent(df, v);
    EdgesOfNodeLists(v, esrows);
    EdgesOfNodeListsComplete(v, esrows);
  }

  /** The structural node table has one row per distinct node, in ascending order, holding
      the node's number of segments (at least one) and its edges with their direction lists. */
  lemma NodeMetadataStructural(df: seq<Segment<int>>, esrows: seq<EdgeSRow>, margin: seq<real> -> NonNegReal)
    requires NodeMetadataOf(df, esrows, margin).Ok?
    ensures var srows, vals := NodeMetadataOf(df, esrows, margin).value.0, Elements(df, IntLess);
      && |srows| == |vals|
      && StrictlySorted(vals, IntLess)
      && (forall v :: v in vals <==> exists i :: 0 <= i < |df| && df[i].element == Some(v))
      && forall k :: 0 <= k < |srows| ==>
        && srows[k].node == vals[k]
        && srows[k].count == |Rows(df, vals[k])| >= 1
        && srows[k].edgesCount == |srows[k].edges| == |srows[k].directions|
        && (forall a :: 0 <= a < |srows[k].edges| ==>
              Touches(vals[k], srows[k].edges[a]) &&
              FirstDirections(esrows, EdgeText.EdgeText(srows[k].edges[a])) == Ok(srows[k].directions[a]))
        && (forall i :: 0 <= i < |esrows| && LiteralEval(esrows[i].edge).Ok? && Touches(vals[k], LiteralEval(esrows[i].edge).value) ==>
              LiteralEval(esrows[i].edge).value in srows[k].edges)
  {
    var vals := Elements(df, IntLess);
    var entry := NodeEntryOf(df, esrows, margin);
    IntLessIsStrictTotalOrder();
    ElementsSpec(df, IntLess);
    GatherFirsts(entry, vals);
    var srows := Gather(entry, vals).value.0;
    forall k | 0 <= k < |srows|
      ensures && srows[k].node == vals[k]
              && srows[k].count == |Rows(df, vals[k])| >= 1
              && srows[k].edgesCount == |srows[k].edges| == |srows[k].directions|
              && (forall a :: 0 <= a < |srows[k].edges| ==>
                    Touches(vals[k], srows[k].edges[a]) &&
                    FirstDirections(esrows, EdgeText.EdgeText(srows[k].edges[a])) == Ok(srows[k].directions[a]))
              && (forall i :: 0 <= i < |esrows| && LiteralEval(esrows[i].edge).Ok? && Touches(vals[k], LiteralEval(esrows[i].edge).value) ==>
                    LiteralEval(esrows[i].edge).value in srows[k].edges)
    {
      assert vals[k] in vals;
      NodeEntryRow(df, esrows, margin, vals[k]);
    }
  }

  /** A functional row a node's entry holds is one of that node's own functional rows. */
  lemma NodeEntryFunctional(df: seq<Segment<int>>, esrows: seq<EdgeSRow>, margin: seq<real> -> NonNegReal, v: int,
                            x: FRow<int, (Functional, Flow)>)
    requires NodeEntry(df, esrows, margin, v).Ok? && x in NodeEntry(df, esrows, margin, v).value.1
    ensures x.element == v
    ensures FunctionalRowsOf(SmallGroup, v, Rows(df, v), NodeSummary(margin)).Ok?
    ensures x in FunctionalRowsOf(SmallGroup, v, Rows(df, v), NodeSummary(margin)).value
  {
    var rows := NodeEntry(df, esrows, margin, v).value.1;
    FunctionalRowsShape(SmallGroup, v, Rows(df, v), NodeSummary(margin));
    var i :| 0 <= i < |rows| && rows[i] == x;
  }

  /** Every functional node row belongs to one of the distinct nodes and is one of that node's
      own functional rows. */
  lemma NodeMetadataFunctionalSound(df: seq<Segment<int>>, esrows: seq<EdgeSRow>, margin: seq<real> -> NonNegReal)
    requires NodeMetadataOf(df, esrows, margin).Ok?
    ensures var frows := NodeMetadataOf(df, esrows, margin).value.1;
      forall a :: 0 <= a < |frows| ==>
        var v := frows[a].element;
        && v in Elements(df, IntLess)
        && FunctionalRowsOf(SmallGroup, v, Rows(df, v), NodeSummary(margin)).Ok?
        && frows[a] in FunctionalRowsOf(SmallGroup, v, Rows(df, v), NodeSummary(margin)).value
  {
    var vals := Elements(df, IntLess);
    var entry := NodeEntryOf(df, esrows, margin);
    var frows := Gather(entry, vals).value.1;
    assert frows == NodeMetadataOf(df, esrows, margin).value.1;
    GatherSeconds(entry, vals);
    forall a | 0 <= a < |frows|
      ensures var v := frows[a].element;
        && v in vals
        && FunctionalRowsOf(SmallGroup, v, Rows(df, v), NodeSummary(margin)).Ok?
        && frows[a] in FunctionalRowsOf(SmallGroup, v, Rows(df, v), NodeSummary(margin)).value
    {
      var k :| 0 <= k < |vals| && entry(vals[k]).Ok? && frows[a] in entry(vals[k]).value.1;
      NodeEntryFunctional(df, esrows, margin, vals[k], frows[a]);
    }
  }

  /** Every distinct node of a table that succeeds has its functional rows, and each of them
      is in the functional node table. */
  lemma NodeMetadataFunctionalComplete(df: seq<Segment<int>>, esrows: seq<EdgeSRow>, margin: seq<real> -> NonNegReal)
    requires NodeMetadataOf(df, esrows, margin).Ok?
    ensures var frows, vals := NodeMetadataOf(df, esrows, margin).value.1, Elements(df, IntLess);
      && (forall k :: 0 <= k < |vals| ==> FunctionalRowsOf(SmallGroup, vals[k], Rows(df, vals[k]), NodeSummary(margin)).Ok?)
      && forall k, x ::
        (0 <= k < |vals| && FunctionalRowsOf(SmallGroup, vals[k], Rows(df, vals[k]), NodeSummary(margin)).Ok? &&
         x in FunctionalRowsOf(SmallGroup, vals[k], Rows(df, vals[k]), NodeSummary(margin)).value) ==> x in frows
  {
    var vals := Elements(df, IntLess);
    var entry := NodeEntryOf(df, esrows, margin);
    var frows := Gather(entry, vals).value.1;
    assert frows == NodeMetadataOf(df, esrows, margin).value.1;
    GatherSeconds(entry, vals);
    forall k, x | 0 <= k < |vals| && FunctionalRowsOf(SmallGroup, vals[k], Rows(df, vals[k]), NodeSummary(margin)).Ok? &&
                  x in FunctionalRowsOf(SmallGroup, vals[k], Rows(df, vals[k]), NodeSummary(margin)).value
      ensures x in frows
    {
      assert entry(vals[k]).Ok?;
      assert x in entry(vals[k]).value.1;
    }
  }

  /** The node tables are built exactly when every distinct node's rows are, and otherwise the
      first node that fails gives the error. */
  lemma NodeMetadataOutcome(df: seq<Segment<int>>, esrows: seq<EdgeSRow>, margin: seq<real> -> NonNegReal)
    ensures var vals := Elements(df, IntLess);
      && (NodeMetadataOf(df, esrows, margin).Ok? <==> forall k :: 0 <= k < |vals| ==> NodeEntry(df, esrows, margin, vals[k]).Ok?)
      && (NodeMetadataOf(df, esrows, margin).Err? ==>
            exists k :: 0 <= k < |vals| && NodeEntry(df, esrows, margin, vals[k]).Err? &&
                        (forall i :: 0 <= i < k ==> NodeEntry(df, esrows, margin, vals[i]).Ok?) &&
                        NodeMetadataOf(df, esrows, margin) == Err(NodeEntry(df, esrows, margin, vals[k]).error))
  {
    var vals := Elements(df, IntLess);
    var entry := NodeEntryOf(df, esrows, margin);
    assert NodeMetadataOf(df, esrows, margin) == Gather(entry, vals);
    GatherOutcome(entry, vals);
    if NodeMetadataOf(df, esrows, margin).Ok? {
      forall k | 0 <= k < |vals| ensures NodeEntry(df, esrows, margin, vals[k]).Ok? {
        assert entry(vals[k]).Ok?;
      }
    } else {
      var k :| 0 <= k < |vals| && entry(vals[k]).Err? && (forall i :: 0 <= i < k ==> entry(vals[i]).Ok?) &&
               Gather(entry, vals) == Err(entry(vals[k]).error);
      assert NodeEntry(df, esrows, margin, vals[k]).Err?;
      assert forall i :: 0 <= i < k ==> NodeEntry(df, esrows, margin, vals[i]).Ok?;
    }
  }

  /** An edge text of the structural edge table that does not read as an edge fails the node
      tables, as soon as there is a node at all. The error is `ValueError` in the model's
      canonical-only reading of `literal_eval`; Python's own exception depends on the text. */
  lemma NodeMetadataBadEdgeText(df: seq<Segment<int>>, esrows: seq<EdgeSRow>, margin: seq<real> -> NonNegReal)
    requires exists i :: 0 <= i < |df| && df[i].element.Some?
    requires exists j :: 0 <= j < |esrows| && LiteralEval(esrows[j].edge).Err?
    ensures NodeMetadataOf(df, esrows, margin) == Err(ValueError)
  {
    var vals := Elements(df, IntLess);
    var i :| 0 <= i < |df| && df[i].element.Some?;
    IntLessIsStrictTotalOrder();
    ElementsSpec(df, IntLess);
    assert df[i].element.value in vals;
    NodeEdgesErrors(vals[0], esrows);
    GatherErr(NodeEntryOf(df, esrows, margin), vals, 0);
  }

  // ---- the four tables ----

  /** The four metadata tables: structural and functional, for edges and for nodes. */
  datatype MapMetadata = MapMetadata(
    edges: seq<EdgeSRow>, edgeRows: seq<FRow<string, Functional>>,
    nodes: seq<NodeSRow>, nodeRows: seq<FRow<int, (Functional, Flow)>>)

  /** The edge tables, then the node tables built against the structural edge table. */
  function MapMetadataOf(edf: seq<Segment<string>>, ndf: seq<Segment<int>>, margin: seq<real> -> NonNegReal)
    : Result<MapMetadata>
  {
    match EdgeMetadataOf(edf, margin)
    case Err(e) => Err(e)
    case Ok((es, ef)) =>
      match NodeMetadataOf(ndf, es, margin)
      case Err(e) => Err(e)
      case Ok((ns, nf)) => Ok(MapMetadata(es, ef, ns, nf))
  }

  /** `get_map_metadata`. */
  method GetMapMetadata(edf: seq<Segment<string>>, ndf: seq<Segment<int>>, margin: seq<real> -> NonNegReal)
    returns (r: Result<MapMetadata>)
    ensures r == MapMetadataOf(edf, ndf, margin)
  {
    var e := GetEdgeMetadataDf(edf, margin);
    if e.Err? {
      return Err(e.error);
    }
    var n := GetNodeMetadataDf(ndf, e.value.0, margin);
    if n.Err? {
      return Err(n.error);
    }
    return Ok(MapMetadata(e.value.0, e.value.1, n.value.0, n.value.1));
  }

  /** The four tables are built exactly when the edge tables are and the node tables built
      against the structural edge table are; they are then those tables. */
  lemma MapMetadataParts(edf: seq<Segment<string>>, ndf: seq<Segment<int>>, margin: seq<real> -> NonNegReal)
    ensures MapMetadataOf(edf, ndf, margin).Ok? <==>
      EdgeMetadataOf(edf, margin).Ok? && NodeMetadataOf(ndf, EdgeMetadataOf(edf, margin).value.0, margin).Ok?
    ensures MapMetadataOf(edf, ndf, margin).Ok? ==>
      var m := MapMetadataOf(edf, ndf, margin).value;
      && EdgeMetadataOf(edf, margin) == Ok((m.edges, m.edgeRows))
      && NodeMetadataOf(ndf, m.edges, margin) == Ok((m.nodes, m.nodeRows))
  {
  }
}
