/** The metadata query of the map-matching dashboard
    (`module-scripts/map-matching/map_matching_pn.py`, with an identical copy in
    `modules/metadata/3_draft_metadata_pn.py`): a drawn point or polygon becomes a
    latitude/longitude rectangle, and the metadata table is cut down to the rows inside it. */
module SpatialQuery {
  import opened Wrappers
  import opened Frames
  import opened Constants

  /** A GeoJSON position, longitude first. */
  datatype Coord = Coord(long: real, lat: real)

  /** An inclusive rectangle of latitudes and longitudes. */
  datatype QueryBox = QueryBox(minLat: real, maxLat: real, minLong: real, maxLong: real)

  /** A row of the metadata table; an empty coordinate cell is missing and compares false. */
  datatype MetaRow<P> = MetaRow(lat: Option<real>, long: Option<real>, payload: P)

  /** What the drawing control delivers: a point (whose first coordinate may have been read as
      an integer rather than a float) or the rings of a polygon. */
  datatype Geometry = Point(long: real, lat: real, longIsFloat: bool) | Polygon(rings: seq<seq<Coord>>)

  /** Python's two-argument `min` and `max`. */
  function Min2(a: real, b: real): real { if b < a then b else a }
  function Max2(a: real, b: real): real { if b > a then b else a }

  predicate Contains(b: QueryBox, lat: real, long: real) {
    b.minLat <= lat <= b.maxLat && b.minLong <= long <= b.maxLong
  }

  /** `get_metadata_from_point`: the point padded by `POINT_RANGE` on both axes. */
  function PointBox(c: Coord): (b: QueryBox)
    ensures b.minLat == c.lat - PointRange && b.maxLat == c.lat + PointRange
    ensures b.minLong == c.long - PointRange && b.maxLong == c.long + PointRange
    ensures b.minLat <= b.maxLat && b.minLong <= b.maxLong
    ensures Contains(b, c.lat, c.long)
  {
    QueryBox(Min2(c.lat - PointRange, c.lat + PointRange), Max2(c.lat - PointRange, c.lat + PointRange),
             Min2(c.long - PointRange, c.long + PointRange), Max2(c.long - PointRange, c.long + PointRange))
  }

  function Lats(cs: seq<Coord>): (r: seq<real>)
    ensures |r| == |cs| && forall i :: 0 <= i < |cs| ==> r[i] == cs[i].lat
  {
    seq(|cs|, i requires 0 <= i < |cs| => cs[i].lat)
  }

  function Longs(cs: seq<Coord>): (r: seq<real>)
    ensures |r| == |cs| && forall i :: 0 <= i < |cs| ==> r[i] == cs[i].long
  {
    seq(|cs|, i requires 0 <= i < |cs| => cs[i].long)
  }

  /** The key value of `min(..., key=...)`, which scans left to right and keeps the current
      least: one of the values, and no larger than any of them. */
  function Least(xs: seq<real>): (m: real)
    requires |xs| > 0
    ensures m in xs && forall i :: 0 <= i < |xs| ==> m <= xs[i]
  {
    if |xs| == 1 then xs[0]
    else
      var m := Least(xs[..|xs| - 1]);
      assert forall i :: 0 <= i < |xs| - 1 ==> xs[..|xs| - 1][i] == xs[i];
      if xs[|xs| - 1] < m then xs[|xs| - 1] else m
  }

  /** The key value of `max(..., key=...)`. */
  function Greatest(xs: seq<real>): (m: real)
    requires |xs| > 0
    ensures m in xs && forall i :: 0 <= i < |xs| ==> xs[i] <= m
  {
    if |xs| == 1 then xs[0]
    else
      var m := Greatest(xs[..|xs| - 1]);
      assert forall i :: 0 <= i < |xs| - 1 ==> xs[..|xs| - 1][i] == xs[i];
      if xs[|xs| - 1] > m then xs[|xs| - 1] else m
  }

  /** `get_metadata_from_b_box`: the smallest rectangle holding every corner; `min` of an empty
      list raises `ValueError`. */
  function CornerBox(cs: seq<Coord>): (r: Result<QueryBox>)
    ensures r.Err? <==> cs == []
    ensures r.Err? ==> r == Err(ValueError)
  {
    if cs == [] then Err(ValueError)
    else Ok(QueryBox(Least(Lats(cs)), Greatest(Lats(cs)), Least(Longs(cs)), Greatest(Longs(cs))))
  }

  /** Every corner lies in its box, and each of the four bounds is attained by some corner, so
      no smaller rectangle holds them all. */
  lemma CornerBoxTight(cs: seq<Coord>)
    requires cs != []
    ensures var b := CornerBox(cs).value;
      && b.minLat <= b.maxLat && b.minLong <= b.maxLong
      && (forall i :: 0 <= i < |cs| ==> Contains(b, cs[i].lat, cs[i].long))
      && (exists i :: 0 <= i < |cs| && cs[i].lat == b.minLat)
      && (exists i :: 0 <= i < |cs| && cs[i].lat == b.maxLat)
      && (exists i :: 0 <= i < |cs| && cs[i].long == b.minLong)
      && (exists i :: 0 <= i < |cs| && cs[i].long == b.maxLong)
  {
    var b := CornerBox(cs).value;
    assert Lats(cs)[0] == cs[0].lat && Longs(cs)[0] == cs[0].long;
    var i1 :| 0 <= i1 < |cs| && Lats(cs)[i1] == b.minLat;
    var i2 :| 0 <= i2 < |cs| && Lats(cs)[i2] == b.maxLat;
    var i3 :| 0 <= i3 < |cs| && Longs(cs)[i3] == b.minLong;
    var i4 :| 0 <= i4 < |cs| && Longs(cs)[i4] == b.maxLong;
  }

  /** The inclusive lat/long mask; a missing coordinate fails every comparison. */
  predicate InBox<P>(b: QueryBox, row: MetaRow<P>) {
    row.lat.Some? && row.long.Some? && Contains(b, row.lat.value, row.long.value)
  }

  function InBoxOf<P>(b: QueryBox): MetaRow<P> -> bool {
    row => InBox(b, row)
  }

  /** The boolean-mask slice of the metadata table. */
  function Slice<P>(table: seq<MetaRow<P>>, b: QueryBox): seq<MetaRow<P>> {
    Where(table, InBoxOf(b))
  }

  /** `s` is `t` with some rows dropped, the rest kept in order. */
  ghost predicate Subsequence<T>(s: seq<T>, t: seq<T>)
    decreases |t|
  {
    if s == [] then true
    else if t == [] then false
    else (s[0] == t[0] && Subsequence(s[1..], t[1..])) || Subsequence(s, t[1..])
  }

  lemma {:induction false} WhereSubsequence<T>(t: seq<T>, keep: T -> bool)
    ensures Subsequence(Where(t, keep), t)
    decreases |t|
  {
    if t != [] {
      var rest := Where(t[1..], keep);
      WhereSubsequence(t[1..], keep);
      if keep(t[0]) {
        assert Where(t, keep) == [t[0]] + rest;
        assert Where(t, keep)[1..] == rest;
      } else {
        assert Where(t, keep) == rest;
      }
    }
  }

  /** The slice holds exactly the rows that lie in the box, inclusive of its edges, keeping
      their order in the table. */
  lemma SliceSpec<P>(table: seq<MetaRow<P>>, b: QueryBox)
    ensures Subsequence(Slice(table, b), table)
    ensures forall row :: row in Slice(table, b) <==> row in table && InBox(b, row)
  {
    WhereSubsequence(table, InBoxOf(b));
    forall row | row in table && InBox(b, row) ensures row in Slice(table, b) {
      var i :| 0 <= i < |table| && table[i] == row;
      assert InBoxOf(b)(table[i]);
    }
  }

  /** The dispatch of `get_metadata`: a float first coordinate is a point; anything else is
      taken as a polygon whose first ring gives the corners. An integer where a ring was
      expected is not iterable (`TypeError`), and a polygon without rings has no first ring
      (`IndexError`). */
  function Query<P>(g: Geometry, table: seq<MetaRow<P>>): (r: Result<seq<MetaRow<P>>>)
    ensures g.Point? && g.longIsFloat ==> r == Ok(Slice(table, PointBox(Coord(g.long, g.lat))))
    ensures g.Point? && !g.longIsFloat ==> r == Err(TypeError)
    ensures g.Polygon? && g.rings == [] ==> r == Err(IndexError)
    ensures g.Polygon? && g.rings != [] && g.rings[0] == [] ==> r == Err(ValueError)
    ensures g.Polygon? && g.rings != [] && g.rings[0] != [] ==> r == Ok(Slice(table, CornerBox(g.rings[0]).value))
  {
    match g
    case Point(long, lat, isFloat) =>
      if isFloat then Ok(Slice(table, PointBox(Coord(long, lat)))) else Err(TypeError)
    case Polygon(rings) =>
      if rings == [] then Err(IndexError)
      else
        match CornerBox(rings[0])
        case Err(e) => Err(e)
        case Ok(b) => Ok(Slice(table, b))
  }

  /** A point query returns exactly the rows within `POINT_RANGE` of the point on both axes,
      and a row at the point itself is always among them. */
  lemma PointQueryRows<P>(long: real, lat: real, table: seq<MetaRow<P>>)
    ensures var r := Query(Point(long, lat, true), table);
      && r.Ok?
      && Subsequence(r.value, table)
      && (forall row :: row in r.value <==>
            row in table && row.lat.Some? && row.long.Some?
            && lat - PointRange <= row.lat.value <= lat + PointRange
            && long - PointRange <= row.long.value <= long + PointRange)
      && (forall row :: row in table && row.lat == Some(lat) && row.long == Some(long) ==> row in r.value)
  {
    SliceSpec(table, PointBox(Coord(long, lat)));
  }

  /** A polygon query returns every row whose coordinates lie between the corners' extremes,
      so in particular every row placed at a corner. */
  lemma PolygonQueryCorners<P>(rings: seq<seq<Coord>>, table: seq<MetaRow<P>>)
    requires rings != [] && rings[0] != []
    ensures var r := Query(Polygon(rings), table);
      && r.Ok?
      && Subsequence(r.value, table)
      && forall row, i ::
           row in table && 0 <= i < |rings[0]| && row.lat == Some(rings[0][i].lat) && row.long == Some(rings[0][i].long)
           ==> row in r.value
  {
    var b := CornerBox(rings[0]).value;
    SliceSpec(table, b);
    CornerBoxTight(rings[0]);
  }
}
