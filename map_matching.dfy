/** The post-processing of a map matching in `get_map_matching.py`: the nearest road edge and
    node of every trajectory point are dropped when they are too far away, and the edges that
    remain give the direction vector of each edge and the list of edges at each node. */
module MapMatching {
  import opened Wrappers
  import opened Numeric
  import opened Counters
  import opened EdgeText

  /** A point farther than this many metres from its nearest edge keeps no edge. */
  const EdgeDistanceLimit: real := 10.0

  /** A point farther than this many metres from its nearest node keeps no node. */
  const NodeDistanceLimit: real := 40.0

  /** `zip` stops at the end of the shorter list. */
  function Shorter(a: nat, b: nat): (n: nat)
    ensures n <= a && n <= b && (n == a || n == b)
  {
    if a <= b then a else b
  }

  /** `r` is what `exclude_edges_nodes((idx, dist), d)` returns: one entry per pair of the
      zip, `None` exactly where the distance is strictly above `d`, the index otherwise. */
  ghost predicate IsExcluded<T>(r: seq<Option<T>>, idx: seq<T>, dist: seq<real>, d: real) {
    && |r| == Shorter(|idx|, |dist|)
    && (forall i :: 0 <= i < |r| ==> (r[i].None? <==> dist[i] > d))
    && (forall i :: 0 <= i < |r| && r[i].Some? ==> r[i].value == idx[i])
  }

  method ExcludeEdgesNodes<T>(idx: seq<T>, dist: seq<real>, d: real) returns (r: seq<Option<T>>)
    ensures IsExcluded(r, idx, dist, d)
  {
    r := [];
    var i := 0;
    while i < Shorter(|idx|, |dist|)
      invariant 0 <= i <= Shorter(|idx|, |dist|)
      invariant |r| == i
      invariant forall j :: 0 <= j < i ==> (r[j].None? <==> dist[j] > d)
      invariant forall j :: 0 <= j < i && r[j].Some? ==> r[j].value == idx[j]
    {
      if dist[i] > d {
        r := r + [None];
      } else {
        r := r + [Some(idx[i])];
      }
      i := i + 1;
    }
  }

  /** The bounding box `get_graph_from_bb` asks the road graph for. */
  datatype Box = Box(north: real, south: real, east: real, west: real)

  /** `n, s = max(latitude), min(latitude)` and `e, w = max(longitude), min(longitude)`;
      `max` of an empty column raises `ValueError`. The box is the tightest one holding
      every latitude and every longitude. */
  function BoundingBox(latitude: seq<real>, longitude: seq<real>): (r: Result<Box>)
    ensures r.Ok? <==> |latitude| > 0 && |longitude| > 0
    ensures r.Err? ==> r.error == ValueError
    ensures r.Ok? ==> r.value.south <= r.value.north && r.value.west <= r.value.east
    ensures r.Ok? ==> forall i :: 0 <= i < |latitude| ==> r.value.south <= latitude[i] <= r.value.north
    ensures r.Ok? ==> forall i :: 0 <= i < |longitude| ==> r.value.west <= longitude[i] <= r.value.east
    ensures r.Ok? ==> r.value.north in latitude && r.value.south in latitude
    ensures r.Ok? ==> r.value.east in longitude && r.value.west in longitude
  {
    if |latitude| == 0 || |longitude| == 0 then Err(ValueError)
    else Ok(Box(MaxOf(latitude), MinOf(latitude), MaxOf(longitude), MinOf(longitude)))
  }

  /** The distinct values of a list, each once, in the order they are first seen: the keys
      of its `Counter`, which already records each value once at its first sighting. It
      stands for iterating over `set(xs)`, whose order Python leaves to hashing. */
  function Distinct<T(==)>(xs: seq<T>): (ds: seq<T>)
    ensures forall i :: 0 <= i < |xs| ==> xs[i] in ds
    ensures forall j :: 0 <= j < |ds| ==> ds[j] in xs
    ensures forall i, j :: 0 <= i < j < |ds| ==> ds[i] != ds[j]
  {
    CounterKeys(xs);
    var ds := KeysOf(Counter(xs));
    assert forall j :: 0 <= j < |ds| ==> ds[j] == Counter(xs)[j].0;
    ds
  }

  /** The position `(x, y) = (longitude, latitude)` of a node: from the graph when the graph
      has the node, from the geocoder otherwise. */
  function Location(graph: map<nat, Vec2>, geocode: nat -> Vec2, n: nat): Vec2 {
    if n in graph then graph[n] else geocode(n)
  }

  /** The vector of an edge leads from its first node to its second. */
  function EdgeVector(graph: map<nat, Vec2>, geocode: nat -> Vec2, e: EdgeKey): (v: Vec2)
    ensures Location(graph, geocode, e.u).x + v.x == Location(graph, geocode, e.v).x
    ensures Location(graph, geocode, e.u).y + v.y == Location(graph, geocode, e.v).y
  {
    var a, b := Location(graph, geocode, e.u), Location(graph, geocode, e.v);
    GetVector(a.x, a.y, b.x, b.y)
  }

  /** A node's list of edges, keyed by the filtered node (which may be `None`). */
  type NodeLists = map<Option<nat>, seq<EdgeKey>>

  /** `{value: [] for value in unique_n}`. */
  function EmptyLists(nodes: seq<Option<nat>>): (m: NodeLists)
    ensures forall k :: k in m <==> k in nodes
    ensures forall k :: k in m ==> m[k] == []
  {
    map k | k in nodes :: []
  }

  /** One edge added to the lists: to its first node's list when that node is a key, and
      then to its second node's list when that node is a key too. A missing key raises a
      `KeyError` that skips the appends still to come. */
  function AddEdge(m: NodeLists, e: EdgeKey): NodeLists {
    if Some(e.u) !in m then m
    else
      var m1 := m[Some(e.u) := m[Some(e.u)] + [e]];
      if Some(e.v) !in m1 then m1 else m1[Some(e.v) := m1[Some(e.v)] + [e]]
  }

  /** The lists after the edges `es`, one after the other. */
  function NodeEdges(m: NodeLists, es: seq<EdgeKey>): NodeLists {
    if es == [] then m else AddEdge(NodeEdges(m, es[..|es| - 1]), es[|es| - 1])
  }

  /** Starting from empty lists, the keys stay the same and an edge is in a node's list
      exactly when that node is its first node, or its second node while its first node is
      a key as well. */
  lemma {:induction false} NodeEdgesMembers(m: NodeLists, es: seq<EdgeKey>, k: Option<nat>, e: EdgeKey)
    requires forall n :: n in m ==> m[n] == []
    ensures NodeEdges(m, es).Keys == m.Keys
    ensures k in m ==>
      (e in NodeEdges(m, es)[k] <==> e in es && (Some(e.u) == k || (Some(e.v) == k && Some(e.u) in m)))
  {
    if es != [] {
      var init, last := es[..|es| - 1], es[|es| - 1];
      NodeEdgesMembers(m, init, k, e);
      assert es == init + [last];
      assert e in es <==> e in init || e == last;
    }
  }

  /** What `assign_edges_nodes` returns. */
  datatype Assignment = Assignment(
    newEdges: seq<Option<EdgeKey>>,
    newNodes: seq<Option<nat>>,
    edges: seq<EdgeKey>,
    vectors: seq<Vec2>,
    uniqueNodes: seq<Option<nat>>,
    nodeEdges: NodeLists)

  /** The loop of `assign_edges_nodes` over the distinct edges `uniqueE`: it fails with
      `TypeError` at a `None`, and otherwise appends each edge, its vector and its node list
      entries in turn. */
  method EdgeLoop(uniqueE: seq<Option<EdgeKey>>, lists0: NodeLists, graph: map<nat, Vec2>, geocode: nat -> Vec2)
    returns (r: Result<(seq<EdgeKey>, seq<Vec2>, NodeLists)>)
    ensures r.Err? <==> None in uniqueE
    ensures r.Err? ==> r.error == TypeError
    ensures r.Ok? ==> |r.value.0| == |uniqueE| && |r.value.1| == |uniqueE|
    ensures r.Ok? ==> forall j :: 0 <= j < |uniqueE| ==> uniqueE[j] == Some(r.value.0[j])
    ensures r.Ok? ==> forall j :: 0 <= j < |uniqueE| ==> r.value.1[j] == EdgeVector(graph, geocode, r.value.0[j])
    ensures r.Ok? ==> r.value.2 == NodeEdges(lists0, r.value.0)
  {
    var edges: seq<EdgeKey> := [];
    var vectors: seq<Vec2> := [];
    var lists := lists0;
    var i := 0;
    while i < |uniqueE|
      invariant 0 <= i <= |uniqueE|
      invariant |edges| == i && |vectors| == i
      invariant None !in uniqueE[..i]
      invariant forall j :: 0 <= j < i ==> uniqueE[j] == Some(edges[j])
      invariant forall j :: 0 <= j < i ==> vectors[j] == EdgeVector(graph, geocode, edges[j])
      invariant lists == NodeEdges(lists0, edges)
    {
      if uniqueE[i].None? {
        r := Err(TypeError);
        return;
      }
      var e := uniqueE[i].value;
      var u, v := e.u, e.v;
      var locU, locV := Location(graph, geocode, u), Location(graph, geocode, v);
      var vector := GetVector(locU.x, locU.y, locV.x, locV.y);
      assert (edges + [e])[..i] == edges;
      assert uniqueE[..i + 1] == uniqueE[..i] + [uniqueE[i]];
      edges := edges + [e];
      vectors := vectors + [vector];
      if Some(u) in lists {
        lists := lists[Some(u) := lists[Some(u)] + [e]];
        if Some(v) in lists {
          lists := lists[Some(v) := lists[Some(v)] + [e]];
        }
      }
      i := i + 1;
    }
    assert uniqueE[..i] == uniqueE;
    r := Ok((edges, vectors, lists));
  }

  /** The values of the distinct entries of a list with no `None` are the list's values, each
      once. */
  lemma DistinctValues<T>(xs: seq<Option<T>>, vs: seq<T>)
    requires |vs| == |Distinct(xs)|
    requires forall j :: 0 <= j < |vs| ==> Distinct(xs)[j] == Some(vs[j])
    ensures forall k :: 0 <= k < |xs| ==> xs[k].Some? && xs[k].value in vs
    ensures forall j :: 0 <= j < |vs| ==> Some(vs[j]) in xs
    ensures forall i, j :: 0 <= i < j < |vs| ==> vs[i] != vs[j]
  {
    var ds := Distinct(xs);
    forall k | 0 <= k < |xs| ensures xs[k].Some? && xs[k].value in vs {
      var j :| 0 <= j < |ds| && ds[j] == xs[k];
      assert ds[j] == Some(vs[j]);
    }
    forall j | 0 <= j < |vs| ensures Some(vs[j]) in xs {
      assert ds[j] == Some(vs[j]);
    }
    forall i, j | 0 <= i < j < |vs| ensures vs[i] != vs[j] {
      assert ds[i] == Some(vs[i]) && ds[j] == Some(vs[j]);
    }
  }

  /** `assign_edges_nodes` from the nearest edges and nodes (with their distances) the graph
      gives. It fails with `TypeError` exactly when some point keeps no edge, since the loop
      over the distinct edges indexes a `None`. Otherwise every distinct edge comes once, with
      its vector, and the node lists hold the edges as `AddEdge` puts them there. */
  method AssignEdgesNodes(edgeIdx: seq<EdgeKey>, edgeDist: seq<real>, nodeIdx: seq<nat>, nodeDist: seq<real>,
                          graph: map<nat, Vec2>, geocode: nat -> Vec2)
    returns (r: Result<Assignment>)
    ensures r.Ok? <==> forall i :: 0 <= i < Shorter(|edgeIdx|, |edgeDist|) ==> edgeDist[i] <= EdgeDistanceLimit
    ensures r.Err? ==> r.error == TypeError
    ensures r.Ok? ==> IsExcluded(r.value.newEdges, edgeIdx, edgeDist, EdgeDistanceLimit)
    ensures r.Ok? ==> IsExcluded(r.value.newNodes, nodeIdx, nodeDist, NodeDistanceLimit)
    ensures r.Ok? ==> r.value.uniqueNodes == Distinct(r.value.newNodes)
    ensures r.Ok? ==> forall j :: 0 <= j < |r.value.edges| ==> Some(r.value.edges[j]) in r.value.newEdges
    ensures r.Ok? ==> forall i :: 0 <= i < |r.value.newEdges| ==>
      r.value.newEdges[i].Some? && r.value.newEdges[i].value in r.value.edges
    ensures r.Ok? ==> forall i, j :: 0 <= i < j < |r.value.edges| ==> r.value.edges[i] != r.value.edges[j]
    ensures r.Ok? ==> |r.value.vectors| == |r.value.edges|
    ensures r.Ok? ==> forall j :: 0 <= j < |r.value.edges| ==>
      r.value.vectors[j] == EdgeVector(graph, geocode, r.value.edges[j])
    ensures r.Ok? ==> r.value.nodeEdges == NodeEdges(EmptyLists(r.value.uniqueNodes), r.value.edges)
  {
    var newEdges := ExcludeEdgesNodes(edgeIdx, edgeDist, EdgeDistanceLimit);
    var newNodes := ExcludeEdgesNodes(nodeIdx, nodeDist, NodeDistanceLimit);
    var uniqueE := Distinct(newEdges);
    var uniqueN := Distinct(newNodes);
    var loop := EdgeLoop(uniqueE, EmptyLists(uniqueN), graph, geocode);
    if loop.Err? {
      ghost var p :| 0 <= p < |newEdges| && newEdges[p] == None;
      assert edgeDist[p] > EdgeDistanceLimit;
      r := Err(loop.error);
      return;
    }
    var (edges, vectors, lists) := loop.value;
    DistinctValues(newEdges, edges);
    r := Ok(Assignment(newEdges, newNodes, edges, vectors, uniqueN, lists));
  }
}
