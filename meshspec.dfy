/** Specification functions for the operations of the mesh classes
    (triangular_grid/grid.py, _grid/grid.py and grid/grid.py), and the
    properties proved about them. The methods of `Meshes.Mesh` are proved
    against these functions. */
module MeshSpec {
  import opened Util
  import opened Geom
  import opened Records

  // ---------------------------------------------------------------------
  // Arena invariants

  /** Every link stored in a record names an existing record. */
  ghost predicate Indexed(ns: seq<NodeRec>, es: seq<EdgeRec>, fs: seq<FaceRec>) {
    (forall v, k :: 0 <= v < |ns| && 0 <= k < |ns[v].faces| ==> ns[v].faces[k] < |fs|) &&
    (forall v, k :: 0 <= v < |ns| && 0 <= k < |ns[v].edges| ==> ns[v].edges[k] < |es|) &&
    (forall e, k :: 0 <= e < |es| && 0 <= k < |es[e].nodes| ==> es[e].nodes[k] < |ns|) &&
    (forall e, k :: 0 <= e < |es| && 0 <= k < |es[e].faces| ==> es[e].faces[k] < |fs|) &&
    (forall f, k :: 0 <= f < |fs| && 0 <= k < |fs[f].nodes| ==> fs[f].nodes[k] < |ns|) &&
    (forall f, k :: 0 <= f < |fs| && 0 <= k < |fs[f].edges| ==> fs[f].edges[k] < |es|)
  }

  /** Node-edge links are recorded on both sides, as link_node_and_edge
      records them. */
  ghost predicate NodeEdgeLinked(ns: seq<NodeRec>, es: seq<EdgeRec>)
    requires forall v, k :: 0 <= v < |ns| && 0 <= k < |ns[v].edges| ==> ns[v].edges[k] < |es|
    requires forall e, k :: 0 <= e < |es| && 0 <= k < |es[e].nodes| ==> es[e].nodes[k] < |ns|
  {
    (forall v, k :: 0 <= v < |ns| && 0 <= k < |ns[v].edges| ==> v in es[ns[v].edges[k]].nodes) &&
    (forall e, k :: 0 <= e < |es| && 0 <= k < |es[e].nodes| ==> e in ns[es[e].nodes[k]].edges)
  }

  /** Face-node links are recorded on both sides, as link_face_and_node
      records them. */
  ghost predicate FaceNodeLinked(ns: seq<NodeRec>, fs: seq<FaceRec>)
    requires forall v, k :: 0 <= v < |ns| && 0 <= k < |ns[v].faces| ==> ns[v].faces[k] < |fs|
    requires forall f, k :: 0 <= f < |fs| && 0 <= k < |fs[f].nodes| ==> fs[f].nodes[k] < |ns|
  {
    (forall v, k :: 0 <= v < |ns| && 0 <= k < |ns[v].faces| ==> v in fs[ns[v].faces[k]].nodes) &&
    (forall f, k :: 0 <= f < |fs| && 0 <= k < |fs[f].nodes| ==> f in ns[fs[f].nodes[k]].faces)
  }

  /** Face-edge links are recorded on both sides, as link_face_and_edge
      records them. */
  ghost predicate FaceEdgeLinked(es: seq<EdgeRec>, fs: seq<FaceRec>)
    requires forall e, k :: 0 <= e < |es| && 0 <= k < |es[e].faces| ==> es[e].faces[k] < |fs|
    requires forall f, k :: 0 <= f < |fs| && 0 <= k < |fs[f].edges| ==> fs[f].edges[k] < |es|
  {
    (forall e, k :: 0 <= e < |es| && 0 <= k < |es[e].faces| ==> e in fs[es[e].faces[k]].edges) &&
    (forall f, k :: 0 <= f < |fs| && 0 <= k < |fs[f].edges| ==> f in es[fs[f].edges[k]].faces)
  }

  /** All links in range and recorded on both sides. */
  ghost predicate LinkedMesh(ns: seq<NodeRec>, es: seq<EdgeRec>, fs: seq<FaceRec>) {
    Indexed(ns, es, fs) && NodeEdgeLinked(ns, es) && FaceNodeLinked(ns, fs) && FaceEdgeLinked(es, fs)
  }

  /** Replacing a node by one with the same link lists keeps the links. */
  lemma UpdateNodeKeepsLinked(ns: seq<NodeRec>, es: seq<EdgeRec>, fs: seq<FaceRec>, i: nat, n: NodeRec)
    requires LinkedMesh(ns, es, fs) && i < |ns|
    requires n.faces == ns[i].faces && n.edges == ns[i].edges
    ensures LinkedMesh(ns[i := n], es, fs)
  {
    var ns2 := ns[i := n];
    assert forall v :: 0 <= v < |ns| ==> ns2[v].faces == ns[v].faces && ns2[v].edges == ns[v].edges;
  }

  /** Replacing a face by one with the same link lists keeps the links. */
  lemma UpdateFaceKeepsLinked(ns: seq<NodeRec>, es: seq<EdgeRec>, fs: seq<FaceRec>, i: nat, f: FaceRec)
    requires LinkedMesh(ns, es, fs) && i < |fs|
    requires f.nodes == fs[i].nodes && f.edges == fs[i].edges
    ensures LinkedMesh(ns, es, fs[i := f])
  {
    var fs2 := fs[i := f];
    assert forall g :: 0 <= g < |fs| ==> fs2[g].nodes == fs[g].nodes && fs2[g].edges == fs[g].edges;
  }

  /** Replacing an edge by one with the same link lists keeps the links. */
  lemma UpdateEdgeKeepsLinked(ns: seq<NodeRec>, es: seq<EdgeRec>, fs: seq<FaceRec>, i: nat, e: EdgeRec)
    requires LinkedMesh(ns, es, fs) && i < |es|
    requires e.nodes == es[i].nodes && e.faces == es[i].faces
    ensures LinkedMesh(ns, es[i := e], fs)
  {
    var es2 := es[i := e];
    assert forall g :: 0 <= g < |es| ==> es2[g].nodes == es[g].nodes && es2[g].faces == es[g].faces;
  }

  /** Appending an unlinked node keeps the links. */
  lemma AppendNodeKeepsLinked(ns: seq<NodeRec>, es: seq<EdgeRec>, fs: seq<FaceRec>, n: NodeRec)
    requires LinkedMesh(ns, es, fs) && n.faces == [] && n.edges == []
    ensures LinkedMesh(ns + [n], es, fs)
  {
    var ns2 := ns + [n];
    assert forall v :: 0 <= v < |ns| ==> ns2[v] == ns[v];
  }

  /** Appending an unlinked face keeps the links. */
  lemma AppendFaceKeepsLinked(ns: seq<NodeRec>, es: seq<EdgeRec>, fs: seq<FaceRec>, f: FaceRec)
    requires LinkedMesh(ns, es, fs) && f.nodes == [] && f.edges == []
    ensures LinkedMesh(ns, es, fs + [f])
  {
    var fs2 := fs + [f];
    assert forall g :: 0 <= g < |fs| ==> fs2[g] == fs[g];
  }

  /** Appending an unlinked edge keeps the links. */
  lemma AppendEdgeKeepsLinked(ns: seq<NodeRec>, es: seq<EdgeRec>, fs: seq<FaceRec>, e: EdgeRec)
    requires LinkedMesh(ns, es, fs) && e.nodes == [] && e.faces == []
    ensures LinkedMesh(ns, es + [e], fs)
  {
    var es2 := es + [e];
    assert forall g :: 0 <= g < |es| ==> es2[g] == es[g];
  }

  /** Linking a face and a node on both sides keeps the links. */
  lemma LinkFaceNodeKeepsLinked(ns: seq<NodeRec>, es: seq<EdgeRec>, fs: seq<FaceRec>, f: nat, n: nat)
    requires LinkedMesh(ns, es, fs) && f < |fs| && n < |ns|
    ensures LinkedMesh(ns[n := ns[n].(faces := ns[n].faces + [f])], es,
                       fs[f := fs[f].(nodes := fs[f].nodes + [n])])
  {
    var ns2 := ns[n := ns[n].(faces := ns[n].faces + [f])];
    var fs2 := fs[f := fs[f].(nodes := fs[f].nodes + [n])];
    assert forall v :: 0 <= v < |ns| ==> ns2[v].edges == ns[v].edges;
    assert forall g :: 0 <= g < |fs| ==> fs2[g].edges == fs[g].edges;
    forall v, k | 0 <= v < |ns2| && 0 <= k < |ns2[v].faces|
      ensures v in fs2[ns2[v].faces[k]].nodes
    {
      if v == n && k == |ns[n].faces| {
      } else {
        assert ns2[v].faces[k] == ns[v].faces[k];
        assert v in fs[ns[v].faces[k]].nodes;
      }
    }
    forall g, k | 0 <= g < |fs2| && 0 <= k < |fs2[g].nodes|
      ensures g in ns2[fs2[g].nodes[k]].faces
    {
      if g == f && k == |fs[f].nodes| {
      } else {
        assert fs2[g].nodes[k] == fs[g].nodes[k];
        assert g in ns[fs[g].nodes[k]].faces;
      }
    }
  }

  /** Linking a node and an edge on both sides keeps the links. */
  lemma LinkNodeEdgeKeepsLinked(ns: seq<NodeRec>, es: seq<EdgeRec>, fs: seq<FaceRec>, n: nat, e: nat)
    requires LinkedMesh(ns, es, fs) && n < |ns| && e < |es|
    ensures LinkedMesh(ns[n := ns[n].(edges := ns[n].edges + [e])],
                       es[e := es[e].(nodes := es[e].nodes + [n])], fs)
  {
    var ns2 := ns[n := ns[n].(edges := ns[n].edges + [e])];
    var es2 := es[e := es[e].(nodes := es[e].nodes + [n])];
    assert forall v :: 0 <= v < |ns| ==> ns2[v].faces == ns[v].faces;
    assert forall g :: 0 <= g < |es| ==> es2[g].faces == es[g].faces;
    forall v, k | 0 <= v < |ns2| && 0 <= k < |ns2[v].edges|
      ensures v in es2[ns2[v].edges[k]].nodes
    {
      if v == n && k == |ns[n].edges| {
      } else {
        assert ns2[v].edges[k] == ns[v].edges[k];
        assert v in es[ns[v].edges[k]].nodes;
      }
    }
    forall g, k | 0 <= g < |es2| && 0 <= k < |es2[g].nodes|
      ensures g in ns2[es2[g].nodes[k]].edges
    {
      if g == e && k == |es[e].nodes| {
      } else {
        assert es2[g].nodes[k] == es[g].nodes[k];
        assert g in ns[es[g].nodes[k]].edges;
      }
    }
  }

  /** `x` appended to `s` unless it is already there (the `if e not in
      f.edges` guard of link_face_and_edge). */
  function AddNew(s: seq<nat>, x: nat): (r: seq<nat>)
    ensures x in r && forall y :: y in r <==> y in s || y == x
    ensures x in s ==> r == s
    ensures x !in s ==> r == s + [x]
  {
    if x in s then s else s + [x]
  }

  /** Linking a face and an edge on both sides keeps the links, whether
      the new lists skip entries already present or not: all that matters
      is which entries they hold. */
  lemma LinkFaceEdgeKeepsLinked(ns: seq<NodeRec>, es: seq<EdgeRec>, fs: seq<FaceRec>, f: nat, e: nat,
                                fe: seq<nat>, ef: seq<nat>)
    requires LinkedMesh(ns, es, fs) && f < |fs| && e < |es|
    requires forall y :: y in fe <==> y in fs[f].edges || y == e
    requires forall y :: y in ef <==> y in es[e].faces || y == f
    ensures LinkedMesh(ns, es[e := es[e].(faces := ef)], fs[f := fs[f].(edges := fe)])
  {
    var es2 := es[e := es[e].(faces := ef)];
    var fs2 := fs[f := fs[f].(edges := fe)];
    LinkFaceEdgeIndexed(ns, es, fs, f, e, fe, ef);
    forall g, k | 0 <= g < |es2| && 0 <= k < |es2[g].faces|
      ensures g in fs2[es2[g].faces[k]].edges
    {
      var h := es2[g].faces[k];
      if g != e {
        assert h == es[g].faces[k];
        assert g in fs[h].edges;
      } else if h != f {
        assert h in ef;
        var j :| 0 <= j < |es[e].faces| && es[e].faces[j] == h;
        assert g in fs[h].edges;
      }
    }
    forall g, k | 0 <= g < |fs2| && 0 <= k < |fs2[g].edges|
      ensures g in es2[fs2[g].edges[k]].faces
    {
      var h := fs2[g].edges[k];
      if g != f {
        assert h == fs[g].edges[k];
        assert g in es[h].faces;
      } else if h != e {
        assert h in fe;
        var j :| 0 <= j < |fs[f].edges| && fs[f].edges[j] == h;
        assert g in es[h].faces;
      }
    }
  }

  /** The range and node-side half of LinkFaceEdgeKeepsLinked. */
  lemma LinkFaceEdgeIndexed(ns: seq<NodeRec>, es: seq<EdgeRec>, fs: seq<FaceRec>, f: nat, e: nat,
                            fe: seq<nat>, ef: seq<nat>)
    requires LinkedMesh(ns, es, fs) && f < |fs| && e < |es|
    requires forall y :: y in fe <==> y in fs[f].edges || y == e
    requires forall y :: y in ef <==> y in es[e].faces || y == f
    ensures var es2, fs2 := es[e := es[e].(faces := ef)], fs[f := fs[f].(edges := fe)];
      Indexed(ns, es2, fs2) && NodeEdgeLinked(ns, es2) && FaceNodeLinked(ns, fs2)
  {
    var es2 := es[e := es[e].(faces := ef)];
    var fs2 := fs[f := fs[f].(edges := fe)];
    assert forall g :: 0 <= g < |es| ==> es2[g].nodes == es[g].nodes;
    assert forall g :: 0 <= g < |fs| ==> fs2[g].nodes == fs[g].nodes;
    forall k | 0 <= k < |fe| ensures fe[k] < |es| {
      if fe[k] != e {
        assert fe[k] in fe && fe[k] in fs[f].edges;
        var j :| 0 <= j < |fs[f].edges| && fs[f].edges[j] == fe[k];
      }
    }
    forall k | 0 <= k < |ef| ensures ef[k] < |fs| {
      if ef[k] != f {
        assert ef[k] in ef && ef[k] in es[e].faces;
        var j :| 0 <= j < |es[e].faces| && es[e].faces[j] == ef[k];
      }
    }
  }

  // ---------------------------------------------------------------------
  // is_edge_present

  /** The first edge in `list` whose nodes contain `n2` (triangular_grid/ and
      _grid/), or None. */
  function FirstEdgeWith(es: seq<EdgeRec>, list: seq<nat>, n2: nat): (r: Option<nat>)
    requires forall k :: 0 <= k < |list| ==> list[k] < |es|
    decreases |list|
  {
    if list == [] then None
    else if n2 in es[list[0]].nodes then Some(list[0])
    else FirstEdgeWith(es, list[1..], n2)
  }

  /** The lookup finds an edge exactly when one of the listed edges holds
      `n2`, and what it finds is the first such edge. */
  lemma {:induction false} FirstEdgeWithCorrect(es: seq<EdgeRec>, list: seq<nat>, n2: nat)
    requires forall k :: 0 <= k < |list| ==> list[k] < |es|
    ensures FirstEdgeWith(es, list, n2).None? <==> forall k :: 0 <= k < |list| ==> n2 !in es[list[k]].nodes
    ensures FirstEdgeWith(es, list, n2).Some? ==>
      exists k :: (0 <= k < |list| && list[k] == FirstEdgeWith(es, list, n2).value &&
        n2 in es[list[k]].nodes && forall j :: 0 <= j < k ==> n2 !in es[list[j]].nodes)
    decreases |list|
  {
    if list != [] && n2 !in es[list[0]].nodes {
      FirstEdgeWithCorrect(es, list[1..], n2);
      if FirstEdgeWith(es, list[1..], n2).Some? {
        var k :| 0 <= k < |list[1..]| && list[1..][k] == FirstEdgeWith(es, list[1..], n2).value &&
          n2 in es[list[1..][k]].nodes && forall j :: 0 <= j < k ==> n2 !in es[list[1..][j]].nodes;
        assert list[k + 1] == list[1..][k];
        forall j | 0 <= j < k + 1 ensures n2 !in es[list[j]].nodes {
          if j > 0 { assert list[j] == list[1..][j - 1]; }
        }
      }
    }
  }

  /** What grid/grid.py's is_edge_present can do: return an edge, return
      None, or fail with an IndexError. */
  datatype EdgeLookup = Found(edge: nat) | Absent | IndexFault

  /** is_edge_present in grid/grid.py as written: the loop returns on its
      first iteration either way, so only n1's first edge is inspected;
      reading nodes[0] or nodes[1] of an edge with fewer nodes fails. */
  function FirstEdgeOnly(es: seq<EdgeRec>, list: seq<nat>, n2: nat): (r: EdgeLookup)
    requires forall k :: 0 <= k < |list| ==> list[k] < |es|
    ensures r.Found? ==> list != [] && r.edge == list[0] && n2 in es[list[0]].nodes
  {
    if list == [] then Absent
    else
      var e := es[list[0]];
      if |e.nodes| == 0 then IndexFault
      else if e.nodes[0] == n2 then Found(list[0])
      else if |e.nodes| == 1 then IndexFault
      else if e.nodes[1] == n2 then Found(list[0])
      else Absent
  }

  /** Two edges 0-1 and 0-2, both listed at node 0. */
  function TwoEdges(): seq<EdgeRec> {
    [EdgeRec(None, [0, 1], [], false), EdgeRec(None, [0, 2], [], false)]
  }

  /** The first-edge-only lookup misses the edge 0-2 when it is node 0's
      second edge, while the full scan finds it. */
  lemma FirstEdgeOnlyMissesSecondEdge()
    ensures FirstEdgeOnly(TwoEdges(), [0, 1], 2) == Absent
    ensures FirstEdgeWith(TwoEdges(), [0, 1], 2) == Some(1)
  {
    assert 2 !in TwoEdges()[0].nodes;
    assert [0, 1][1..] == [1];
  }

  /** When the first-edge-only lookup succeeds it agrees with the scan. */
  lemma FirstEdgeOnlyAgrees(es: seq<EdgeRec>, list: seq<nat>, n2: nat)
    requires forall k :: 0 <= k < |list| ==> list[k] < |es|
    requires FirstEdgeOnly(es, list, n2).Found?
    ensures FirstEdgeWith(es, list, n2) == Some(FirstEdgeOnly(es, list, n2).edge)
  {
  }

  // ---------------------------------------------------------------------
  // set_nodes_and_faces

  /** The three Grid classes differ in the order a triangle's nodes are
      linked and in whether the new nodes get an Id. */
  datatype Variant = TriangularGrid | PlainGrid | StructuredGrid

  /** The order in which a triangle row (a, b, c) is linked to its face:
      a, c, b in triangular_grid/ and _grid/, a, b, c in grid/. */
  function LinkOrder(v: Variant, a: nat, b: nat, c: nat): (r: seq<nat>)
    ensures |r| == 3 && r[0] == a
    ensures (r[1] == b && r[2] == c) || (r[1] == c && r[2] == b)
  {
    if v == StructuredGrid then [a, b, c] else [a, c, b]
  }

  /** Whatever the variant, a face is linked to exactly the row's nodes. */
  lemma LinkOrderPermutes(v: Variant, a: nat, b: nat, c: nat)
    ensures multiset(LinkOrder(v, a, b, c)) == multiset{a, b, c}
  {
    var r := LinkOrder(v, a, b, c);
    assert r == [a, r[1], r[2]];
  }

  /** zip(x, y, z): as many points as the shortest coordinate list. */
  function Zip3(xs: seq<real>, ys: seq<real>, zs: seq<real>): (ps: seq<Vec>)
    ensures |ps| <= |xs| && |ps| <= |ys| && |ps| <= |zs|
    ensures |ps| == |xs| || |ps| == |ys| || |ps| == |zs|
    ensures forall i :: 0 <= i < |ps| ==> ps[i] == Vec(xs[i], ys[i], zs[i])
  {
    var n := if |xs| <= |ys| && |xs| <= |zs| then |xs| else if |ys| <= |zs| then |ys| else |zs|;
    seq(n, i requires 0 <= i < n => Vec(xs[i], ys[i], zs[i]))
  }

  /** Python list indexing: a negative index counts from the end; None is an
      IndexError. */
  function PyIndex(i: int, n: nat): (r: Option<nat>)
    ensures r.Some? <==> 0 <= i + n && i < n
    ensures r.Some? ==> r.value < n
    ensures r.Some? && i >= 0 ==> r.value == i
    ensures r.Some? && i < 0 ==> r.value + (-i) == n
  {
    if 0 <= i < n then Some(i) else if 0 <= i + n && i < 0 then Some(n + i) else None
  }

  /** The nodes created from the points; only triangular_grid/ numbers them. */
  function NewNodes(ps: seq<Vec>, v: Variant): (r: seq<NodeRec>)
    ensures |r| == |ps|
    ensures forall j :: 0 <= j < |ps| ==>
      r[j] == NewNode(ps[j], if v == TriangularGrid then Some(j) else None)
  {
    seq(|ps|, j requires 0 <= j < |ps| => NewNode(ps[j], if v == TriangularGrid then Some(j) else None))
  }

  /** A triangle row resolved against `n` nodes, in link order, or None when
      one of its entries is out of range. */
  function ResolveRow(v: Variant, row: (int, int, int), n: nat): (r: Option<seq<nat>>)
    ensures r.Some? <==> PyIndex(row.0, n).Some? && PyIndex(row.1, n).Some? && PyIndex(row.2, n).Some?
    ensures r.Some? ==> |r.value| == 3 && forall k :: 0 <= k < 3 ==> r.value[k] < n
  {
    match (PyIndex(row.0, n), PyIndex(row.1, n), PyIndex(row.2, n))
    case (Some(a), Some(b), Some(c)) => Some(LinkOrder(v, a, b, c))
    case _ => None
  }

  /** All rows resolved, or None if any row has an entry out of range. */
  function ResolveRows(v: Variant, rows: seq<(int, int, int)>, n: nat): (r: Option<seq<seq<nat>>>)
    ensures r.Some? <==> forall i :: 0 <= i < |rows| ==> ResolveRow(v, rows[i], n).Some?
    ensures r.Some? ==> (|r.value| == |rows| &&
      forall i :: 0 <= i < |rows| ==> r.value[i] == ResolveRow(v, rows[i], n).value)
    decreases |rows|
  {
    if rows == [] then Some([])
    else
      var last := |rows| - 1;
      var p := ResolveRows(v, rows[..last], n);
      var o := ResolveRow(v, rows[last], n);
      if p.None? || o.None? then None else Some(p.value + [o.value])
  }

  /** The number of rows before the first one that does not resolve; all
      of them when every row resolves. */
  function ResolvedCount(v: Variant, rows: seq<(int, int, int)>, n: nat): (k: nat)
    ensures k <= |rows|
    ensures forall i :: 0 <= i < k ==> ResolveRow(v, rows[i], n).Some?
    ensures k < |rows| ==> ResolveRow(v, rows[k], n).None?
    decreases |rows|
  {
    if rows == [] || ResolveRow(v, rows[0], n).None? then 0
    else 1 + ResolvedCount(v, rows[1..], n)
  }

  /** When rows before i resolve and row i does not, i rows resolve. */
  lemma ResolvedCountAt(v: Variant, rows: seq<(int, int, int)>, i: nat, n: nat)
    requires i < |rows| && ResolveRows(v, rows[..i], n).Some? && ResolveRow(v, rows[i], n).None?
    ensures ResolvedCount(v, rows, n) == i
  {
  }

  /** One row out of range makes the whole resolution fail. */
  lemma ResolveRowsNone(v: Variant, rows: seq<(int, int, int)>, i: nat, n: nat)
    requires i < |rows| && ResolveRow(v, rows[i], n).None?
    ensures ResolveRows(v, rows, n) == None
  {
  }

  /** Resolving one more row extends the resolved prefix by that row. */
  lemma ResolveRowsSnoc(v: Variant, rows: seq<(int, int, int)>, i: nat, n: nat, done: seq<seq<nat>>)
    requires i < |rows| && ResolveRows(v, rows[..i], n) == Some(done)
    requires ResolveRow(v, rows[i], n).Some?
    ensures ResolveRows(v, rows[..i + 1], n) == Some(done + [ResolveRow(v, rows[i], n).value])
  {
    assert rows[..i + 1][..i] == rows[..i];
  }

  /** The face built for row `i`: Id i, the resolved nodes in link order and
      nodes_ids = row + 1. */
  function TriangleFace(i: nat, row: (int, int, int), order: seq<nat>): (f: FaceRec)
    ensures f.id == Some(i) && f.nodes == order
    ensures f.nodesIds == [row.0 + 1, row.1 + 1, row.2 + 1]
    ensures f.edges == [] && f.vals == map[] && f.aux.None?
  {
    FaceRec(Some(i), order, [row.0 + 1, row.1 + 1, row.2 + 1], [], map[], None)
  }

  function TriangleFaces(rows: seq<(int, int, int)>, orders: seq<seq<nat>>): (r: seq<FaceRec>)
    requires |orders| == |rows|
    ensures |r| == |rows|
    ensures forall i :: 0 <= i < |rows| ==> r[i] == TriangleFace(i, rows[i], orders[i])
  {
    seq(|rows|, i requires 0 <= i < |rows| => TriangleFace(i, rows[i], orders[i]))
  }

  /** `f` once for every occurrence of `v` in `order`. */
  function Occ(v: nat, order: seq<nat>, f: nat): (r: seq<nat>)
    ensures forall k :: 0 <= k < |r| ==> r[k] == f
    ensures |r| > 0 <==> v in order
    decreases |order|
  {
    if order == [] then [] else (if order[0] == v then [f] else []) + Occ(v, order[1..], f)
  }

  /** The faces that linking `orders` (faces base, base+1, ...) appends to
      node `v`'s face list, in the order they are linked. */
  function FacesLinked(v: nat, orders: seq<seq<nat>>, base: nat): (r: seq<nat>)
    ensures forall k :: 0 <= k < |r| ==> base <= r[k] < base + |orders|
    decreases |orders|
  {
    if orders == [] then []
    else FacesLinked(v, orders[..|orders| - 1], base) + Occ(v, orders[|orders| - 1], base + |orders| - 1)
  }

  /** Appending the face of the next row extends the built faces by that
      row. */
  lemma TriangleFacesSnoc(rows: seq<(int, int, int)>, done: seq<seq<nat>>, o: seq<nat>)
    requires |done| < |rows|
    ensures TriangleFaces(rows[..|done|], done) + [TriangleFace(|done|, rows[|done|], o)]
      == TriangleFaces(rows[..|done| + 1], done + [o])
  {
  }

  /** `base` with every node's face list extended by the faces that
      linking `orders` appends to it. */
  function AppendLinked(base: seq<NodeRec>, orders: seq<seq<nat>>, b: nat): (r: seq<NodeRec>)
    ensures |r| == |base|
    ensures forall u :: 0 <= u < |base| ==> r[u] == base[u].(faces := base[u].faces + FacesLinked(u, orders, b))
  {
    seq(|base|, u requires 0 <= u < |base| => base[u].(faces := base[u].faces + FacesLinked(u, orders, b)))
  }

  /** Linking the next row's face to its nodes extends every node's
      appended list by that face's occurrences. */
  lemma FacesLinkedStep(base: seq<NodeRec>, mid: seq<NodeRec>, after: seq<NodeRec>,
                        done: seq<seq<nat>>, o: seq<nat>, b: nat)
    requires mid == AppendLinked(base, done, b) && after == WithOcc(mid, o, b + |done|)
    ensures after == AppendLinked(base, done + [o], b)
  {
    var r := AppendLinked(base, done + [o], b);
    forall u | 0 <= u < |after|
      ensures after[u] == r[u]
    {
      FacesLinkedStepAt(base[u].faces, u, done, o, b);
    }
  }

  /** The same for one node's face list. */
  lemma FacesLinkedStepAt(x: seq<nat>, u: nat, done: seq<seq<nat>>, o: seq<nat>, b: nat)
    ensures (x + FacesLinked(u, done, b)) + Occ(u, o, b + |done|) == x + FacesLinked(u, done + [o], b)
  {
    FacesLinkedSnoc(u, done, o, b);
    var y, z := FacesLinked(u, done, b), Occ(u, o, b + |done|);
    assert (x + y) + z == x + (y + z);
  }

  lemma FacesLinkedSnoc(u: nat, done: seq<seq<nat>>, o: seq<nat>, b: nat)
    ensures FacesLinked(u, done + [o], b) == FacesLinked(u, done, b) + Occ(u, o, b + |done|)
  {
    assert (done + [o])[..|done|] == done;
  }

  /** Linking no rows changes no node. */
  lemma AppendLinkedNone(base: seq<NodeRec>, b: nat)
    ensures AppendLinked(base, [], b) == base
  {
    var r := AppendLinked(base, [], b);
    forall u | 0 <= u < |base|
      ensures r[u] == base[u]
    {
      assert base[u].faces + [] == base[u].faces;
    }
  }

  /** Face `base + i` is in node `v`'s appended list exactly when `v` is
      one of the nodes of row `i`. */
  lemma {:induction false} FacesLinkedMembership(v: nat, orders: seq<seq<nat>>, base: nat, i: nat)
    requires i < |orders|
    ensures base + i in FacesLinked(v, orders, base) <==> v in orders[i]
    decreases |orders|
  {
    var n := |orders|;
    var p := orders[..n - 1];
    var o := Occ(v, orders[n - 1], base + n - 1);
    assert FacesLinked(v, orders, base) == FacesLinked(v, p, base) + o;
    if i < n - 1 {
      FacesLinkedMembership(v, p, base, i);
      assert p[i] == orders[i];
      assert base + i !in o;
    } else {
      assert base + i !in FacesLinked(v, p, base);
      assert |o| > 0 ==> o[0] == base + i;
    }
  }

  /** Occ over a three-node order, spelled out. */
  lemma Occ3(v: nat, o: seq<nat>, f: nat)
    requires |o| == 3
    ensures Occ(v, o, f) == (if o[0] == v then [f] else []) + (if o[1] == v then [f] else []) +
                            (if o[2] == v then [f] else [])
  {
    assert o[1..][1..] == [o[2]] && o[1..][0] == o[1];
    assert Occ(v, [o[2]], f) == (if o[2] == v then [f] else []) + Occ(v, [], f);
  }

  /** Node `n` with face `f` appended to its face list. */
  function AddFaceToNode(ns: seq<NodeRec>, n: nat, f: nat): (r: seq<NodeRec>)
    requires n < |ns|
    ensures |r| == |ns| && r[n].faces == ns[n].faces + [f]
  {
    ns[n := ns[n].(faces := ns[n].faces + [f])]
  }

  /** `ns` with face `f` appended to each node once per occurrence of the
      node in `o`. */
  function WithOcc(ns: seq<NodeRec>, o: seq<nat>, f: nat): (r: seq<NodeRec>)
    ensures |r| == |ns|
    ensures forall u :: 0 <= u < |ns| ==> r[u] == ns[u].(faces := ns[u].faces + Occ(u, o, f))
  {
    seq(|ns|, u requires 0 <= u < |ns| => ns[u].(faces := ns[u].faces + Occ(u, o, f)))
  }

  lemma LinkThreeNodes(ns: seq<NodeRec>, o: seq<nat>, f: nat)
    requires |o| == 3 && o[0] < |ns| && o[1] < |ns| && o[2] < |ns|
    ensures AddFaceToNode(AddFaceToNode(AddFaceToNode(ns, o[0], f), o[1], f), o[2], f) == WithOcc(ns, o, f)
  {
    var r := AddFaceToNode(AddFaceToNode(AddFaceToNode(ns, o[0], f), o[1], f), o[2], f);
    var w := WithOcc(ns, o, f);
    forall u | 0 <= u < |ns| ensures r[u] == w[u] {
      LinkThreeNodesAt(ns, o, f, u);
    }
  }

  lemma LinkThreeNodesAt(ns: seq<NodeRec>, o: seq<nat>, f: nat, u: nat)
    requires |o| == 3 && o[0] < |ns| && o[1] < |ns| && o[2] < |ns| && u < |ns|
    ensures AddFaceToNode(AddFaceToNode(AddFaceToNode(ns, o[0], f), o[1], f), o[2], f)[u] == WithOcc(ns, o, f)[u]
  {
    var r1 := AddFaceToNode(ns, o[0], f);
    var r2 := AddFaceToNode(r1, o[1], f);
    Occ3(u, o, f);
    var a := if o[0] == u then [f] else [];
    var b := if o[1] == u then [f] else [];
    var d := if o[2] == u then [f] else [];
    FaceAddedAt(ns, o[0], f, u);
    FaceAddedAt(r1, o[1], f, u);
    FaceAddedAt(r2, o[2], f, u);
    assert ns[u].faces + a + b + d == ns[u].faces + (a + b + d);
  }

  lemma FaceAddedAt(ns: seq<NodeRec>, n: nat, f: nat, u: nat)
    requires n < |ns| && u < |ns|
    ensures AddFaceToNode(ns, n, f)[u] == ns[u].(faces := ns[u].faces + if n == u then [f] else [])
  {
    if n != u {
      assert ns[u].faces + [] == ns[u].faces;
    }
  }

  /** Linking a face without nodes to three nodes keeps the links. */
  lemma LinkTriangleKeepsLinked(ns: seq<NodeRec>, es: seq<EdgeRec>, fs: seq<FaceRec>, fi: nat, o: seq<nat>)
    requires LinkedMesh(ns, es, fs) && fi < |fs| && fs[fi].nodes == []
    requires |o| == 3 && o[0] < |ns| && o[1] < |ns| && o[2] < |ns|
    ensures LinkedMesh(AddFaceToNode(AddFaceToNode(AddFaceToNode(ns, o[0], fi), o[1], fi), o[2], fi),
                       es, fs[fi := fs[fi].(nodes := o)])
  {
    LinkFaceNodeKeepsLinked(ns, es, fs, fi, o[0]);
    var ns1 := AddFaceToNode(ns, o[0], fi);
    var fs1 := fs[fi := fs[fi].(nodes := fs[fi].nodes + [o[0]])];
    LinkFaceNodeKeepsLinked(ns1, es, fs1, fi, o[1]);
    var ns2 := AddFaceToNode(ns1, o[1], fi);
    var fs2 := fs1[fi := fs1[fi].(nodes := fs1[fi].nodes + [o[1]])];
    LinkFaceNodeKeepsLinked(ns2, es, fs2, fi, o[2]);
    var fs3 := fs2[fi := fs2[fi].(nodes := fs2[fi].nodes + [o[2]])];
    assert fs2[fi].nodes + [o[2]] == o;
    assert fs3 == fs[fi := fs[fi].(nodes := o)];
  }

  // ---------------------------------------------------------------------
  // Relocation of T and Hw

  /** The sum of `fld` over the faces `ids`, accumulated from 0 in list
      order; None when a face lacks the field (the source adds None and
      raises a TypeError) or is out of range. */
  function SumField(fs: seq<FaceRec>, ids: seq<nat>, fld: Field): (r: Option<real>)
    ensures r.Some? <==> forall k :: 0 <= k < |ids| ==> ids[k] < |fs| && fld in fs[ids[k]].vals
    decreases |ids|
  {
    if ids == [] then Some(0.0)
    else
      var last := ids[|ids| - 1];
      match SumField(fs, ids[..|ids| - 1], fld)
      case None => None
      case Some(s) => if last < |fs| && fld in fs[last].vals then Some(s + fs[last].vals[fld]) else None
  }

  /** The T/Hw mean of a node's incident faces. A node with no faces divides
      by zero and a face without T or Hw makes the sum fail; the node is then
      left as it was and the pass stops. */
  function FacesToNode(fs: seq<FaceRec>, n: NodeRec): (r: (NodeRec, bool))
    ensures r.1 <==> |n.faces| > 0 && SumField(fs, n.faces, T).Some? && SumField(fs, n.faces, Hw).Some?
    ensures !r.1 ==> r.0 == n
    ensures r.1 ==> r.0 == n.(vals := r.0.vals) && r.0.vals.Keys == n.vals.Keys + {T, Hw}
  {
    var k := |n.faces| as real;
    if |n.faces| == 0 then (n, false)
    else match (SumField(fs, n.faces, T), SumField(fs, n.faces, Hw))
      case (Some(t), Some(h)) => (n.(vals := n.vals[T := t / k][Hw := h / k]), true)
      case _ => (n, false)
  }

  function FacesToNodesStep(fs: seq<FaceRec>): (nat, NodeRec) -> (NodeRec, bool) {
    (i: nat, n: NodeRec) => FacesToNode(fs, n)
  }

  /** The mean of `fld` over a face's first three nodes, or None when the
      face has fewer than three nodes or one of them lacks the field. */
  function NodeMean3(ns: seq<NodeRec>, f: FaceRec, fld: Field): (r: Option<real>)
    ensures r.Some? <==> (|f.nodes| >= 3 &&
      forall k :: 0 <= k < 3 ==> f.nodes[k] < |ns| && fld in ns[f.nodes[k]].vals)
  {
    if |f.nodes| >= 3 && f.nodes[0] < |ns| && f.nodes[1] < |ns| && f.nodes[2] < |ns| &&
       fld in ns[f.nodes[0]].vals && fld in ns[f.nodes[1]].vals && fld in ns[f.nodes[2]].vals
    then Some((ns[f.nodes[0]].vals[fld] + ns[f.nodes[1]].vals[fld] + ns[f.nodes[2]].vals[fld]) / 3.0)
    else None
  }

  /** relocate_values_from_nodes_to_faces for one face: T is written first,
      so when only Hw cannot be computed the face keeps its new T. */
  function NodesToFace(ns: seq<NodeRec>, f: FaceRec): (r: (FaceRec, bool))
    ensures r.1 <==> NodeMean3(ns, f, T).Some? && NodeMean3(ns, f, Hw).Some?
    ensures r.0 == f.(vals := r.0.vals)
  {
    match NodeMean3(ns, f, T)
    case None => (f, false)
    case Some(t) =>
      var f1 := f.(vals := f.vals[T := t]);
      match NodeMean3(ns, f, Hw)
      case None => (f1, false)
      case Some(h) => (f1.(vals := f1.vals[Hw := h]), true)
  }

  function NodesToFacesStep(ns: seq<NodeRec>): (nat, FaceRec) -> (FaceRec, bool) {
    (i: nat, f: FaceRec) => NodesToFace(ns, f)
  }

  /** compute_aux_nodes for one face: the aux node becomes the centroid. */
  function AuxNode(ns: seq<NodeRec>, f: FaceRec): (r: (FaceRec, bool))
    ensures r.1 <==> Centroid(ns, f).Some?
    ensures r.1 ==> r.0 == f.(aux := Centroid(ns, f))
    ensures !r.1 ==> r.0 == f
  {
    match Centroid(ns, f)
    case None => (f, false)
    case Some(c) => (f.(aux := Some(c)), true)
  }

  function AuxNodesStep(ns: seq<NodeRec>): (nat, FaceRec) -> (FaceRec, bool) {
    (i: nat, f: FaceRec) => AuxNode(ns, f)
  }

  lemma OneMoreCopy(k: nat, c: real)
    ensures (k as real) * c + c == ((k + 1) as real) * c
  {
  }

  /** Sum over copies of one value. */
  lemma {:induction false} SumFieldUniform(fs: seq<FaceRec>, ids: seq<nat>, fld: Field, c: real)
    requires forall k :: 0 <= k < |ids| ==> ids[k] < |fs| && fld in fs[ids[k]].vals && fs[ids[k]].vals[fld] == c
    ensures SumField(fs, ids, fld) == Some((|ids| as real) * c)
    decreases |ids|
  {
    if ids != [] {
      var k := |ids| - 1;
      var p := ids[..k];
      assert forall j :: 0 <= j < |p| ==> p[j] == ids[j];
      SumFieldUniform(fs, p, fld, c);
      var s := SumField(fs, p, fld).value;
      assert s == (k as real) * c;
      assert SumField(fs, ids, fld) == Some(s + fs[ids[k]].vals[fld]);
      assert fs[ids[k]].vals[fld] == c;
      OneMoreCopy(k, c);
      assert SumField(fs, ids, fld).value == s + c;
      assert s + c == ((k + 1) as real) * c;
      assert (k + 1) as real == |ids| as real;
      assert SumField(fs, ids, fld).value == (|ids| as real) * c;
    } else {
      assert (0 as real) * c == 0.0;
    }
  }

  /** The preconditions of the round trip: every node has an incident face,
      every face has three nodes, and all those links are in range. */
  ghost predicate RelocatableMesh(ns: seq<NodeRec>, fs: seq<FaceRec>) {
    (forall v :: 0 <= v < |ns| ==> |ns[v].faces| > 0) &&
    (forall v, k :: 0 <= v < |ns| && 0 <= k < |ns[v].faces| ==> ns[v].faces[k] < |fs|) &&
    (forall f :: 0 <= f < |fs| ==> |fs[f].nodes| >= 3) &&
    (forall f, k :: 0 <= f < |fs| && 0 <= k < |fs[f].nodes| ==> fs[f].nodes[k] < |ns|)
  }

  /** Every face carries T = t and Hw = h. */
  ghost predicate UniformFaces(fs: seq<FaceRec>, t: real, h: real) {
    forall f :: 0 <= f < |fs| ==>
      T in fs[f].vals && Hw in fs[f].vals && fs[f].vals[T] == t && fs[f].vals[Hw] == h
  }

  /** Relocating a uniform face field to the nodes succeeds and gives
      every node the face value. */
  lemma FacesToNodesUniform(ns: seq<NodeRec>, fs: seq<FaceRec>, t: real, h: real)
    requires RelocatableMesh(ns, fs) && UniformFaces(fs, t, h)
    ensures MapOrStop(FacesToNodesStep(fs), ns).1
    ensures UniformNodes(MapOrStop(FacesToNodesStep(fs), ns).0, t, h)
  {
    var step := FacesToNodesStep(fs);
    forall v | 0 <= v < |ns|
      ensures step(v, ns[v]).1 && T in step(v, ns[v]).0.vals && Hw in step(v, ns[v]).0.vals
      ensures step(v, ns[v]).0.vals[T] == t && step(v, ns[v]).0.vals[Hw] == h
    {
      FacesToNodeUniform(fs, ns[v], t, h);
    }
    MapOrStopAllSucceed(step, ns);
  }

  lemma FacesToNodeUniform(fs: seq<FaceRec>, n: NodeRec, t: real, h: real)
    requires |n.faces| > 0 && UniformFaces(fs, t, h)
    requires forall k :: 0 <= k < |n.faces| ==> n.faces[k] < |fs|
    ensures FacesToNode(fs, n).1
    ensures var m := FacesToNode(fs, n).0; T in m.vals && Hw in m.vals && m.vals[T] == t && m.vals[Hw] == h
  {
    SumFieldUniform(fs, n.faces, T, t);
    SumFieldUniform(fs, n.faces, Hw, h);
    MeanOfCopies(|n.faces|, t);
    MeanOfCopies(|n.faces|, h);
  }

  lemma MeanOfCopies(k: nat, t: real)
    requires k > 0
    ensures ((k as real) * t) / (k as real) == t
  {
  }

  /** Every node carries T = t and Hw = h. */
  ghost predicate UniformNodes(ns: seq<NodeRec>, t: real, h: real) {
    forall v :: 0 <= v < |ns| ==>
      T in ns[v].vals && Hw in ns[v].vals && ns[v].vals[T] == t && ns[v].vals[Hw] == h
  }

  /** Relocating a uniform node field to faces with three nodes succeeds
      and gives every face the node value. */
  lemma NodesToFacesUniform(ns: seq<NodeRec>, fs: seq<FaceRec>, t: real, h: real)
    requires UniformNodes(ns, t, h)
    requires forall f :: 0 <= f < |fs| ==> |fs[f].nodes| >= 3
    requires forall f, k :: 0 <= f < |fs| && 0 <= k < |fs[f].nodes| ==> fs[f].nodes[k] < |ns|
    ensures MapOrStop(NodesToFacesStep(ns), fs).1
    ensures UniformFaces(MapOrStop(NodesToFacesStep(ns), fs).0, t, h)
  {
    var step := NodesToFacesStep(ns);
    forall f | 0 <= f < |fs|
      ensures step(f, fs[f]).1 && T in step(f, fs[f]).0.vals && Hw in step(f, fs[f]).0.vals
      ensures step(f, fs[f]).0.vals[T] == t && step(f, fs[f]).0.vals[Hw] == h
    {
      NodesToFaceUniform(ns, fs[f], t, h);
    }
    MapOrStopAllSucceed(step, fs);
  }

  lemma NodesToFaceUniform(ns: seq<NodeRec>, f: FaceRec, t: real, h: real)
    requires UniformNodes(ns, t, h) && |f.nodes| >= 3
    requires forall k :: 0 <= k < |f.nodes| ==> f.nodes[k] < |ns|
    ensures NodesToFace(ns, f).1
    ensures var g := NodesToFace(ns, f).0; T in g.vals && Hw in g.vals && g.vals[T] == t && g.vals[Hw] == h
  {
    NodeMean3Uniform(ns, f, T, t);
    NodeMean3Uniform(ns, f, Hw, h);
  }

  lemma NodeMean3Uniform(ns: seq<NodeRec>, f: FaceRec, fld: Field, c: real)
    requires |f.nodes| >= 3 && forall k :: 0 <= k < 3 ==> f.nodes[k] < |ns|
    requires forall k :: 0 <= k < 3 ==> fld in ns[f.nodes[k]].vals && ns[f.nodes[k]].vals[fld] == c
    ensures NodeMean3(ns, f, fld) == Some(c)
  {
    assert fld in ns[f.nodes[0]].vals && fld in ns[f.nodes[1]].vals && fld in ns[f.nodes[2]].vals;
    assert (c + c + c) / 3.0 == c;
  }

  /** A uniform face field survives relocation to the nodes and back. */
  lemma UniformRoundTrip(ns: seq<NodeRec>, fs: seq<FaceRec>, t: real, h: real)
    requires RelocatableMesh(ns, fs) && UniformFaces(fs, t, h)
    ensures MapOrStop(FacesToNodesStep(fs), ns).1
    ensures var ns2 := MapOrStop(FacesToNodesStep(fs), ns).0;
      MapOrStop(NodesToFacesStep(ns2), fs).1 &&
      UniformFaces(MapOrStop(NodesToFacesStep(ns2), fs).0, t, h)
  {
    FacesToNodesUniform(ns, fs, t, h);
    NodesToFacesUniform(MapOrStop(FacesToNodesStep(fs), ns).0, fs, t, h);
  }

  // ---------------------------------------------------------------------
  // grid/grid.py: one field at a time, selected by name

  /** The field a grid/grid.py parameter name selects: 'value' is the
      node's `value` and the face's `V`. */
  function NamedField(name: string): (r: Option<Field>)
    ensures r.Some? <==> name == "value" || name == "T" || name == "Hw"
    ensures r == Some(Value) <==> name == "value"
  {
    if name == "value" then Some(Value)
    else if name == "T" then Some(T)
    else if name == "Hw" then Some(Hw)
    else None
  }

  /** The mean of one field over a node's faces, written into the node;
      no faces divides by zero and a missing face value fails the sum. */
  function FieldFacesToNode(fs: seq<FaceRec>, fld: Field, n: NodeRec): (r: (NodeRec, bool))
    ensures r.1 <==> |n.faces| > 0 && SumField(fs, n.faces, fld).Some?
    ensures !r.1 ==> r.0 == n
    ensures r.1 ==> r.0 == n.(vals := r.0.vals) && r.0.vals.Keys == n.vals.Keys + {fld} &&
                    forall k :: k in n.vals && k != fld ==> r.0.vals[k] == n.vals[k]
  {
    if |n.faces| == 0 then (n, false)
    else match SumField(fs, n.faces, fld)
      case Some(t) => (n.(vals := n.vals[fld := t / (|n.faces| as real)]), true)
      case None => (n, false)
  }

  function FieldFacesToNodesStep(fs: seq<FaceRec>, fld: Field): (nat, NodeRec) -> (NodeRec, bool) {
    (i: nat, n: NodeRec) => FieldFacesToNode(fs, fld, n)
  }

  /** The mean of one field over a face's first three nodes, written into
      the face. */
  function FieldNodesToFace(ns: seq<NodeRec>, fld: Field, f: FaceRec): (r: (FaceRec, bool))
    ensures r.1 <==> NodeMean3(ns, f, fld).Some?
    ensures !r.1 ==> r.0 == f
    ensures r.1 ==> r.0 == f.(vals := r.0.vals) && r.0.vals.Keys == f.vals.Keys + {fld} &&
                    forall k :: k in f.vals && k != fld ==> r.0.vals[k] == f.vals[k]
  {
    match NodeMean3(ns, f, fld)
    case Some(m) => (f.(vals := f.vals[fld := m]), true)
    case None => (f, false)
  }

  function FieldNodesToFacesStep(ns: seq<NodeRec>, fld: Field): (nat, FaceRec) -> (FaceRec, bool) {
    (i: nat, f: FaceRec) => FieldNodesToFace(ns, fld, f)
  }

  /** set_node_values: node i takes entry i of the values while both last
      (zip stops at the shorter one). */
  function SetValueNode(vals: seq<real>, fld: Field, i: nat, n: NodeRec): (r: (NodeRec, bool))
    ensures r.1
    ensures r.0 == n.(vals := r.0.vals)
    ensures i < |vals| ==> fld in r.0.vals && r.0.vals[fld] == vals[i] &&
                           forall k :: k != fld ==> (k in r.0.vals <==> k in n.vals) &&
                                                    (k in n.vals ==> r.0.vals[k] == n.vals[k])
    ensures i >= |vals| ==> r.0 == n
  {
    if i < |vals| then (n.(vals := n.vals[fld := vals[i]]), true) else (n, true)
  }

  function SetValuesStep(vals: seq<real>, fld: Field): (nat, NodeRec) -> (NodeRec, bool) {
    (i: nat, n: NodeRec) => SetValueNode(vals, fld, i, n)
  }

  /** After set_node_values with at least as many values as nodes, every
      node carries its value. */
  lemma SetValuesAll(ns: seq<NodeRec>, vals: seq<real>, fld: Field)
    requires |ns| <= |vals|
    ensures MapOrStop(SetValuesStep(vals, fld), ns).1
    ensures forall v :: 0 <= v < |ns| ==>
      fld in MapOrStop(SetValuesStep(vals, fld), ns).0[v].vals &&
      MapOrStop(SetValuesStep(vals, fld), ns).0[v].vals[fld] == vals[v]
  {
    MapOrStopAllSucceed(SetValuesStep(vals, fld), ns);
  }

  /** A face whose three nodes carry c gets c. */
  lemma FieldNodesToFaceUniform(ns: seq<NodeRec>, fld: Field, f: FaceRec, c: real)
    requires |f.nodes| >= 3 && forall k :: 0 <= k < |f.nodes| ==> f.nodes[k] < |ns|
    requires forall v :: 0 <= v < |ns| ==> fld in ns[v].vals && ns[v].vals[fld] == c
    ensures FieldNodesToFace(ns, fld, f).1
    ensures fld in FieldNodesToFace(ns, fld, f).0.vals && FieldNodesToFace(ns, fld, f).0.vals[fld] == c
  {
    assert f.nodes[0] < |ns| && f.nodes[1] < |ns| && f.nodes[2] < |ns|;
    assert (c + c + c) / 3.0 == c;
  }

  /** Setting one value on every node and relocating that field to faces
      whose three nodes exist gives every face that value. */
  lemma SetUniformThenNodesToFaces(ns: seq<NodeRec>, fs: seq<FaceRec>, vals: seq<real>, fld: Field, c: real)
    requires |ns| <= |vals| && forall i :: 0 <= i < |vals| ==> vals[i] == c
    requires forall f :: 0 <= f < |fs| ==> |fs[f].nodes| >= 3
    requires forall f, k :: 0 <= f < |fs| && 0 <= k < |fs[f].nodes| ==> fs[f].nodes[k] < |ns|
    ensures MapOrStop(SetValuesStep(vals, fld), ns).1
    ensures var ns2 := MapOrStop(SetValuesStep(vals, fld), ns).0;
      MapOrStop(FieldNodesToFacesStep(ns2, fld), fs).1 &&
      forall f :: 0 <= f < |fs| ==>
        fld in MapOrStop(FieldNodesToFacesStep(ns2, fld), fs).0[f].vals &&
        MapOrStop(FieldNodesToFacesStep(ns2, fld), fs).0[f].vals[fld] == c
  {
    SetValuesAll(ns, vals, fld);
    var ns2 := MapOrStop(SetValuesStep(vals, fld), ns).0;
    var step := FieldNodesToFacesStep(ns2, fld);
    forall f | 0 <= f < |fs|
      ensures step(f, fs[f]).1 && fld in step(f, fs[f]).0.vals && step(f, fs[f]).0.vals[fld] == c
    {
      FieldNodesToFaceUniform(ns2, fld, fs[f], c);
    }
    MapOrStopAllSucceed(step, fs);
  }

  /** A node whose faces all carry c gets c. */
  lemma FieldFacesToNodeUniform(fs: seq<FaceRec>, fld: Field, n: NodeRec, c: real)
    requires |n.faces| > 0 && forall k :: 0 <= k < |n.faces| ==> n.faces[k] < |fs|
    requires forall f :: 0 <= f < |fs| ==> fld in fs[f].vals && fs[f].vals[fld] == c
    ensures FieldFacesToNode(fs, fld, n).1
    ensures fld in FieldFacesToNode(fs, fld, n).0.vals && FieldFacesToNode(fs, fld, n).0.vals[fld] == c
  {
    SumFieldUniform(fs, n.faces, fld, c);
    var k := |n.faces|;
    var t := SumField(fs, n.faces, fld).value;
    assert t == (k as real) * c;
    MeanOfCopies(k, c);
    assert t / (k as real) == c;
    assert FieldFacesToNode(fs, fld, n).0 == n.(vals := n.vals[fld := t / (k as real)]);
  }

  /** A uniform face field relocated to nodes that all have faces gives
      every node that value (grid/grid.py, one field). */
  lemma FieldFacesToNodesUniform(ns: seq<NodeRec>, fs: seq<FaceRec>, fld: Field, c: real)
    requires forall v :: 0 <= v < |ns| ==> |ns[v].faces| > 0
    requires forall v, k :: 0 <= v < |ns| && 0 <= k < |ns[v].faces| ==> ns[v].faces[k] < |fs|
    requires forall f :: 0 <= f < |fs| ==> fld in fs[f].vals && fs[f].vals[fld] == c
    ensures MapOrStop(FieldFacesToNodesStep(fs, fld), ns).1
    ensures forall v :: 0 <= v < |ns| ==>
      fld in MapOrStop(FieldFacesToNodesStep(fs, fld), ns).0[v].vals &&
      MapOrStop(FieldFacesToNodesStep(fs, fld), ns).0[v].vals[fld] == c
  {
    var step := FieldFacesToNodesStep(fs, fld);
    forall v | 0 <= v < |ns|
      ensures step(v, ns[v]).1 && fld in step(v, ns[v]).0.vals && step(v, ns[v]).0.vals[fld] == c
    {
      FieldFacesToNodeUniform(fs, fld, ns[v], c);
    }
    MapOrStopAllSucceed(step, ns);
  }

  // ---------------------------------------------------------------------
  // Copy from an isomorphic grid, parameter columns

  /** dst[k] := src[k], where a missing key (None in the source) is copied
      as missing. */
  function CopyField(dst: map<Field, real>, src: map<Field, real>, k: Field): (r: map<Field, real>)
    ensures k in r <==> k in src
    ensures k in src ==> r[k] == src[k]
    ensures forall j :: j != k ==> (j in r <==> j in dst) && (j in r ==> r[j] == dst[j])
  {
    if k in src then dst[k := src[k]] else dst - {k}
  }

  /** relocate_values_from_isomorphic_grid for face i: T and Hw of the other
      grid's face i; an IndexError when the other grid has fewer faces. */
  function CopyFace(src: seq<FaceRec>, i: nat, f: FaceRec): (r: (FaceRec, bool))
    ensures r.1 <==> i < |src|
    ensures r.0 == f.(vals := r.0.vals)
  {
    if i < |src| then (f.(vals := CopyField(CopyField(f.vals, src[i].vals, T), src[i].vals, Hw)), true)
    else (f, false)
  }

  function CopyFacesStep(src: seq<FaceRec>): (nat, FaceRec) -> (FaceRec, bool) {
    (i: nat, f: FaceRec) => CopyFace(src, i, f)
  }

  /** After the copy every face carries exactly the other grid's T and Hw
      (present or missing alike) and keeps its other fields. */
  lemma CopyFacesCopies(src: seq<FaceRec>, fs: seq<FaceRec>)
    requires |fs| <= |src|
    ensures MapOrStop(CopyFacesStep(src), fs).1
    ensures var r := MapOrStop(CopyFacesStep(src), fs).0;
      forall i :: 0 <= i < |fs| ==>
        r[i] == fs[i].(vals := r[i].vals) &&
        (forall k :: k in {T, Hw} ==> (k in r[i].vals <==> k in src[i].vals) &&
                                      (k in r[i].vals ==> r[i].vals[k] == src[i].vals[k])) &&
        (forall k :: k !in {T, Hw} ==> (k in r[i].vals <==> k in fs[i].vals) &&
                                       (k in r[i].vals ==> r[i].vals[k] == fs[i].vals[k]))
  {
    MapOrStopAllSucceed(CopyFacesStep(src), fs);
  }

  /** The field a parameter name selects: only 'T' and 'Hw' are known. */
  function ParamField(name: string): (r: Option<Field>)
    ensures r.Some? <==> name == "T" || name == "Hw"
    ensures r == Some(T) <==> name == "T"
  {
    if name == "T" then Some(T) else if name == "Hw" then Some(Hw) else None
  }

  /** The value a face holds for a field, None when it is unset. */
  function Lookup(vals: map<Field, real>, k: Field): Option<real> {
    if k in vals then Some(vals[k]) else None
  }

  /** return_paramenter_as_ndarray: one entry per face for 'T' or 'Hw', an
      empty column for any other name. */
  function ParamColumn(fs: seq<FaceRec>, name: string): (r: seq<Option<real>>)
    ensures ParamField(name).None? ==> r == []
    ensures ParamField(name).Some? ==> (|r| == |fs| &&
      forall i :: 0 <= i < |fs| ==> r[i] == Lookup(fs[i].vals, ParamField(name).value))
  {
    match ParamField(name)
    case None => []
    case Some(k) => seq(|fs|, i requires 0 <= i < |fs| => Lookup(fs[i].vals, k))
  }

  /** set_aux_nodes_parameters for face i: entry i of the single row goes
      into the named field; an unknown name writes nothing; a row shorter
      than the face list is an IndexError. */
  function SetParamFace(row: seq<real>, name: string, i: nat, f: FaceRec): (r: (FaceRec, bool))
    ensures r.1 <==> ParamField(name).None? || i < |row|
    ensures r.0 == f.(vals := r.0.vals)
  {
    match ParamField(name)
    case None => (f, true)
    case Some(k) => if i < |row| then (f.(vals := f.vals[k := row[i]]), true) else (f, false)
  }

  function SetParamStep(row: seq<real>, name: string): (nat, FaceRec) -> (FaceRec, bool) {
    (i: nat, f: FaceRec) => SetParamFace(row, name, i, f)
  }

  /** Writing a row with set_aux_nodes_parameters and reading the same
      parameter back with return_paramenter_as_ndarray gives the row's first
      |faces| entries. */
  lemma SetThenReadParam(fs: seq<FaceRec>, row: seq<real>, name: string)
    requires ParamField(name).Some? && |fs| <= |row|
    ensures MapOrStop(SetParamStep(row, name), fs).1
    ensures var col := ParamColumn(MapOrStop(SetParamStep(row, name), fs).0, name);
      |col| == |fs| && forall i :: 0 <= i < |fs| ==> col[i] == Some(row[i])
  {
    MapOrStopAllSucceed(SetParamStep(row, name), fs);
  }

  // ---------------------------------------------------------------------
  // Isomorphism heuristic

  /** Each node's degree, in node order. */
  function Degrees(ns: seq<NodeRec>): (d: seq<nat>)
    ensures |d| == |ns| && forall i :: 0 <= i < |ns| ==> d[i] == |ns[i].edges|
  {
    seq(|ns|, i requires 0 <= i < |ns| => |ns[i].edges|)
  }

  /** is_isomprphic_to as written: `sorted()` returns a new list that is
      discarded, so the degree lists are compared in node order. */
  function IsomorphicAsWritten(a: seq<NodeRec>, b: seq<NodeRec>): bool {
    |a| == |b| && Degrees(a) == Degrees(b)
  }

  /** The documented heuristic: equal node counts and equal sorted degree
      lists, that is, equal multisets of degrees. */
  function IsomorphicSorted(a: seq<NodeRec>, b: seq<NodeRec>): bool {
    |a| == |b| && multiset(Degrees(a)) == multiset(Degrees(b))
  }

  /** Whatever the written check accepts, the documented one accepts too. */
  lemma AsWrittenImpliesSorted(a: seq<NodeRec>, b: seq<NodeRec>)
    ensures IsomorphicAsWritten(a, b) ==> IsomorphicSorted(a, b)
  {
  }

  /** Exchanging two nodes does not change the documented verdict: a grid
      is isomorphic to itself with two nodes renumbered. */
  lemma {:induction false} SortedIgnoresSwap(a: seq<NodeRec>, i: nat, j: nat)
    requires i < |a| && j < |a|
    ensures IsomorphicSorted(a, a[i := a[j]][j := a[i]])
  {
    var b := a[i := a[j]][j := a[i]];
    var da, db := Degrees(a), Degrees(b);
    assert db == da[i := da[j]][j := da[i]];
  }

  /** The two nodes of a path a - b (degrees 1 and 2 when the path has a
      third node), listed in the two orders. */
  function PathNodes(swapped: bool): seq<NodeRec> {
    var leaf := NewNode(Zero, None).(edges := [0]);
    var middle := NewNode(Zero, None).(edges := [0, 1]);
    if swapped then [middle, leaf] else [leaf, middle]
  }

  /** The same grid with its nodes listed in another order is rejected by
      the written check although the documented check accepts it. */
  lemma AsWrittenRejectsRenumbering()
    ensures IsomorphicSorted(PathNodes(false), PathNodes(true))
    ensures !IsomorphicAsWritten(PathNodes(false), PathNodes(true))
  {
    SortedIgnoresSwap(PathNodes(false), 0, 1);
    assert PathNodes(false)[0 := PathNodes(false)[1]][1 := PathNodes(false)[0]] == PathNodes(true);
    assert Degrees(PathNodes(false))[0] == 1 && Degrees(PathNodes(true))[0] == 2;
  }

  // ---------------------------------------------------------------------
  // Connected components

  /** The other end of an edge with two nodes, as depth_first_traversal
      picks it: nodes[1] when nodes[0] is `v`, otherwise nodes[0]. */
  function Other(e: EdgeRec, v: nat): nat
    requires |e.nodes| == 2
  {
    if e.nodes[0] == v then e.nodes[1] else e.nodes[0]
  }

  /** Every tagged node outside `open` has edges with two nodes and shares
      its tag with all its neighbours. */
  ghost predicate Closed(ns: seq<NodeRec>, es: seq<EdgeRec>, open: set<nat>) {
    forall v, k :: 0 <= v < |ns| && v !in open && ns[v].component.Some? && 0 <= k < |ns[v].edges| ==>
      ns[v].edges[k] < |es| && |es[ns[v].edges[k]].nodes| == 2 &&
      Other(es[ns[v].edges[k]], v) < |ns| &&
      ns[Other(es[ns[v].edges[k]], v)].component == ns[v].component
  }

  /** `b` differs from `a` only in tags: tags already set are kept and new
      ones lie in lo..hi-1. */
  ghost predicate Tagged(a: seq<NodeRec>, b: seq<NodeRec>, lo: nat, hi: nat) {
    |a| == |b| &&
    forall v :: 0 <= v < |a| ==>
      b[v] == a[v].(component := b[v].component) &&
      (a[v].component.Some? ==> b[v].component == a[v].component) &&
      (a[v].component.None? && b[v].component.Some? ==> lo <= b[v].component.value < hi)
  }

  /** The number of untagged nodes. */
  function Untagged(ns: seq<NodeRec>): nat
    decreases |ns|
  {
    if ns == [] then 0
    else Untagged(ns[..|ns| - 1]) + (if ns[|ns| - 1].component.None? then 1 else 0)
  }

  lemma {:induction false} UntaggedMonotone(a: seq<NodeRec>, b: seq<NodeRec>, lo: nat, hi: nat)
    requires Tagged(a, b, lo, hi)
    ensures Untagged(b) <= Untagged(a)
    decreases |a|
  {
    if a != [] {
      UntaggedMonotone(a[..|a| - 1], b[..|b| - 1], lo, hi);
    }
  }

  /** Tagging one untagged node removes exactly one untagged node. */
  lemma {:induction false} UntaggedTagOne(a: seq<NodeRec>, v: nat, c: nat)
    requires v < |a| && a[v].component.None?
    ensures Untagged(a[v := a[v].(component := Some(c))]) + 1 == Untagged(a)
    decreases |a|
  {
    var b := a[v := a[v].(component := Some(c))];
    var n := |a|;
    if v < n - 1 {
      assert b[..n - 1] == a[..n - 1][v := a[v].(component := Some(c))];
      UntaggedTagOne(a[..n - 1], v, c);
    } else {
      assert b[..n - 1] == a[..n - 1];
    }
  }

  lemma TaggedTrans(a: seq<NodeRec>, b: seq<NodeRec>, c: seq<NodeRec>, lo: nat, mid: nat, hi: nat)
    requires Tagged(a, b, lo, mid) && Tagged(b, c, mid, hi) && lo <= mid <= hi
    ensures Tagged(a, c, lo, hi)
  {
  }

  lemma TaggedAgain(a: seq<NodeRec>, b: seq<NodeRec>, c: seq<NodeRec>, lo: nat, hi: nat)
    requires Tagged(a, b, lo, hi) && Tagged(b, c, lo, hi)
    ensures Tagged(a, c, lo, hi)
  {
  }

  /** A traversal from the i-th neighbour keeps the tags of the earlier
      neighbours and leaves the i-th one tagged `c` when it could carry no
      other tag. */
  lemma NeighboursTagged(a: seq<NodeRec>, b: seq<NodeRec>, nbrs: seq<nat>, i: nat, c: nat)
    requires Tagged(a, b, c, c + 1) && i < |nbrs|
    requires forall j :: 0 <= j < i ==> nbrs[j] < |a| && a[nbrs[j]].component == Some(c)
    requires nbrs[i] < |a| && (a[nbrs[i]].component.Some? ==> a[nbrs[i]].component == Some(c))
    requires b[nbrs[i]].component.Some?
    ensures forall j :: 0 <= j <= i ==> nbrs[j] < |b| && b[nbrs[j]].component == Some(c)
  {
  }

  /** Tags already set survive a traversal. */
  lemma OpenStaysTagged(a: seq<NodeRec>, b: seq<NodeRec>, open: set<nat>, c: nat)
    requires Tagged(a, b, c, c + 1)
    requires forall u :: u in open ==> u < |a| && a[u].component == Some(c)
    ensures forall u :: u in open ==> u < |b| && b[u].component == Some(c)
  {
  }

  // ---------------------------------------------------------------------
  // Reachability along edges

  /** Each node's edge list; tagging leaves it unchanged. */
  function Links(ns: seq<NodeRec>): (r: seq<seq<nat>>)
    ensures |r| == |ns| && forall u :: 0 <= u < |ns| ==> r[u] == ns[u].edges
  {
    seq(|ns|, u requires 0 <= u < |ns| => ns[u].edges)
  }

  /** w is the other end of one of u's two-node edges. */
  ghost predicate Adjacent(adj: seq<seq<nat>>, es: seq<EdgeRec>, u: nat, w: nat) {
    u < |adj| &&
    exists k :: 0 <= k < |adj[u]| && adj[u][k] < |es| && |es[adj[u][k]].nodes| == 2 && Other(es[adj[u][k]], u) == w
  }

  ghost predicate IsPath(adj: seq<seq<nat>>, es: seq<EdgeRec>, p: seq<nat>) {
    |p| > 0 && forall k :: 0 <= k < |p| - 1 ==> Adjacent(adj, es, p[k], p[k + 1])
  }

  /** A path of edges leads from a to b. */
  ghost predicate Reaches(adj: seq<seq<nat>>, es: seq<EdgeRec>, a: nat, b: nat) {
    exists p :: IsPath(adj, es, p) && p[0] == a && p[|p| - 1] == b
  }

  /** Every node that `a` leaves untagged and `b` tags is reachable from v. */
  ghost predicate NewlyReached(a: seq<NodeRec>, b: seq<NodeRec>, es: seq<EdgeRec>, v: nat) {
    |a| == |b| &&
    forall u :: 0 <= u < |a| && a[u].component.None? && b[u].component.Some? ==> Reaches(Links(a), es, v, u)
  }

  lemma TaggedLinks(a: seq<NodeRec>, b: seq<NodeRec>, lo: nat, hi: nat)
    requires Tagged(a, b, lo, hi)
    ensures Links(a) == Links(b)
  {
    assert forall u :: 0 <= u < |a| ==> Links(a)[u] == Links(b)[u];
  }

  /** Tagging v alone tags only a node reachable from v. */
  lemma NewlyReachedTagOne(a: seq<NodeRec>, es: seq<EdgeRec>, v: nat, c: nat)
    requires v < |a|
    ensures NewlyReached(a, a[v := a[v].(component := Some(c))], es, v)
  {
    var p := [v];
    assert IsPath(Links(a), es, p);
  }

  /** Reaching w from one of v's neighbours reaches it from v. */
  lemma ReachesVia(adj: seq<seq<nat>>, es: seq<EdgeRec>, v: nat, w: nat, u: nat)
    requires Adjacent(adj, es, v, w) && Reaches(adj, es, w, u)
    ensures Reaches(adj, es, v, u)
  {
    var p :| IsPath(adj, es, p) && p[0] == w && p[|p| - 1] == u;
    var q := [v] + p;
    assert q[1..] == p;
    forall k | 0 <= k < |q| - 1
      ensures Adjacent(adj, es, q[k], q[k + 1])
    {
      if k > 0 {
        assert q[k] == p[k - 1] && q[k + 1] == p[k];
      }
    }
    assert IsPath(adj, es, q) && q[0] == v && q[|q| - 1] == u;
  }

  /** What a traversal from v's neighbour w tags is reachable from v. */
  lemma NewlyReachedVia(a: seq<NodeRec>, b: seq<NodeRec>, es: seq<EdgeRec>, v: nat, w: nat)
    requires NewlyReached(a, b, es, w) && Adjacent(Links(a), es, v, w)
    ensures NewlyReached(a, b, es, v)
  {
    forall u | 0 <= u < |a| && a[u].component.None? && b[u].component.Some?
      ensures Reaches(Links(a), es, v, u)
    {
      ReachesVia(Links(a), es, v, w, u);
    }
  }

  /** Two traversals from v tag only nodes reachable from v. */
  lemma NewlyReachedTrans(a: seq<NodeRec>, b: seq<NodeRec>, c: seq<NodeRec>, es: seq<EdgeRec>, v: nat, lo: nat, hi: nat)
    requires Tagged(a, b, lo, hi) && Tagged(b, c, lo, hi)
    requires NewlyReached(a, b, es, v) && NewlyReached(b, c, es, v)
    ensures NewlyReached(a, c, es, v)
  {
    TaggedLinks(a, b, lo, hi);
  }

  /** Tagging keeps every link list, so it keeps the links. */
  lemma TaggedKeepsLinked(a: seq<NodeRec>, b: seq<NodeRec>, es: seq<EdgeRec>, fs: seq<FaceRec>, lo: nat, hi: nat)
    requires Tagged(a, b, lo, hi) && LinkedMesh(a, es, fs)
    ensures LinkedMesh(b, es, fs)
  {
    assert forall v :: 0 <= v < |a| ==> b[v].faces == a[v].faces && b[v].edges == a[v].edges;
  }

  /** Tagging an untagged node and putting it on the open path keeps the
      closure of the other nodes. */
  lemma TagOneKeepsClosed(ns: seq<NodeRec>, es: seq<EdgeRec>, fs: seq<FaceRec>, open: set<nat>, v: nat, c: nat)
    requires LinkedMesh(ns, es, fs) && Closed(ns, es, open)
    requires v < |ns| && ns[v].component.None?
    ensures LinkedMesh(ns[v := ns[v].(component := Some(c))], es, fs)
    ensures Closed(ns[v := ns[v].(component := Some(c))], es, open + {v})
  {
    var ns2 := ns[v := ns[v].(component := Some(c))];
    assert Tagged(ns, ns2, c, c + 1);
    TaggedKeepsLinked(ns, ns2, es, fs, c, c + 1);
    forall u, k | 0 <= u < |ns2| && u !in open + {v} && ns2[u].component.Some? && 0 <= k < |ns2[u].edges|
      ensures |es[ns2[u].edges[k]].nodes| == 2
      ensures ns2[Other(es[ns2[u].edges[k]], u)].component == ns2[u].component
    {
      assert ns2[u] == ns[u];
      var w := Other(es[ns[u].edges[k]], u);
      assert ns[w].component == ns[u].component;
      assert w != v;
    }
  }

  /** A node whose traversal is over leaves the open path: once all its
      neighbours carry its tag, it is closed like the rest. */
  lemma CloseNode(ns: seq<NodeRec>, es: seq<EdgeRec>, open: set<nat>, v: nat, c: nat)
    requires forall u, j :: 0 <= u < |ns| && 0 <= j < |ns[u].edges| ==> ns[u].edges[j] < |es|
    requires forall e, j :: 0 <= e < |es| && 0 <= j < |es[e].nodes| ==> es[e].nodes[j] < |ns|
    requires Closed(ns, es, open + {v})
    requires v < |ns| && ns[v].component == Some(c)
    requires forall j :: 0 <= j < |ns[v].edges| ==>
      |es[ns[v].edges[j]].nodes| == 2 && ns[Other(es[ns[v].edges[j]], v)].component == Some(c)
    ensures Closed(ns, es, open)
  {
  }

  /** With links recorded on both sides, a tagged neighbour of a node on
      the open path carries the path's tag: a node closed under another tag
      would have passed that tag to this neighbour. */
  lemma NeighbourTag(ns: seq<NodeRec>, es: seq<EdgeRec>, open: set<nat>, v: nat, k: nat, c: nat)
    requires forall u, j :: 0 <= u < |ns| && 0 <= j < |ns[u].edges| ==> ns[u].edges[j] < |es|
    requires forall e, j :: 0 <= e < |es| && 0 <= j < |es[e].nodes| ==> es[e].nodes[j] < |ns|
    requires NodeEdgeLinked(ns, es) && Closed(ns, es, open)
    requires forall u :: u in open ==> u < |ns| && ns[u].component == Some(c)
    requires v < |ns| && ns[v].component == Some(c) && k < |ns[v].edges|
    requires |es[ns[v].edges[k]].nodes| == 2
    ensures var w := Other(es[ns[v].edges[k]], v); ns[w].component.Some? ==> ns[w].component == Some(c)
  {
    var e := ns[v].edges[k];
    var w := Other(es[e], v);
    if ns[w].component.Some? && w !in open {
      assert v in es[e].nodes;
      assert es[e].nodes[0] == w || es[e].nodes[1] == w;
      assert e in ns[w].edges;
      var j :| 0 <= j < |ns[w].edges| && ns[w].edges[j] == e;
      assert Other(es[e], w) == v;
    }
  }
}
