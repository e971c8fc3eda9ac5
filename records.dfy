/** The records a mesh is made of (triangular_grid/node.py, triangular_grid/face.py,
    and the plain Node/Edge/Face classes of _grid/ and grid/).

    The mesh is an arena: nodes, edges and faces live in three sequences and
    refer to each other by position, so a link that the source stores as an
    object reference is an index here. A scalar field that the source leaves
    as None is a key missing from the record's `vals` map. */
module Records {
  import opened Util
  import opened Geom

  /** The scalar fields a node or face may carry. `Value` is the field that
      grid/grid.py calls `value` on nodes and `V` on faces. */
  datatype Field = T | Hw | Hi | HTC | Beta | TauX | TauY | TauZ | VM | FM | Value

  datatype NodeRec = NodeRec(pos: Vec, id: Option<int>, vals: map<Field, real>,
                             faces: seq<nat>, edges: seq<nat>,
                             fixed: bool, component: Option<nat>)

  datatype EdgeRec = EdgeRec(id: Option<int>, nodes: seq<nat>, faces: seq<nat>, border: bool)

  /** `aux` is the face's aux_node; a fresh face's aux node has no coordinates. */
  datatype FaceRec = FaceRec(id: Option<int>, nodes: seq<nat>, nodesIds: seq<int>,
                             edges: seq<nat>, vals: map<Field, real>, aux: Option<Vec>)

  /** Node.__init__: the given coordinates and Id, no field values, no
      incident faces or edges, not fixed, no component. */
  function NewNode(p: Vec, id: Option<int>): (n: NodeRec)
    ensures n.pos == p && n.id == id
    ensures n.vals == map[] && n.faces == [] && n.edges == []
    ensures !n.fixed && n.component.None?
  {
    NodeRec(p, id, map[], [], [], false, None)
  }

  /** Edge.__init__: no Id, no nodes, no faces, not on the border. */
  function NewEdge(): (e: EdgeRec)
    ensures e.id.None? && e.nodes == [] && e.faces == [] && !e.border
  {
    EdgeRec(None, [], [], false)
  }

  /** Face.__init__: the given Id, no nodes, node ids or edges, every scalar
      field unset and an aux node without coordinates. */
  function NewFace(id: Option<int>): (f: FaceRec)
    ensures f.id == id && f.nodes == [] && f.nodesIds == [] && f.edges == []
    ensures f.vals == map[] && f.aux.None?
  {
    FaceRec(id, [], [], [], map[], None)
  }

  /** Node.coordinates: the triple (x, y, z). */
  function Coordinates(n: NodeRec): (c: (real, real, real))
    ensures Vec(c.0, c.1, c.2) == n.pos
  {
    (n.pos.x, n.pos.y, n.pos.z)
  }

  /** Node.move: shift the coordinates by `v`; nothing else changes. */
  function Moved(n: NodeRec, v: Vec): (m: NodeRec)
    ensures m.pos == Add(n.pos, v)
    ensures m == n.(pos := m.pos)
  {
    n.(pos := Add(n.pos, v))
  }

  /** Moving by v and then by -v restores the node; moving by the zero
      vector changes nothing. */
  lemma MoveRoundTrip(n: NodeRec, v: Vec)
    ensures Moved(Moved(n, v), Neg(v)) == n
    ensures Moved(n, Zero) == n
  {
    assert Add(Add(n.pos, v), Neg(v)) == n.pos;
    assert Add(n.pos, Zero) == n.pos;
  }

  // ---------------------------------------------------------------------
  // Face geometry

  /** The positions of a face's first three nodes, or None when the face has
      fewer than three nodes or refers to a node outside `ns` (the source
      fails with an IndexError). */
  function Corners(ns: seq<NodeRec>, f: FaceRec): (r: Option<(Vec, Vec, Vec)>)
    ensures r.Some? <==> |f.nodes| >= 3 && f.nodes[0] < |ns| && f.nodes[1] < |ns| && f.nodes[2] < |ns|
  {
    if |f.nodes| >= 3 && f.nodes[0] < |ns| && f.nodes[1] < |ns| && f.nodes[2] < |ns| then
      Some((ns[f.nodes[0]].pos, ns[f.nodes[1]].pos, ns[f.nodes[2]].pos))
    else
      None
  }

  /** Face.centroid: the mean of the three nodes' coordinates. */
  function Centroid(ns: seq<NodeRec>, f: FaceRec): (r: Option<Vec>)
    ensures r.Some? <==> Corners(ns, f).Some?
    ensures r.Some? && ns[f.nodes[0]].pos == ns[f.nodes[1]].pos == ns[f.nodes[2]].pos
            ==> r.value == ns[f.nodes[0]].pos
  {
    match Corners(ns, f)
    case None => None
    case Some((a, b, c)) => Some(Mean3(a, b, c))
  }

  /** Face.normal before normalisation: -((p1 - p2) x (p1 - p3)); the source
      asserts that the face has exactly three nodes. */
  function RawNormal(ns: seq<NodeRec>, f: FaceRec): (r: Option<Vec>)
    ensures r.Some? <==> |f.nodes| == 3 && Corners(ns, f).Some?
  {
    if |f.nodes| != 3 then None
    else match Corners(ns, f)
      case None => None
      case Some((p1, p2, p3)) => Some(Neg(Cross(Sub(p1, p2), Sub(p1, p3))))
  }

  /** The normal is orthogonal to both edge vectors it is built from. */
  lemma RawNormalOrthogonal(ns: seq<NodeRec>, f: FaceRec)
    requires RawNormal(ns, f).Some?
    ensures var p1, p2, p3 := ns[f.nodes[0]].pos, ns[f.nodes[1]].pos, ns[f.nodes[2]].pos;
      Dot(RawNormal(ns, f).value, Sub(p1, p2)) == 0.0 &&
      Dot(RawNormal(ns, f).value, Sub(p1, p3)) == 0.0
  {
    var p1, p2, p3 := ns[f.nodes[0]].pos, ns[f.nodes[1]].pos, ns[f.nodes[2]].pos;
    CrossOrthogonal(Sub(p1, p2), Sub(p1, p3));
  }

  /** Face.area squared, times four: |(p1 - p2) x (p1 - p3)|^2 (the area
      itself needs a square root). Defined exactly when the source's assert
      on three nodes holds, and never negative. */
  function AreaSquaredTimesFour(ns: seq<NodeRec>, f: FaceRec): (r: Option<real>)
    ensures r.Some? <==> |f.nodes| == 3 && Corners(ns, f).Some?
    ensures r.Some? ==> r.value >= 0.0
  {
    match RawNormal(ns, f)
    case None => None
    case Some(v) => DotSelfNonNegative(v); Some(Dot(v, v))
  }

  /** alpha_quality_measure's precondition: exactly three edges. */
  predicate AlphaDefined(f: FaceRec) {
    |f.edges| == 3
  }

  /** Face.adjacent_faces over the edge list `es` of face `self`: for each edge,
      the face on its other side, nothing for a border edge whose first face is
      `self`. None where the source fails: an edge with more than two faces or
      two equal faces (assertions), an edge with no face, or an edge whose only
      face is not `self` (IndexError). */
  function AdjacentFaces(edges: seq<EdgeRec>, self: nat, es: seq<nat>): (r: Option<seq<nat>>)
    ensures r.Some? ==> |r.value| <= |es|
    decreases |es|
  {
    if es == [] then Some([])
    else if es[0] >= |edges| then None
    else
      var fs := edges[es[0]].faces;
      var here: Option<seq<nat>> :=
        if |fs| > 2 || |fs| == 0 then None
        else if fs[0] == self then Some(if |fs| == 2 then [fs[1]] else [])
        else if |fs| == 1 || fs[0] == fs[1] then None
        else Some([fs[0]]);
      match here
      case None => None
      case Some(h) =>
        match AdjacentFaces(edges, self, es[1..])
        case None => None
        case Some(rest) => Some(h + rest)
  }

  /** An edge as link_face_and_edge leaves it for a face it was linked to:
      one or two distinct faces, `self` among them. */
  predicate EdgeOfFace(e: EdgeRec, self: nat) {
    1 <= |e.faces| <= 2 && self in e.faces && (|e.faces| == 2 ==> e.faces[0] != e.faces[1])
  }

  /** The number of edges in `es` that have two faces. */
  function InnerEdgeCount(edges: seq<EdgeRec>, es: seq<nat>): nat
    requires forall k :: 0 <= k < |es| ==> es[k] < |edges|
    decreases |es|
  {
    if es == [] then 0
    else (if |edges[es[0]].faces| == 2 then 1 else 0) + InnerEdgeCount(edges, es[1..])
  }

  /** On a face whose edges each hold it, adjacent_faces succeeds, never
      returns the face itself, and returns one face per inner edge. */
  lemma {:induction false} AdjacentFacesOfLinkedFace(edges: seq<EdgeRec>, self: nat, es: seq<nat>)
    requires forall k :: 0 <= k < |es| ==> es[k] < |edges| && EdgeOfFace(edges[es[k]], self)
    ensures AdjacentFaces(edges, self, es).Some?
    ensures self !in AdjacentFaces(edges, self, es).value
    ensures |AdjacentFaces(edges, self, es).value| == InnerEdgeCount(edges, es)
    decreases |es|
  {
    if es != [] {
      AdjacentFacesOfLinkedFace(edges, self, es[1..]);
    }
  }

  // ---------------------------------------------------------------------
  // Element-wise passes that stop at the first failure

  /** The result of running `step` over `s` in order, as the source's loops
      over Nodes or Faces do: each step gives the element's new value and
      whether the loop goes on. When a step fails (the source raises), its
      element keeps what the step had already written and the elements
      after it are untouched. The boolean says whether every step succeeded. */
  function MapOrStop<A>(step: (nat, A) -> (A, bool), s: seq<A>): (r: (seq<A>, bool))
    ensures |r.0| == |s|
    decreases |s|
  {
    if s == [] then ([], true)
    else
      var prev := MapOrStop(step, s[..|s| - 1]);
      var i := |s| - 1;
      if !prev.1 then (prev.0 + [s[i]], false)
      else
        var (v, go) := step(i, s[i]);
        (prev.0 + [v], go)
  }

  /** One more element: what a loop body adds to its invariant. */
  lemma MapOrStopStep<A>(step: (nat, A) -> (A, bool), s: seq<A>, i: nat)
    requires i < |s| && MapOrStop(step, s[..i]).1
    ensures MapOrStop(step, s[..i + 1]) ==
            (MapOrStop(step, s[..i]).0 + [step(i, s[i]).0], step(i, s[i]).1)
  {
    assert s[..i + 1][..i] == s[..i];
  }

  /** After a failed step the rest of the sequence is left as it was. */
  lemma {:induction false} MapOrStopAfterFail<A>(step: (nat, A) -> (A, bool), s: seq<A>, k: nat)
    requires k <= |s| && !MapOrStop(step, s[..k]).1
    ensures MapOrStop(step, s) == (MapOrStop(step, s[..k]).0 + s[k..], false)
    decreases |s| - k
  {
    if k == |s| {
      assert s[..k] == s && s[k..] == [];
      assert MapOrStop(step, s[..k]).0 + s[k..] == MapOrStop(step, s).0;
    } else {
      assert s[..k + 1][..k] == s[..k];
      assert MapOrStop(step, s[..k + 1]) == (MapOrStop(step, s[..k]).0 + [s[k]], false);
      MapOrStopAfterFail(step, s, k + 1);
      assert s[k..] == [s[k]] + s[k + 1..];
      assert MapOrStop(step, s[..k]).0 + [s[k]] + s[k + 1..] == MapOrStop(step, s[..k]).0 + s[k..];
    }
  }

  /** When every step succeeds, the whole pass succeeds and gives each
      element its step's value. */
  lemma {:induction false} MapOrStopAllSucceed<A>(step: (nat, A) -> (A, bool), s: seq<A>)
    requires forall i :: 0 <= i < |s| ==> step(i, s[i]).1
    ensures MapOrStop(step, s).1
    ensures forall i :: 0 <= i < |s| ==> MapOrStop(step, s).0[i] == step(i, s[i]).0
    decreases |s|
  {
    if s != [] {
      var p := s[..|s| - 1];
      forall i | 0 <= i < |p| ensures step(i, p[i]).1 {
        assert p[i] == s[i];
      }
      MapOrStopAllSucceed(step, p);
      var i := |s| - 1;
      assert MapOrStop(step, s).0 == MapOrStop(step, p).0 + [step(i, s[i]).0];
    }
  }

  /** A successful pass had every step succeed, and gives each element its
      step's value. */
  lemma {:induction false} MapOrStopSucceeded<A>(step: (nat, A) -> (A, bool), s: seq<A>)
    requires MapOrStop(step, s).1
    ensures forall i :: 0 <= i < |s| ==> step(i, s[i]).1
    ensures forall i :: 0 <= i < |s| ==> MapOrStop(step, s).0[i] == step(i, s[i]).0
    decreases |s|
  {
    if s != [] {
      var p := s[..|s| - 1];
      assert forall i :: 0 <= i < |p| ==> p[i] == s[i];
      MapOrStopSucceeded(step, p);
    }
  }
}
