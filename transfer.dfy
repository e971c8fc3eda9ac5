/** Grid-to-grid transfer of T and Hw (algorithms/methods.py and
    algorithms/kdtree.py): every node (or face) of the new grid takes the
    values of the nearest node (or face centroid) of the old grid.

    The source asks a KD-tree for the nearest point. Here the query is the
    first index of least squared distance, which is what a nearest-point
    query reports up to the choice among equally near points. */
module Transfer {
  import opened Util
  import opened Geom
  import opened Records
  import opened MeshSpec
  import opened Meshes

  // ---------------------------------------------------------------------
  // The nearest-point query

  /** The squared Euclidean distance between two points. */
  function SqDist(a: Vec, b: Vec): real {
    Dot(Sub(a, b), Sub(a, b))
  }

  /** A point is at distance zero from itself. */
  lemma SqDistSelf(a: Vec)
    ensures SqDist(a, a) == 0.0
  {
    assert Sub(a, a) == Zero;
  }

  /** No two points are at a negative distance. */
  lemma SqDistNonNegative(a: Vec, b: Vec)
    ensures SqDist(a, b) >= 0.0
  {
    DotSelf(Sub(a, b), Sub(a, b));
  }

  /** Distinct points are at a positive distance. */
  lemma SqDistPositive(a: Vec, b: Vec)
    ensures a != b ==> SqDist(a, b) > 0.0
  {
    if a != b {
      assert Sub(a, b) != Zero;
      DotSelf(Sub(a, b), Sub(a, b));
    }
  }

  /** A point no farther from `c` than `c` itself is `c`. */
  lemma SqDistZero(a: Vec, c: Vec)
    requires SqDist(a, c) <= SqDist(c, c)
    ensures a == c
  {
    SqDistSelf(c);
    SqDistPositive(a, c);
  }

  /** `i` is what the query reports for `p`: no point is nearer, and every
      point before `i` is strictly farther. */
  ghost predicate IsNearest(pts: seq<Vec>, p: Vec, i: nat) {
    i < |pts| &&
    (forall j :: 0 <= j < |pts| ==> SqDist(pts[i], p) <= SqDist(pts[j], p)) &&
    (forall j :: 0 <= j < i ==> SqDist(pts[i], p) < SqDist(pts[j], p))
  }

  /** kdtree.query(p)[1]: the index of the nearest point, the first one
      among equally near points. */
  function Nearest(pts: seq<Vec>, p: Vec): (i: nat)
    requires |pts| > 0
    ensures IsNearest(pts, p, i)
    decreases |pts|
  {
    if |pts| == 1 then 0
    else
      var k := Nearest(pts[..|pts| - 1], p);
      var last := |pts| - 1;
      if SqDist(pts[last], p) < SqDist(pts[k], p) then last else k
  }

  /** The query's answer is the only index with the nearest-point property. */
  lemma NearestUnique(pts: seq<Vec>, p: Vec, i: nat)
    requires |pts| > 0
    ensures IsNearest(pts, p, i) <==> i == Nearest(pts, p)
  {
  }

  /** No two points coincide. */
  ghost predicate Distinct(pts: seq<Vec>) {
    forall i, j :: 0 <= i < j < |pts| ==> pts[i] != pts[j]
  }

  /** A query at one of the points themselves finds that point when the
      points are distinct. */
  lemma NearestExactHit(pts: seq<Vec>, j: nat)
    requires j < |pts| && Distinct(pts)
    ensures Nearest(pts, pts[j]) == j
  {
    var p := pts[j];
    var k := Nearest(pts, p);
    SqDistZero(pts[k], p);
  }

  // ---------------------------------------------------------------------
  // Copying T and Hw

  /** Map `a` agrees with map `b` at key `k`: both lack it, or both hold it
      with the same value. */
  predicate Agree(a: map<Field, real>, b: map<Field, real>, k: Field) {
    (k in a <==> k in b) && (k in a ==> a[k] == b[k])
  }

  /** `after` holds the T and Hw of `src` (a missing value, None in the
      source, is copied as missing) and every other field of `before`. */
  ghost predicate TakesTHw(after: map<Field, real>, src: map<Field, real>, before: map<Field, real>) {
    (forall k :: (k == T || k == Hw) ==> Agree(after, src, k)) &&
    (forall k :: k != T && k != Hw ==> Agree(after, before, k))
  }

  /** T and Hw copied from `src` into `before`, each as copy_field copies
      it. */
  function CopyTHw(before: map<Field, real>, src: map<Field, real>): (r: map<Field, real>)
    ensures TakesTHw(r, src, before)
  {
    CopyField(CopyField(before, src, T), src, Hw)
  }

  /** The positions of the nodes, as return_coordinates_as_a_ndim_array
      lists them. */
  function Positions(ns: seq<NodeRec>): (ps: seq<Vec>)
    ensures |ps| == |ns|
    ensures forall i :: 0 <= i < |ns| ==> ps[i] == ns[i].pos
  {
    seq(|ns|, i requires 0 <= i < |ns| => ns[i].pos)
  }

  /** The body of interpolate_'s loop for one new node: T and Hw of the old
      node nearest to it. A query against an empty old grid fails. */
  function CopyNearestNode(source: seq<NodeRec>, n: NodeRec): (r: (NodeRec, bool))
    ensures r.1 <==> |source| > 0
    ensures r.0 == n.(vals := r.0.vals)
    ensures !r.1 ==> r.0 == n
    ensures r.1 ==> TakesTHw(r.0.vals, source[Nearest(Positions(source), n.pos)].vals, n.vals)
  {
    if |source| == 0 then (n, false)
    else
      var src := source[Nearest(Positions(source), n.pos)].vals;
      (n.(vals := CopyTHw(n.vals, src)), true)
  }

  function CopyNearestStep(source: seq<NodeRec>): (nat, NodeRec) -> (NodeRec, bool) {
    (i: nat, n: NodeRec) => CopyNearestNode(source, n)
  }

  /** The pass over the new nodes changes only their T and Hw: positions,
      links and all other fields stay, and the node count is kept. */
  lemma {:induction false} CopyNearestOnlyValues(source: seq<NodeRec>, ns: seq<NodeRec>)
    ensures var r := MapOrStop(CopyNearestStep(source), ns).0;
      |r| == |ns| &&
      forall i :: 0 <= i < |ns| ==>
        r[i] == ns[i].(vals := r[i].vals) &&
        (forall k :: k != T && k != Hw ==> Agree(r[i].vals, ns[i].vals, k))
    decreases |ns|
  {
    if ns != [] {
      var p := ns[..|ns| - 1];
      CopyNearestOnlyValues(source, p);
      var r := MapOrStop(CopyNearestStep(source), ns).0;
      var rp := MapOrStop(CopyNearestStep(source), p).0;
      assert r[..|p|] == rp;
      forall i | 0 <= i < |ns|
        ensures r[i] == ns[i].(vals := r[i].vals)
        ensures forall k :: k != T && k != Hw ==> Agree(r[i].vals, ns[i].vals, k)
      {
        if i < |p| {
          assert r[i] == rp[i] && p[i] == ns[i];
        }
      }
    }
  }

  /** When every new node sits exactly on one of the distinct old nodes,
      each new node receives precisely that old node's T and Hw. */
  lemma ExactCopy(source: seq<NodeRec>, ns: seq<NodeRec>, at: seq<nat>)
    requires |source| > 0 && Distinct(Positions(source))
    requires |at| == |ns|
    requires forall i :: 0 <= i < |ns| ==> at[i] < |source| && ns[i].pos == source[at[i]].pos
    ensures MapOrStop(CopyNearestStep(source), ns).1
    ensures var r := MapOrStop(CopyNearestStep(source), ns).0;
      forall i :: 0 <= i < |ns| ==>
        Agree(r[i].vals, source[at[i]].vals, T) && Agree(r[i].vals, source[at[i]].vals, Hw)
  {
    var step := CopyNearestStep(source);
    forall i | 0 <= i < |ns|
      ensures step(i, ns[i]).1
    {
    }
    MapOrStopAllSucceed(step, ns);
    forall i | 0 <= i < |ns|
      ensures Nearest(Positions(source), ns[i].pos) == at[i]
    {
      NearestExactHit(Positions(source), at[i]);
    }
  }

  /** If every old node carries T = t and Hw = h, the pass over a new grid
      succeeds and every new node carries them too. */
  lemma CopyNearestUniform(source: seq<NodeRec>, ns: seq<NodeRec>, t: real, h: real)
    requires |source| > 0 && UniformNodes(source, t, h)
    ensures MapOrStop(CopyNearestStep(source), ns).1
    ensures UniformNodes(MapOrStop(CopyNearestStep(source), ns).0, t, h)
  {
    var step := CopyNearestStep(source);
    forall i | 0 <= i < |ns|
      ensures step(i, ns[i]).1
    {
    }
    MapOrStopAllSucceed(step, ns);
    var r := MapOrStop(step, ns).0;
    forall v | 0 <= v < |r|
      ensures T in r[v].vals && Hw in r[v].vals && r[v].vals[T] == t && r[v].vals[Hw] == h
    {
      var src := source[Nearest(Positions(source), ns[v].pos)].vals;
      assert Agree(r[v].vals, src, T) && Agree(r[v].vals, src, Hw);
    }
  }

  /** interpolate_ (algorithms/methods.py, algorithms/kdtree.py): every new
      node takes T and Hw of the nearest old node; the old grid is read only. */
  method InterpolateNodes(oldGrid: Mesh, newGrid: Mesh) returns (ok: bool)
    requires oldGrid != newGrid
    requires newGrid.Valid()
    modifies newGrid
    ensures newGrid.Valid() && newGrid.edges == old(newGrid.edges) && newGrid.faces == old(newGrid.faces)
    ensures (newGrid.nodes, ok) == MapOrStop(CopyNearestStep(oldGrid.nodes), old(newGrid.nodes))
  {
    ok := newGrid.MapNodes(CopyNearestStep(oldGrid.nodes));
  }

  // ---------------------------------------------------------------------
  // interpolate: faces to nodes, nodes to nodes, nodes to faces

  /** The state interpolate leaves behind: the old grid's nodes, the new
      grid's nodes and faces, and whether every step went through. */
  datatype Interpolation = Interpolation(oldNodes: seq<NodeRec>, newNodes: seq<NodeRec>,
                                         newFaces: seq<FaceRec>, ok: bool)

  /** The three passes of interpolate in order; a pass that fails ends it. */
  function Interpolated(on: seq<NodeRec>, of: seq<FaceRec>, nn: seq<NodeRec>, nf: seq<FaceRec>): Interpolation {
    var (on1, ok1) := MapOrStop(FacesToNodesStep(of), on);
    if !ok1 then Interpolation(on1, nn, nf, false)
    else
      var (nn1, ok2) := MapOrStop(CopyNearestStep(on1), nn);
      if !ok2 then Interpolation(on1, nn1, nf, false)
      else
        var (nf1, ok3) := MapOrStop(NodesToFacesStep(nn1), nf);
        Interpolation(on1, nn1, nf1, ok3)
  }

  /** interpolate: old grid faces to nodes, nearest-node copy, new grid
      nodes to faces. The old grid's faces and both grids' edges stay. */
  method Interpolate(oldGrid: Mesh, newGrid: Mesh) returns (ok: bool)
    requires oldGrid != newGrid
    requires oldGrid.Valid() && newGrid.Valid()
    modifies oldGrid, newGrid
    ensures oldGrid.Valid() && newGrid.Valid()
    ensures oldGrid.edges == old(oldGrid.edges) && oldGrid.faces == old(oldGrid.faces) && newGrid.edges == old(newGrid.edges)
    ensures Interpolation(oldGrid.nodes, newGrid.nodes, newGrid.faces, ok) ==
            Interpolated(old(oldGrid.nodes), old(oldGrid.faces), old(newGrid.nodes), old(newGrid.faces))
  {
    ok := oldGrid.RelocateFacesToNodes();
    if !ok {
      return;
    }
    ok := InterpolateNodes(oldGrid, newGrid);
    if !ok {
      return;
    }
    ok := newGrid.RelocateNodesToFaces();
  }

  /** A new grid whose faces have three nodes in range. */
  ghost predicate Triangles(ns: seq<NodeRec>, fs: seq<FaceRec>) {
    (forall f :: 0 <= f < |fs| ==> |fs[f].nodes| >= 3) &&
    (forall f, k :: 0 <= f < |fs| && 0 <= k < |fs[f].nodes| ==> fs[f].nodes[k] < |ns|)
  }

  /** A uniform T and Hw on the old grid's faces comes through interpolate
      unchanged: it succeeds and every new face carries the same values. */
  lemma InterpolateUniform(on: seq<NodeRec>, of: seq<FaceRec>, nn: seq<NodeRec>, nf: seq<FaceRec>,
                           t: real, h: real)
    requires |on| > 0 && RelocatableMesh(on, of) && UniformFaces(of, t, h)
    requires Triangles(nn, nf)
    ensures Interpolated(on, of, nn, nf).ok
    ensures UniformFaces(Interpolated(on, of, nn, nf).newFaces, t, h)
  {
    FacesToNodesUniform(on, of, t, h);
    var on1 := MapOrStop(FacesToNodesStep(of), on).0;
    CopyNearestUniform(on1, nn, t, h);
    var nn1 := MapOrStop(CopyNearestStep(on1), nn).0;
    NodesToFacesUniform(nn1, nf, t, h);
  }

  /** interpolate writes only T and Hw of the new grid's nodes: their
      positions, links and other fields are those they had before. */
  lemma InterpolateKeepsNewNodes(on: seq<NodeRec>, of: seq<FaceRec>, nn: seq<NodeRec>, nf: seq<FaceRec>)
    ensures var r := Interpolated(on, of, nn, nf).newNodes;
      |r| == |nn| &&
      forall i :: 0 <= i < |nn| ==>
        r[i] == nn[i].(vals := r[i].vals) &&
        (forall k :: k != T && k != Hw ==> Agree(r[i].vals, nn[i].vals, k))
  {
    var on1 := MapOrStop(FacesToNodesStep(of), on).0;
    CopyNearestOnlyValues(on1, nn);
  }

  // ---------------------------------------------------------------------
  // face_centered_interpolation

  /** The aux nodes' coordinates, as return_aux_nodes_as_a_ndim_array lists
      them; None when a face has no aux coordinates. */
  function AuxPoints(fs: seq<FaceRec>): (r: Option<seq<Vec>>)
    ensures r.Some? <==> forall i :: 0 <= i < |fs| ==> fs[i].aux.Some?
    ensures r.Some? ==> |r.value| == |fs| && forall i :: 0 <= i < |fs| ==> r.value[i] == fs[i].aux.value
    decreases |fs|
  {
    if fs == [] then Some([])
    else
      var last := fs[|fs| - 1];
      match AuxPoints(fs[..|fs| - 1])
      case None => None
      case Some(ps) => if last.aux.Some? then Some(ps + [last.aux.value]) else None
  }

  /** The body of face_centered_interpolation's loop for one new face: T and
      Hw of the old face whose aux node is nearest to this face's aux node.
      The query fails on an empty old grid or a missing aux node. */
  function CopyNearestFace(source: seq<FaceRec>, f: FaceRec): (r: (FaceRec, bool))
    ensures r.1 <==> |source| > 0 && AuxPoints(source).Some? && f.aux.Some?
    ensures r.0 == f.(vals := r.0.vals)
    ensures !r.1 ==> r.0 == f
    ensures r.1 ==> TakesTHw(r.0.vals, source[Nearest(AuxPoints(source).value, f.aux.value)].vals, f.vals)
  {
    match AuxPoints(source)
    case None => (f, false)
    case Some(pts) =>
      if |source| == 0 || f.aux.None? then (f, false)
      else
        var src := source[Nearest(pts, f.aux.value)].vals;
        (f.(vals := CopyTHw(f.vals, src)), true)
  }

  function CopyNearestFaceStep(source: seq<FaceRec>): (nat, FaceRec) -> (FaceRec, bool) {
    (i: nat, f: FaceRec) => CopyNearestFace(source, f)
  }

  /** The state face_centered_interpolation leaves behind: both grids'
      faces and whether every step went through. */
  datatype FaceTransfer = FaceTransfer(oldFaces: seq<FaceRec>, newFaces: seq<FaceRec>, ok: bool)

  /** The steps of face_centered_interpolation in order: the old grid's
      centroids, the new grid's centroids, the nearest-face copy. */
  function FaceCentered(on: seq<NodeRec>, of: seq<FaceRec>, nn: seq<NodeRec>, nf: seq<FaceRec>): FaceTransfer {
    var (of1, ok1) := MapOrStop(AuxNodesStep(on), of);
    if !ok1 then FaceTransfer(of1, nf, false)
    else
      var (nf1, ok2) := MapOrStop(AuxNodesStep(nn), nf);
      if !ok2 then FaceTransfer(of1, nf1, false)
      else
        var (nf2, ok3) := MapOrStop(CopyNearestFaceStep(of1), nf1);
        FaceTransfer(of1, nf2, ok3)
  }

  /** face_centered_interpolation: both grids' nodes and edges stay. */
  method FaceCenteredInterpolation(oldGrid: Mesh, newGrid: Mesh) returns (ok: bool)
    requires oldGrid != newGrid
    requires oldGrid.Valid() && newGrid.Valid()
    modifies oldGrid, newGrid
    ensures oldGrid.Valid() && newGrid.Valid()
    ensures oldGrid.nodes == old(oldGrid.nodes) && oldGrid.edges == old(oldGrid.edges)
    ensures newGrid.nodes == old(newGrid.nodes) && newGrid.edges == old(newGrid.edges)
    ensures FaceTransfer(oldGrid.faces, newGrid.faces, ok) ==
            FaceCentered(old(oldGrid.nodes), old(oldGrid.faces), old(newGrid.nodes), old(newGrid.faces))
  {
    ok := oldGrid.ComputeAuxNodes();
    if !ok {
      return;
    }
    ok := newGrid.ComputeAuxNodes();
    if !ok {
      return;
    }
    ok := newGrid.MapFaces(CopyNearestFaceStep(oldGrid.faces));
  }

  /** Every face of `fs` has a centroid over `ns`. */
  ghost predicate HasCentroids(ns: seq<NodeRec>, fs: seq<FaceRec>) {
    forall f :: 0 <= f < |fs| ==> Centroid(ns, fs[f]).Some?
  }

  /** After a successful centroid pass every face has its aux node, and
      nothing but the aux node has changed. */
  lemma AuxNodesSet(ns: seq<NodeRec>, fs: seq<FaceRec>)
    requires HasCentroids(ns, fs)
    ensures MapOrStop(AuxNodesStep(ns), fs).1
    ensures var r := MapOrStop(AuxNodesStep(ns), fs).0;
      forall f :: 0 <= f < |fs| ==> r[f] == fs[f].(aux := Centroid(ns, fs[f])) && r[f].aux.Some?
  {
    MapOrStopAllSucceed(AuxNodesStep(ns), fs);
  }

  /** A uniform T and Hw on the old grid's faces comes through
      face_centered_interpolation: when both grids' faces have centroids it
      succeeds and every new face carries the same values. */
  lemma FaceCenteredUniform(on: seq<NodeRec>, of: seq<FaceRec>, nn: seq<NodeRec>, nf: seq<FaceRec>,
                            t: real, h: real)
    requires |of| > 0 && UniformFaces(of, t, h)
    requires HasCentroids(on, of) && HasCentroids(nn, nf)
    ensures FaceCentered(on, of, nn, nf).ok
    ensures UniformFaces(FaceCentered(on, of, nn, nf).newFaces, t, h)
  {
    AuxNodesSet(on, of);
    AuxNodesSet(nn, nf);
    var of1 := MapOrStop(AuxNodesStep(on), of).0;
    var nf1 := MapOrStop(AuxNodesStep(nn), nf).0;
    assert UniformFaces(of1, t, h) by {
      forall f | 0 <= f < |of1|
        ensures of1[f].vals == of[f].vals
      {
      }
    }
    var step := CopyNearestFaceStep(of1);
    forall i | 0 <= i < |nf1|
      ensures step(i, nf1[i]).1
    {
    }
    MapOrStopAllSucceed(step, nf1);
    var r := MapOrStop(step, nf1).0;
    var pts := AuxPoints(of1).value;
    forall v | 0 <= v < |r|
      ensures T in r[v].vals && Hw in r[v].vals && r[v].vals[T] == t && r[v].vals[Hw] == h
    {
      var src := of1[Nearest(pts, nf1[v].aux.value)].vals;
      assert Agree(r[v].vals, src, T) && Agree(r[v].vals, src, Hw);
    }
  }

  /** A new face whose aux node sits exactly on the aux node of one of the
      old faces, whose aux nodes are distinct, takes that face's T and Hw. */
  lemma FaceExactHit(source: seq<FaceRec>, f: FaceRec, j: nat)
    requires j < |source| && AuxPoints(source).Some? && Distinct(AuxPoints(source).value)
    requires f.aux == source[j].aux
    ensures CopyNearestFace(source, f).1
    ensures Agree(CopyNearestFace(source, f).0.vals, source[j].vals, T)
    ensures Agree(CopyNearestFace(source, f).0.vals, source[j].vals, Hw)
  {
    NearestExactHit(AuxPoints(source).value, j);
  }
}
