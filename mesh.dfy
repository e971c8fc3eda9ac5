/** The Grid class shared, with small differences, by triangular_grid/grid.py,
    _grid/grid.py and grid/grid.py: lists of nodes, edges and faces that
    refer to each other, updated in place. Records refer to each other by
    their position in the lists (`NodeRec.faces` holds face positions, and
    so on). */
module Meshes {
  import opened Util
  import opened Geom
  import opened Records
  import opened MeshSpec

  /** What get_number_of_components gives back: the number of components,
      None after 999 rounds, or an AssertionError. */
  datatype Components = Count(k: nat) | NoResult | Fails

  class Mesh {
    var nodes: seq<NodeRec>
    var edges: seq<EdgeRec>
    var faces: seq<FaceRec>

    /** Every stored link is in range and recorded on both sides. */
    ghost predicate Valid()
      reads this
    {
      LinkedMesh(nodes, edges, faces)
    }

    constructor ()
      ensures Valid()
      ensures nodes == [] && edges == [] && faces == []
    {
      nodes, edges, faces := [], [], [];
    }

    // -------------------------------------------------------------------
    // Links

    /** link_face_and_node of grid/grid.py: both lists grow, unchecked. */
    method LinkFaceAndNodeUnchecked(f: nat, n: nat)
      requires Valid() && f < |faces| && n < |nodes|
      modifies this
      ensures Valid() && edges == old(edges)
      ensures nodes == old(nodes)[n := old(nodes)[n].(faces := old(nodes)[n].faces + [f])]
      ensures faces == old(faces)[f := old(faces)[f].(nodes := old(faces)[f].nodes + [n])]
    {
      LinkFaceNodeKeepsLinked(nodes, edges, faces, f, n);
      nodes := nodes[n := nodes[n].(faces := nodes[n].faces + [f])];
      faces := faces[f := faces[f].(nodes := faces[f].nodes + [n])];
    }

    /** link_face_and_node of triangular_grid/ and _grid/: a face with three
        nodes is refused (AssertionError) and nothing changes. */
    method LinkFaceAndNode(f: nat, n: nat) returns (ok: bool)
      requires Valid() && f < |faces| && n < |nodes|
      modifies this
      ensures Valid() && edges == old(edges)
      ensures ok <==> |old(faces)[f].nodes| < 3
      ensures ok ==> nodes == old(nodes)[n := old(nodes)[n].(faces := old(nodes)[n].faces + [f])]
      ensures ok ==> faces == old(faces)[f := old(faces)[f].(nodes := old(faces)[f].nodes + [n])]
      ensures !ok ==> nodes == old(nodes) && faces == old(faces)
    {
      if |faces[f].nodes| >= 3 {
        return false;
      }
      LinkFaceAndNodeUnchecked(f, n);
      ok := true;
    }

    /** link_node_and_edge of grid/grid.py: both lists grow, unchecked. */
    method LinkNodeAndEdgeUnchecked(n: nat, e: nat)
      requires Valid() && n < |nodes| && e < |edges|
      modifies this
      ensures Valid() && faces == old(faces)
      ensures nodes == old(nodes)[n := old(nodes)[n].(edges := old(nodes)[n].edges + [e])]
      ensures edges == old(edges)[e := old(edges)[e].(nodes := old(edges)[e].nodes + [n])]
    {
      LinkNodeEdgeKeepsLinked(nodes, edges, faces, n, e);
      nodes := nodes[n := nodes[n].(edges := nodes[n].edges + [e])];
      edges := edges[e := edges[e].(nodes := edges[e].nodes + [n])];
    }

    /** link_node_and_edge of triangular_grid/ and _grid/: an edge with two
        nodes is refused and nothing changes. */
    method LinkNodeAndEdge(n: nat, e: nat) returns (ok: bool)
      requires Valid() && n < |nodes| && e < |edges|
      modifies this
      ensures Valid() && faces == old(faces)
      ensures ok <==> |old(edges)[e].nodes| < 2
      ensures ok ==> nodes == old(nodes)[n := old(nodes)[n].(edges := old(nodes)[n].edges + [e])]
      ensures ok ==> edges == old(edges)[e := old(edges)[e].(nodes := old(edges)[e].nodes + [n])]
      ensures !ok ==> nodes == old(nodes) && edges == old(edges)
    {
      if |edges[e].nodes| >= 2 {
        return false;
      }
      LinkNodeAndEdgeUnchecked(n, e);
      ok := true;
    }

    /** link_face_and_edge of grid/grid.py: both lists grow, unchecked and
        possibly with repeats. */
    method LinkFaceAndEdgeUnchecked(f: nat, e: nat)
      requires Valid() && f < |faces| && e < |edges|
      modifies this
      ensures Valid() && nodes == old(nodes)
      ensures faces == old(faces)[f := old(faces)[f].(edges := old(faces)[f].edges + [e])]
      ensures edges == old(edges)[e := old(edges)[e].(faces := old(edges)[e].faces + [f])]
    {
      LinkFaceEdgeKeepsLinked(nodes, edges, faces, f, e, faces[f].edges + [e], edges[e].faces + [f]);
      faces := faces[f := faces[f].(edges := faces[f].edges + [e])];
      edges := edges[e := edges[e].(faces := edges[e].faces + [f])];
    }

    /** link_face_and_edge of triangular_grid/ and _grid/: refused when the
        face has three edges or the edge two faces; otherwise each side gains
        the other unless it already holds it, so no list gets a repeat. */
    method LinkFaceAndEdge(f: nat, e: nat) returns (ok: bool)
      requires Valid() && f < |faces| && e < |edges|
      modifies this
      ensures Valid() && nodes == old(nodes)
      ensures ok <==> |old(faces)[f].edges| < 3 && |old(edges)[e].faces| < 2
      ensures ok ==> faces == old(faces)[f := old(faces)[f].(edges := AddNew(old(faces)[f].edges, e))]
      ensures ok ==> edges == old(edges)[e := old(edges)[e].(faces := AddNew(old(edges)[e].faces, f))]
      ensures !ok ==> faces == old(faces) && edges == old(edges)
    {
      if |faces[f].edges| >= 3 || |edges[e].faces| >= 2 {
        return false;
      }
      var fe := if e in faces[f].edges then faces[f].edges else faces[f].edges + [e];
      var ef := if f in edges[e].faces then edges[e].faces else edges[e].faces + [f];
      LinkFaceEdgeKeepsLinked(nodes, edges, faces, f, e, fe, ef);
      faces := faces[f := faces[f].(edges := fe)];
      edges := edges[e := edges[e].(faces := ef)];
      ok := true;
    }

    // -------------------------------------------------------------------
    // Appending records (`grid.Nodes.append`, `grid.Edges.append`, ...)

    /** Appends a node that has no links yet. */
    method AppendNode(n: NodeRec)
      requires Valid() && n.faces == [] && n.edges == []
      modifies this
      ensures Valid() && edges == old(edges) && faces == old(faces)
      ensures nodes == old(nodes) + [n]
    {
      AppendNodeKeepsLinked(nodes, edges, faces, n);
      nodes := nodes + [n];
    }

    /** Appends an edge that has no links yet. */
    method AppendEdge(e: EdgeRec)
      requires Valid() && e.nodes == [] && e.faces == []
      modifies this
      ensures Valid() && nodes == old(nodes) && faces == old(faces)
      ensures edges == old(edges) + [e]
    {
      AppendEdgeKeepsLinked(nodes, edges, faces, e);
      edges := edges + [e];
    }

    /** Appends a face that has no links yet. */
    method AppendFace(f: FaceRec)
      requires Valid() && f.nodes == [] && f.edges == []
      modifies this
      ensures Valid() && nodes == old(nodes) && edges == old(edges)
      ensures faces == old(faces) + [f]
    {
      AppendFaceKeepsLinked(nodes, edges, faces, f);
      faces := faces + [f];
    }

    // -------------------------------------------------------------------
    // Edge lookup

    /** is_edge_present of triangular_grid/ and _grid/: the first edge of
        n1 that holds n2, or None. */
    method IsEdgePresent(n1: nat, n2: nat) returns (r: Option<nat>)
      requires Valid() && n1 < |nodes|
      ensures r == FirstEdgeWith(edges, nodes[n1].edges, n2)
    {
      var list := nodes[n1].edges;
      var i := 0;
      while i < |list|
        invariant 0 <= i <= |list|
        invariant FirstEdgeWith(edges, list, n2) == FirstEdgeWith(edges, list[i..], n2)
      {
        if n2 in edges[list[i]].nodes {
          return Some(list[i]);
        }
        assert list[i..][1..] == list[i + 1..];
        i := i + 1;
      }
      return None;
    }

    /** is_edge_present of grid/grid.py as written: both branches of the
        test return, so only n1's first edge is looked at. */
    method IsEdgePresentFirstOnly(n1: nat, n2: nat) returns (r: EdgeLookup)
      requires Valid() && n1 < |nodes|
      ensures r == FirstEdgeOnly(edges, nodes[n1].edges, n2)
    {
      var list := nodes[n1].edges;
      if |list| == 0 {
        return Absent;
      }
      var e := edges[list[0]];
      if |e.nodes| == 0 {
        return IndexFault;
      } else if e.nodes[0] == n2 {
        return Found(list[0]);
      } else if |e.nodes| == 1 {
        return IndexFault;
      } else if e.nodes[1] == n2 {
        return Found(list[0]);
      }
      return Absent;
    }

    // -------------------------------------------------------------------
    // set_nodes_and_faces

    /** Links face `fi`, still without nodes, to the three nodes of `o` in
        that order. */
    method LinkTriangle(fi: nat, o: seq<nat>)
      requires Valid() && fi < |faces| && faces[fi].nodes == []
      requires |o| == 3 && o[0] < |nodes| && o[1] < |nodes| && o[2] < |nodes|
      modifies this
      ensures Valid() && edges == old(edges)
      ensures faces == old(faces)[fi := old(faces)[fi].(nodes := o)]
      ensures nodes == WithOcc(old(nodes), o, fi)
    {
      // three calls of link_face_and_node; the face is new, so the
      // three-node check of the checked variant cannot refuse any of them
      LinkThreeNodes(nodes, o, fi);
      LinkTriangleKeepsLinked(nodes, edges, faces, fi, o);
      nodes := AddFaceToNode(AddFaceToNode(AddFaceToNode(nodes, o[0], fi), o[1], fi), o[2], fi);
      faces := faces[fi := faces[fi].(nodes := o)];
    }

    /** Appends one node per point, numbered by position in `ps` in
        triangular_grid/ only. */
    method AddNodes(ps: seq<Vec>, v: Variant)
      requires Valid()
      modifies this
      ensures Valid() && edges == old(edges) && faces == old(faces)
      ensures nodes == old(nodes) + NewNodes(ps, v)
    {
      var j := 0;
      while j < |ps|
        invariant 0 <= j <= |ps|
        invariant Valid() && edges == old(edges) && faces == old(faces)
        invariant nodes == old(nodes) + NewNodes(ps, v)[..j]
      {
        var n := NewNode(ps[j], if v == TriangularGrid then Some(j) else None);
        AppendNodeKeepsLinked(nodes, edges, faces, n);
        nodes := nodes + [n];
        j := j + 1;
      }
      assert NewNodes(ps, v)[..j] == NewNodes(ps, v);
    }

    /** Appends face `i` for `row` and links it to the resolved nodes `o`. */
    method AddTriangle(i: nat, row: (int, int, int), o: seq<nat>)
      requires Valid()
      requires |o| == 3 && o[0] < |nodes| && o[1] < |nodes| && o[2] < |nodes|
      modifies this
      ensures Valid() && edges == old(edges)
      ensures faces == old(faces) + [TriangleFace(i, row, o)]
      ensures nodes == WithOcc(old(nodes), o, |old(faces)|)
    {
      var f := NewFace(Some(i)).(nodesIds := [row.0 + 1, row.1 + 1, row.2 + 1]);
      ghost var fs0 := faces;
      AppendFaceKeepsLinked(nodes, edges, faces, f);
      faces := faces + [f];
      LinkTriangle(|faces| - 1, o);
      assert f.(nodes := o) == TriangleFace(i, row, o);
      assert (fs0 + [f])[|fs0| := f.(nodes := o)] == fs0 + [f.(nodes := o)];
    }

    /** set_nodes_and_faces: one node per point of zip(x, y, z), then one
        face per triangle row, with Id i and nodes_ids = row + 1, linked to
        its three nodes in the variant's order. A row entry outside the node
        list stops the construction (IndexError); the faces of the rows
        before it are kept, linked to their nodes. */
    method SetNodesAndFaces(xs: seq<real>, ys: seq<real>, zs: seq<real>, rows: seq<(int, int, int)>,
                            v: Variant) returns (ok: bool)
      requires Valid()
      modifies this
      ensures Valid() && edges == old(edges)
      ensures |nodes| == |old(nodes)| + |Zip3(xs, ys, zs)|
      ensures ok <==> ResolveRows(v, rows, |nodes|).Some?
      ensures ok ==>
        var base := old(nodes) + NewNodes(Zip3(xs, ys, zs), v);
        var orders := ResolveRows(v, rows, |base|).value;
        faces == old(faces) + TriangleFaces(rows, orders) &&
        forall u :: 0 <= u < |nodes| ==>
          nodes[u] == base[u].(faces := base[u].faces + FacesLinked(u, orders, |old(faces)|))
      ensures !ok ==>
        var base := old(nodes) + NewNodes(Zip3(xs, ys, zs), v);
        var k := ResolvedCount(v, rows, |base|);
        var done := ResolveRows(v, rows[..k], |base|);
        k < |rows| && done.Some? &&
        faces == old(faces) + TriangleFaces(rows[..k], done.value) &&
        forall u :: 0 <= u < |nodes| ==>
          nodes[u] == base[u].(faces := base[u].faces + FacesLinked(u, done.value, |old(faces)|))
    {
      AddNodes(Zip3(xs, ys, zs), v);
      ok := AddFaces(rows, v);
    }

    /** One round of the face loop: the face of row `i`, linked to `o`. */
    method AddRow(rows: seq<(int, int, int)>, i: nat, o: seq<nat>,
                  ghost base: seq<NodeRec>, ghost f0: seq<FaceRec>, ghost done: seq<seq<nat>>)
      requires Valid() && i == |done| < |rows|
      requires |o| == 3 && o[0] < |nodes| && o[1] < |nodes| && o[2] < |nodes|
      requires faces == f0 + TriangleFaces(rows[..i], done)
      requires nodes == AppendLinked(base, done, |f0|)
      modifies this
      ensures Valid() && edges == old(edges)
      ensures faces == f0 + TriangleFaces(rows[..i + 1], done + [o])
      ensures nodes == AppendLinked(base, done + [o], |f0|)
    {
      ghost var mid := nodes;
      AddTriangle(i, rows[i], o);
      TriangleFacesSnoc(rows, done, o);
      FacesLinkedStep(base, mid, nodes, done, o, |f0|);
    }

    /** The face loop of set_nodes_and_faces over the nodes already added. */
    method AddFaces(rows: seq<(int, int, int)>, v: Variant) returns (ok: bool)
      requires Valid()
      modifies this
      ensures Valid() && edges == old(edges) && |nodes| == |old(nodes)|
      ensures ok <==> ResolveRows(v, rows, |nodes|).Some?
      ensures ok ==>
        var orders := ResolveRows(v, rows, |nodes|).value;
        faces == old(faces) + TriangleFaces(rows, orders) &&
        nodes == AppendLinked(old(nodes), orders, |old(faces)|)
      ensures !ok ==>
        var k := ResolvedCount(v, rows, |nodes|);
        var done := ResolveRows(v, rows[..k], |nodes|);
        k < |rows| && done.Some? &&
        faces == old(faces) + TriangleFaces(rows[..k], done.value) &&
        nodes == AppendLinked(old(nodes), done.value, |old(faces)|)
    {
      ghost var base, f0, es := nodes, faces, edges;
      ghost var done: seq<seq<nat>> := [];
      AppendLinkedNone(base, |f0|);
      var i := 0;
      while i < |rows|
        invariant RowsAdded(rows, v, base, f0, es, i, done)
      {
        var r := AddRowAt(rows, v, i, base, f0, es, done);
        if r.None? {
          return false;
        }
        done := done + [r.value];
        i := i + 1;
      }
      assert rows[..i] == rows;
      ok := true;
    }

    /** The state of the face loop after the first i rows. */
    ghost predicate RowsAdded(rows: seq<(int, int, int)>, v: Variant, base: seq<NodeRec>, f0: seq<FaceRec>,
                              es: seq<EdgeRec>, i: nat, done: seq<seq<nat>>)
      reads this
    {
      Valid() && edges == es && |nodes| == |base| && i == |done| <= |rows| &&
      ResolveRows(v, rows[..i], |base|) == Some(done) &&
      faces == f0 + TriangleFaces(rows[..i], done) && nodes == AppendLinked(base, done, |f0|)
    }

    /** One round of the face loop: row i is resolved and, when it resolves,
        its face is added. */
    method AddRowAt(rows: seq<(int, int, int)>, v: Variant, i: nat, ghost base: seq<NodeRec>, ghost f0: seq<FaceRec>,
                    ghost es: seq<EdgeRec>, ghost done: seq<seq<nat>>) returns (r: Option<seq<nat>>)
      requires i < |rows| && RowsAdded(rows, v, base, f0, es, i, done)
      modifies this
      ensures r == ResolveRow(v, rows[i], |base|)
      ensures r.Some? ==> RowsAdded(rows, v, base, f0, es, i + 1, done + [r.value])
      ensures r.None? ==> RowsAdded(rows, v, base, f0, es, i, done) && ResolveRows(v, rows, |base|) == None &&
                          ResolvedCount(v, rows, |base|) == i
    {
      r := ResolveRow(v, rows[i], |nodes|);
      if r.None? {
        ResolveRowsNone(v, rows, i, |nodes|);
        ResolvedCountAt(v, rows, i, |nodes|);
        return;
      }
      AddRow(rows, i, r.value, base, f0, done);
      ResolveRowsSnoc(v, rows, i, |base|, done);
    }

    // -------------------------------------------------------------------
    // Passes over all nodes or all faces

    /** Runs `step` over the nodes in order, stopping at the first failure,
        as the source's `for n in self.Nodes` loops do. */
    method MapNodes(step: (nat, NodeRec) -> (NodeRec, bool)) returns (ok: bool)
      requires Valid()
      requires forall i: nat, n: NodeRec :: step(i, n).0.faces == n.faces && step(i, n).0.edges == n.edges
      modifies this
      ensures Valid() && edges == old(edges) && faces == old(faces)
      ensures (nodes, ok) == MapOrStop(step, old(nodes))
    {
      ghost var s, es, fs := nodes, edges, faces;
      var i := 0;
      while i < |nodes|
        invariant NodesMapped(step, s, es, fs, i)
      {
        ok := MapNodeAt(step, s, es, fs, i);
        if !ok {
          return;
        }
        i := i + 1;
      }
      assert s[..i] == s && nodes[..i] == nodes;
      ok := true;
    }

    /** The state of MapNodes after the first i nodes, all stepped
        successfully. */
    ghost predicate NodesMapped(step: (nat, NodeRec) -> (NodeRec, bool), s: seq<NodeRec>, es: seq<EdgeRec>,
                                fs: seq<FaceRec>, i: nat)
      reads this
    {
      Valid() && edges == es && faces == fs && i <= |nodes| == |s| &&
      MapOrStop(step, s[..i]) == (nodes[..i], true) && nodes[i..] == s[i..]
    }

    /** One round of MapNodes: node i is stepped. */
    method MapNodeAt(step: (nat, NodeRec) -> (NodeRec, bool), ghost s: seq<NodeRec>, ghost es: seq<EdgeRec>,
                     ghost fs: seq<FaceRec>, i: nat) returns (ok: bool)
      requires forall i: nat, n: NodeRec :: step(i, n).0.faces == n.faces && step(i, n).0.edges == n.edges
      requires NodesMapped(step, s, es, fs, i) && i < |nodes|
      modifies this
      ensures ok ==> NodesMapped(step, s, es, fs, i + 1)
      ensures !ok ==> Valid() && edges == es && faces == fs && (nodes, false) == MapOrStop(step, s)
    {
      var r := step(i, nodes[i]);
      MapOrStopStep(step, s, i);
      UpdateNodeKeepsLinked(nodes, edges, faces, i, r.0);
      nodes := nodes[i := r.0];
      assert nodes[..i + 1] == nodes[..i] + [r.0];
      ok := r.1;
      if !ok {
        MapOrStopAfterFail(step, s, i + 1);
        assert nodes == nodes[..i + 1] + s[i + 1..];
      }
    }

    /** Runs `step` over the faces in order, stopping at the first failure,
        as the source's `for f in self.Faces` loops do. */
    method MapFaces(step: (nat, FaceRec) -> (FaceRec, bool)) returns (ok: bool)
      requires Valid()
      requires forall i: nat, f: FaceRec :: step(i, f).0.nodes == f.nodes && step(i, f).0.edges == f.edges
      modifies this
      ensures Valid() && nodes == old(nodes) && edges == old(edges)
      ensures (faces, ok) == MapOrStop(step, old(faces))
    {
      ghost var s, ns, es := faces, nodes, edges;
      var i := 0;
      while i < |faces|
        invariant FacesMapped(step, s, ns, es, i)
      {
        ok := MapFaceAt(step, s, ns, es, i);
        if !ok {
          return;
        }
        i := i + 1;
      }
      assert s[..i] == s && faces[..i] == faces;
      ok := true;
    }

    /** The state of MapFaces after the first i faces, all stepped
        successfully. */
    ghost predicate FacesMapped(step: (nat, FaceRec) -> (FaceRec, bool), s: seq<FaceRec>, ns: seq<NodeRec>,
                                es: seq<EdgeRec>, i: nat)
      reads this
    {
      Valid() && nodes == ns && edges == es && i <= |faces| == |s| &&
      MapOrStop(step, s[..i]) == (faces[..i], true) && faces[i..] == s[i..]
    }

    /** One round of MapFaces: face i is stepped. */
    method MapFaceAt(step: (nat, FaceRec) -> (FaceRec, bool), ghost s: seq<FaceRec>, ghost ns: seq<NodeRec>,
                     ghost es: seq<EdgeRec>, i: nat) returns (ok: bool)
      requires forall i: nat, f: FaceRec :: step(i, f).0.nodes == f.nodes && step(i, f).0.edges == f.edges
      requires FacesMapped(step, s, ns, es, i) && i < |faces|
      modifies this
      ensures ok ==> FacesMapped(step, s, ns, es, i + 1)
      ensures !ok ==> Valid() && nodes == ns && edges == es && (faces, false) == MapOrStop(step, s)
    {
      var r := step(i, faces[i]);
      MapOrStopStep(step, s, i);
      UpdateFaceKeepsLinked(nodes, edges, faces, i, r.0);
      faces := faces[i := r.0];
      assert faces[..i + 1] == faces[..i] + [r.0];
      ok := r.1;
      if !ok {
        MapOrStopAfterFail(step, s, i + 1);
        assert faces == faces[..i + 1] + s[i + 1..];
      }
    }

    /** relocate_values_from_faces_to_nodes (triangular_grid/, _grid/):
        each node's T and Hw become the means over its faces. */
    method RelocateFacesToNodes() returns (ok: bool)
      requires Valid()
      modifies this
      ensures Valid() && edges == old(edges) && faces == old(faces)
      ensures (nodes, ok) == MapOrStop(FacesToNodesStep(old(faces)), old(nodes))
    {
      ok := MapNodes(FacesToNodesStep(faces));
    }

    /** relocate_values_from_nodes_to_faces (triangular_grid/, _grid/):
        each face's T and Hw become the means over its three nodes. */
    method RelocateNodesToFaces() returns (ok: bool)
      requires Valid()
      modifies this
      ensures Valid() && nodes == old(nodes) && edges == old(edges)
      ensures (faces, ok) == MapOrStop(NodesToFacesStep(old(nodes)), old(faces))
    {
      ok := MapFaces(NodesToFacesStep(nodes));
    }

    /** compute_aux_nodes: each face's aux node becomes its centroid. */
    method ComputeAuxNodes() returns (ok: bool)
      requires Valid()
      modifies this
      ensures Valid() && nodes == old(nodes) && edges == old(edges)
      ensures (faces, ok) == MapOrStop(AuxNodesStep(old(nodes)), old(faces))
    {
      ok := MapFaces(AuxNodesStep(nodes));
    }

    /** relocate_values_from_isomorphic_grid: face i takes T and Hw of the
        other grid's face i; the other grid may be this one. */
    method RelocateFromIsomorphic(other: Mesh) returns (ok: bool)
      requires Valid()
      modifies this
      ensures Valid() && nodes == old(nodes) && edges == old(edges)
      ensures (faces, ok) == MapOrStop(CopyFacesStep(old(other.faces)), old(faces))
    {
      ok := MapFaces(CopyFacesStep(other.faces));
    }

    /** set_aux_nodes_parameters: the array must have exactly one row; entry
        i of it becomes the named parameter of face i. */
    method SetAuxNodesParameters(values: seq<seq<real>>, name: string) returns (ok: bool)
      requires Valid()
      modifies this
      ensures Valid() && nodes == old(nodes) && edges == old(edges)
      ensures |values| != 1 ==> !ok && faces == old(faces)
      ensures |values| == 1 ==> (faces, ok) == MapOrStop(SetParamStep(values[0], name), old(faces))
    {
      if |values| != 1 {
        return false;
      }
      ok := MapFaces(SetParamStep(values[0], name));
    }

    /** relocate_values_from_faces_to_nodes(value) of grid/grid.py: one
        field; an unknown name does nothing. */
    method RelocateFacesToNodesNamed(name: string) returns (ok: bool)
      requires Valid()
      modifies this
      ensures Valid() && edges == old(edges) && faces == old(faces)
      ensures NamedField(name).None? ==> ok && nodes == old(nodes)
      ensures NamedField(name).Some? ==>
        (nodes, ok) == MapOrStop(FieldFacesToNodesStep(old(faces), NamedField(name).value), old(nodes))
    {
      var fld := NamedField(name);
      if fld.None? {
        return true;
      }
      ok := MapNodes(FieldFacesToNodesStep(faces, fld.value));
    }

    /** relocate_values_from_nodes_to_faces(value) of grid/grid.py: one
        field; an unknown name raises ValueError. */
    method RelocateNodesToFacesNamed(name: string) returns (ok: bool)
      requires Valid()
      modifies this
      ensures Valid() && nodes == old(nodes) && edges == old(edges)
      ensures NamedField(name).None? ==> !ok && faces == old(faces)
      ensures NamedField(name).Some? ==>
        (faces, ok) == MapOrStop(FieldNodesToFacesStep(old(nodes), NamedField(name).value), old(faces))
    {
      var fld := NamedField(name);
      if fld.None? {
        return false;
      }
      ok := MapFaces(FieldNodesToFacesStep(nodes, fld.value));
    }

    /** set_node_values of grid/grid.py: node i takes value i while both
        lists last; an unknown name raises ValueError. */
    method SetNodeValues(values: seq<real>, name: string) returns (ok: bool)
      requires Valid()
      modifies this
      ensures Valid() && edges == old(edges) && faces == old(faces)
      ensures ok <==> NamedField(name).Some?
      ensures !ok ==> nodes == old(nodes)
      ensures ok ==> nodes == MapOrStop(SetValuesStep(values, NamedField(name).value), old(nodes)).0
    {
      var fld := NamedField(name);
      if fld.None? {
        return false;
      }
      MapOrStopAllSucceed(SetValuesStep(values, fld.value), nodes);
      ok := MapNodes(SetValuesStep(values, fld.value));
    }

    /** Node.move applied to node v. */
    method MoveNode(v: nat, d: Vec)
      requires Valid() && v < |nodes|
      modifies this
      ensures Valid() && edges == old(edges) && faces == old(faces)
      ensures nodes == old(nodes)[v := Moved(old(nodes)[v], d)]
    {
      UpdateNodeKeepsLinked(nodes, edges, faces, v, Moved(nodes[v], d));
      nodes := nodes[v := Moved(nodes[v], d)];
    }

    // -------------------------------------------------------------------
    // Read-only queries

    /** is_isomprphic_to as written: equal node counts and equal degree
        lists in node order, because the sorted lists are discarded. What
        it accepts the documented sorted comparison accepts too. */
    method IsIsomorphicTo(other: Mesh) returns (b: bool)
      ensures b == IsomorphicAsWritten(nodes, other.nodes)
      ensures b ==> IsomorphicSorted(nodes, other.nodes)
    {
      if |nodes| != |other.nodes| {
        return false;
      }
      var degreesOld: seq<nat> := [];
      var degreesNew: seq<nat> := [];
      var i := 0;
      while i < |nodes|
        invariant 0 <= i <= |nodes| && |degreesOld| == i
        invariant forall j :: 0 <= j < i ==> degreesOld[j] == |nodes[j].edges|
      {
        degreesOld := degreesOld + [|nodes[i].edges|];
        i := i + 1;
      }
      i := 0;
      while i < |other.nodes|
        invariant 0 <= i <= |other.nodes| && |degreesNew| == i
        invariant forall j :: 0 <= j < i ==> degreesNew[j] == |other.nodes[j].edges|
      {
        degreesNew := degreesNew + [|other.nodes[i].edges|];
        i := i + 1;
      }
      assert degreesOld == Degrees(nodes) && degreesNew == Degrees(other.nodes);
      b := degreesNew == degreesOld;
      AsWrittenImpliesSorted(nodes, other.nodes);
    }

    /** return_paramenter_as_ndarray: the named parameter of every face,
        or nothing for a name other than 'T' and 'Hw'. */
    method ReturnParameter(name: string) returns (col: seq<Option<real>>)
      ensures col == ParamColumn(faces, name)
    {
      col := [];
      var i := 0;
      while i < |faces|
        invariant 0 <= i <= |faces|
        invariant ParamField(name).None? ==> col == []
        invariant ParamField(name).Some? ==>
          |col| == i && forall j :: 0 <= j < i ==> col[j] == Lookup(faces[j].vals, ParamField(name).value)
      {
        if name == "T" {
          col := col + [Lookup(faces[i].vals, T)];
        }
        if name == "Hw" {
          col := col + [Lookup(faces[i].vals, Hw)];
        }
        i := i + 1;
      }
    }

    // -------------------------------------------------------------------
    // Connected components

    /** depth_first_traversal: tags `v` and, recursively, every untagged
        node reachable from it with `c`. `open` is the path of nodes whose
        traversal is still running; they carry `c` already. Fails on an
        edge without exactly two nodes (AssertionError). */
    method DepthFirstTraversal(v: nat, c: nat, ghost open: set<nat>) returns (ok: bool)
      requires Valid() && v < |nodes| && Closed(nodes, edges, open)
      requires forall u :: u in open ==> u < |nodes| && nodes[u].component == Some(c)
      modifies this
      ensures Valid() && edges == old(edges) && faces == old(faces)
      ensures Tagged(old(nodes), nodes, c, c + 1)
      ensures NewlyReached(old(nodes), nodes, edges, v)
      ensures nodes[v].component.Some?
      ensures ok ==> Closed(nodes, edges, open)
      decreases Untagged(nodes), 4
    {
      if nodes[v].component.Some? {
        return true;
      }
      ok := TagAndVisit(v, c, open);
    }

    /** depth_first_traversal from an untagged node: tag it, then traverse
        from each of its neighbours. */
    method TagAndVisit(v: nat, c: nat, ghost open: set<nat>) returns (ok: bool)
      requires Valid() && v < |nodes| && nodes[v].component.None? && Closed(nodes, edges, open)
      requires forall u :: u in open ==> u < |nodes| && nodes[u].component == Some(c)
      modifies this
      ensures Valid() && edges == old(edges) && faces == old(faces)
      ensures Tagged(old(nodes), nodes, c, c + 1)
      ensures NewlyReached(old(nodes), nodes, edges, v)
      ensures nodes[v].component.Some?
      ensures ok ==> Closed(nodes, edges, open)
      decreases Untagged(nodes), 3
    {
      TagNode(v, c, open);
      ghost var tagged := nodes;
      ok := VisitFrom(v, c, open);
      TaggedAgain(old(nodes), tagged, nodes, c, c + 1);
      NewlyReachedTrans(old(nodes), tagged, nodes, edges, v, c, c + 1);
    }

    /** The rest of depth_first_traversal once v is tagged and on the open
        path: its neighbours are collected and traversed in turn. */
    method VisitFrom(v: nat, c: nat, ghost open: set<nat>) returns (ok: bool)
      requires Valid() && v < |nodes| && nodes[v].component == Some(c) && Closed(nodes, edges, open + {v})
      requires forall u :: u in open ==> u < |nodes| && nodes[u].component == Some(c)
      modifies this
      ensures Valid() && edges == old(edges) && faces == old(faces)
      ensures Tagged(old(nodes), nodes, c, c + 1)
      ensures NewlyReached(old(nodes), nodes, edges, v)
      ensures nodes[v].component.Some?
      ensures ok ==> Closed(nodes, edges, open)
      decreases Untagged(nodes) + 1, 2
    {
      var neighbours;
      ok, neighbours := Neighbours(v);
      if !ok {
        return false;
      }
      ok := VisitNeighbours(v, c, open, neighbours);
      if ok {
        CloseNode(nodes, edges, open, v, c);
      }
    }

    /** Tags the untagged node v with c and puts it on the open path. */
    method TagNode(v: nat, c: nat, ghost open: set<nat>)
      requires Valid() && v < |nodes| && nodes[v].component.None? && Closed(nodes, edges, open)
      modifies this
      ensures nodes == old(nodes)[v := old(nodes)[v].(component := Some(c))]
      ensures Valid() && edges == old(edges) && faces == old(faces)
      ensures Closed(nodes, edges, open + {v})
      ensures Tagged(old(nodes), nodes, c, c + 1) && NewlyReached(old(nodes), nodes, edges, v)
      ensures Untagged(nodes) + 1 == Untagged(old(nodes))
    {
      UntaggedTagOne(nodes, v, c);
      TagOneKeepsClosed(nodes, edges, faces, open, v, c);
      NewlyReachedTagOne(nodes, edges, v, c);
      assert Tagged(nodes, nodes[v := nodes[v].(component := Some(c))], c, c + 1);
      nodes := nodes[v := nodes[v].(component := Some(c))];
    }

    /** The loop of depth_first_traversal over the neighbours of `v`, which
        is tagged `c` and on the open path: traverses from each in turn and
        stops at the first failure. */
    method VisitNeighbours(v: nat, c: nat, ghost open: set<nat>, neighbours: seq<nat>) returns (ok: bool)
      requires Valid() && v < |nodes| && nodes[v].component == Some(c)
      requires |neighbours| == |nodes[v].edges|
      requires forall j :: 0 <= j < |neighbours| ==>
        |edges[nodes[v].edges[j]].nodes| == 2 && neighbours[j] == Other(edges[nodes[v].edges[j]], v)
      requires Closed(nodes, edges, open + {v})
      requires forall u :: u in open ==> u < |nodes| && nodes[u].component == Some(c)
      modifies this
      ensures Valid() && edges == old(edges) && faces == old(faces)
      ensures Tagged(old(nodes), nodes, c, c + 1)
      ensures NewlyReached(old(nodes), nodes, edges, v)
      ensures ok ==> Closed(nodes, edges, open + {v})
      ensures ok ==> forall j :: 0 <= j < |neighbours| ==> neighbours[j] < |nodes| && nodes[neighbours[j]].component == Some(c)
      decreases Untagged(nodes) + 1, 1
    {
      ghost var start, es, fs := nodes, edges, faces;
      assert forall j :: 0 <= j < |neighbours| ==> nodes[v].edges[j] < |edges| && neighbours[j] < |nodes|;
      var i := 0;
      while i < |neighbours|
        invariant Visiting(v, c, open, neighbours, i, start, es, fs)
      {
        ok := VisitOne(v, c, open, neighbours, i, start, es, fs);
        if !ok {
          return false;
        }
        i := i + 1;
      }
      ok := true;
    }

    /** The state of the neighbour loop of depth_first_traversal after i
        neighbours, starting from `start`. */
    ghost predicate Visiting(v: nat, c: nat, open: set<nat>, neighbours: seq<nat>, i: nat,
                             start: seq<NodeRec>, es: seq<EdgeRec>, fs: seq<FaceRec>)
      reads this
    {
      Valid() && edges == es && faces == fs && v < |nodes| && i <= |neighbours| == |nodes[v].edges| &&
      (forall j :: 0 <= j < |neighbours| ==>
        nodes[v].edges[j] < |edges| && |edges[nodes[v].edges[j]].nodes| == 2 &&
        neighbours[j] == Other(edges[nodes[v].edges[j]], v) && neighbours[j] < |nodes|) &&
      Tagged(start, nodes, c, c + 1) && NewlyReached(start, nodes, edges, v) &&
      Untagged(nodes) <= Untagged(start) &&
      nodes[v].component == Some(c) &&
      (forall u :: u in open ==> u < |nodes| && nodes[u].component == Some(c)) &&
      Closed(nodes, edges, open + {v}) &&
      (forall j :: 0 <= j < i ==> nodes[neighbours[j]].component == Some(c))
    }

    /** One round of the neighbour loop: the traversal from neighbour i. */
    method VisitOne(v: nat, c: nat, ghost open: set<nat>, neighbours: seq<nat>, i: nat,
                    ghost start: seq<NodeRec>, ghost es: seq<EdgeRec>, ghost fs: seq<FaceRec>) returns (ok: bool)
      requires i < |neighbours| && Visiting(v, c, open, neighbours, i, start, es, fs)
      modifies this
      ensures ok ==> Visiting(v, c, open, neighbours, i + 1, start, es, fs)
      ensures !ok ==> Valid() && edges == es && faces == fs &&
                      Tagged(start, nodes, c, c + 1) && NewlyReached(start, nodes, edges, v)
      decreases Untagged(nodes) + 1, 0
    {
      NeighbourTag(nodes, edges, open + {v}, v, i, c);
      ghost var before := nodes;
      ok := DepthFirstTraversal(neighbours[i], c, open + {v});
      TaggedAgain(start, before, nodes, c, c + 1);
      UntaggedMonotone(before, nodes, c, c + 1);
      NeighboursTagged(before, nodes, neighbours, i, c);
      OpenStaysTagged(before, nodes, open, c);
      assert Links(before)[v][i] == before[v].edges[i];
      NewlyReachedVia(before, nodes, edges, v, neighbours[i]);
      NewlyReachedTrans(start, before, nodes, edges, v, c, c + 1);
    }

    /** The other ends of v's edges, in order; fails (AssertionError) at an
        edge without exactly two nodes. */
    method Neighbours(v: nat) returns (ok: bool, neighbours: seq<nat>)
      requires Valid() && v < |nodes|
      ensures ok <==> forall j :: 0 <= j < |nodes[v].edges| ==> |edges[nodes[v].edges[j]].nodes| == 2
      ensures ok ==> |neighbours| == |nodes[v].edges|
      ensures ok ==> forall j :: 0 <= j < |neighbours| ==> neighbours[j] < |nodes|
      ensures ok ==> forall j :: 0 <= j < |neighbours| ==> neighbours[j] == Other(edges[nodes[v].edges[j]], v)
    {
      var es := nodes[v].edges;
      neighbours := [];
      var k := 0;
      while k < |es|
        invariant 0 <= k <= |es| && |neighbours| == k
        invariant forall j :: 0 <= j < k ==> |edges[es[j]].nodes| == 2 && neighbours[j] == Other(edges[es[j]], v)
        invariant forall j :: 0 <= j < k ==> neighbours[j] < |nodes|
      {
        var e := edges[es[k]];
        if |e.nodes| != 2 {
          return false, neighbours;
        }
        neighbours := neighbours + [if e.nodes[0] == v then e.nodes[1] else e.nodes[0]];
        k := k + 1;
      }
      ok := true;
    }

    /** get_number_of_components: tags the components 1, 2, ... by
        traversing from the first untagged node, and returns how many there
        are. An empty node list fails; after 999 rounds the answer is None. */
    method GetNumberOfComponents() returns (r: Components)
      requires Valid() && Closed(nodes, edges, {})
      modifies this
      ensures Valid() && edges == old(edges) && faces == old(faces)
      ensures |old(nodes)| == 0 ==> r == Fails
      ensures r.Count? ==>
        Tagged(old(nodes), nodes, 1, r.k + 1) &&
        (forall u :: 0 <= u < |nodes| ==> nodes[u].component.Some?) &&
        Closed(nodes, edges, {}) &&
        (forall t :: 1 <= t <= r.k ==> exists u :: 0 <= u < |nodes| && nodes[u].component == Some(t))
    {
      if |nodes| == 0 {
        return Fails;
      }
      var i := 1;
      while i < 1000
        invariant 1 <= i <= 1000
        invariant Valid() && edges == old(edges) && faces == old(faces)
        invariant Closed(nodes, edges, {})
        invariant Tagged(old(nodes), nodes, 1, i)
        invariant forall t :: 1 <= t < i ==> exists u :: 0 <= u < |nodes| && nodes[u].component == Some(t)
      {
        // the first untagged node, if any
        var ns := nodes;
        var j := 0;
        while j < |ns| && ns[j].component.Some?
          invariant 0 <= j <= |ns| && nodes == ns
          invariant forall q :: 0 <= q < j ==> ns[q].component.Some?
        {
          j := j + 1;
        }
        if j == |ns| {
          assert Tagged(old(nodes), nodes, 1, i - 1 + 1);
          assert forall u :: 0 <= u < |nodes| ==> nodes[u].component.Some?;
          assert forall t :: 1 <= t <= i - 1 ==> exists u :: 0 <= u < |nodes| && nodes[u].component == Some(t);
          return Count(i - 1);
        }
        ghost var before := nodes;
        var ok := DepthFirstTraversal(j, i, {});
        TaggedTrans(old(nodes), before, nodes, 1, i, i + 1);
        if !ok {
          return Fails;
        }
        forall t | 1 <= t < i + 1
          ensures exists u :: 0 <= u < |nodes| && nodes[u].component == Some(t)
        {
          if t == i {
            assert nodes[j].component == Some(i);
          } else {
            var u :| 0 <= u < |before| && before[u].component == Some(t);
            assert nodes[u].component == Some(t);
          }
        }
        i := i + 1;
      }
      return NoResult;
    }
  }
}
