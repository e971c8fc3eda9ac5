/** Putting a grid together from the zones a reader returns: merging the
    zones' node lists into one list without repeated points (tecplot/io.py,
    tecplot/reader.py, grid/tecplot.py), and `set_faces`, which links every
    face to its nodes and to one edge per pair of its nodes, creating the
    edges as it goes (the three readers and geom/geom_obj_generation.py).

    A zone's node list becomes, after merging, a list of positions in the
    grid's node list: in the source the zone list is overwritten with the
    grid's node objects, and a position is what identifies a node here. */
module Assembly {
  import opened Util
  import opened Geom
  import opened Records
  import opened MeshSpec
  import opened Meshes
  import opened Avl
  import opened Readers
  import Structured

  // ---------------------------------------------------------------------
  // Matching a zone node against the grid's nodes

  /** The tolerance of grid/tecplot.py (10e-5). */
  const EPS: real := 0.0001

  /** How a zone node is matched against a grid node: by equal coordinates
      (the AVL tree's find, over exact order), or by x and y each within
      EPS with z ignored (compose_node_list_algorithm_1). */
  datatype Matcher = Exact | Within

  /** Whether grid node point `a` matches zone node point `b`. */
  predicate Matches(m: Matcher, a: Vec, b: Vec) {
    match m
    case Exact => a == b
    case Within => Abs(a.x - b.x) <= EPS && Abs(a.y - b.y) <= EPS
  }

  /** The position of the first node that matches point `p`, or None. */
  function FirstMatch(m: Matcher, ns: seq<NodeRec>, p: Vec): (r: Option<nat>)
    ensures r.None? <==> forall k :: 0 <= k < |ns| ==> !Matches(m, ns[k].pos, p)
    ensures r.Some? ==> r.value < |ns| && Matches(m, ns[r.value].pos, p)
    ensures r.Some? ==> forall k :: 0 <= k < r.value ==> !Matches(m, ns[k].pos, p)
    decreases |ns|
  {
    if ns == [] then None
    else if Matches(m, ns[0].pos, p) then Some(0)
    else
      match FirstMatch(m, ns[1..], p)
      case None => None
      case Some(k) => Some(k + 1)
  }

  /** A first match stays the first match when nodes are appended. */
  lemma FirstMatchExtends(m: Matcher, a: seq<NodeRec>, c: seq<NodeRec>, p: Vec)
    requires |a| <= |c| && c[..|a|] == a
    requires FirstMatch(m, a, p).Some?
    ensures FirstMatch(m, c, p) == FirstMatch(m, a, p)
  {
    var k := FirstMatch(m, a, p).value;
    assert forall i :: 0 <= i < |a| ==> c[i] == a[i];
    assert Matches(m, c[k].pos, p);
    var j := FirstMatch(m, c, p).value;
    assert j <= k;
    assert !Matches(m, a[j].pos, p) || j == k;
  }

  /** A node appended after nodes none of which matches is the first match. */
  lemma FirstMatchAppended(m: Matcher, a: seq<NodeRec>, c: seq<NodeRec>, p: Vec)
    requires |a| < |c| && c[..|a|] == a && c[|a|].pos == p
    requires FirstMatch(m, a, p).None?
    requires m == Within || m == Exact
    ensures FirstMatch(m, c, p) == Some(|a|)
  {
    assert forall j :: 0 <= j < |a| ==> c[j] == a[j];
    assert Matches(m, c[|a|].pos, p);
  }

  /** No two nodes have the same coordinates. */
  ghost predicate DistinctPoints(ns: seq<NodeRec>) {
    forall i, j :: 0 <= i < j < |ns| ==> ns[i].pos != ns[j].pos
  }

  /** Under exact matching of distinct points, the match is the node at
      that point. */
  lemma ExactMatchIsThePoint(ns: seq<NodeRec>, k: nat)
    requires DistinctPoints(ns) && k < |ns|
    ensures FirstMatch(Exact, ns, ns[k].pos) == Some(k)
  {
    assert Matches(Exact, ns[k].pos, ns[k].pos);
  }

  /** Nodes just read, not linked to anything yet. */
  ghost predicate Unlinked(ns: seq<NodeRec>) {
    forall i :: 0 <= i < |ns| ==> ns[i].faces == [] && ns[i].edges == []
  }

  // ---------------------------------------------------------------------
  // Merging one zone

  /** What a zone's list entry is after merging: a grid node, or, where
      reader.py's merge leaves the entry as it was, the zone's own node,
      which is not in the grid. */
  datatype NodeRef = InGrid(k: nat) | Loose(n: NodeRec)

  /** The grid's node list and the zone's list after merging zone `zone`
      into grid nodes `g`, node by node: a node that matches nothing is
      appended; a node that matches is replaced by its first match
      (`nodes[i] = found`, `nodes_z2[i] = grid.Nodes[j]`), or, when
      `replace` is false, kept as it was (`n = found`). Later zone nodes
      are matched against nodes appended for earlier ones. */
  function Merge(m: Matcher, g: seq<NodeRec>, zone: seq<NodeRec>, replace: bool): (r: (seq<NodeRec>, seq<NodeRef>))
    ensures |r.1| == |zone|
    decreases |zone|
  {
    if zone == [] then (g, [])
    else
      var prev := Merge(m, g, zone[..|zone| - 1], replace);
      var n := zone[|zone| - 1];
      match FirstMatch(m, prev.0, n.pos)
      case None => (prev.0 + [n], prev.1 + [InGrid(|prev.0|)])
      case Some(k) => (prev.0, prev.1 + [if replace then InGrid(k) else Loose(n)])
  }

  /** No appended node (position `from` onward) matches an earlier node. */
  ghost predicate NoMatchBefore(m: Matcher, ns: seq<NodeRec>, from: nat) {
    forall j, k :: 0 <= j < k < |ns| && from <= k ==> !Matches(m, ns[j].pos, ns[k].pos)
  }

  /** Merging keeps the grid's nodes in place and appends after them. */
  lemma {:induction false} MergeGrows(m: Matcher, g: seq<NodeRec>, zone: seq<NodeRec>, replace: bool)
    ensures var g2 := Merge(m, g, zone, replace).0; |g| <= |g2| && g2[..|g|] == g
    decreases |zone|
  {
    if zone != [] {
      MergeGrows(m, g, zone[..|zone| - 1], replace);
    }
  }

  /** One zone node more: the earlier entries and the grid built so far are
      kept. */
  lemma MergeSnoc(m: Matcher, g: seq<NodeRec>, zone: seq<NodeRec>, replace: bool)
    requires zone != []
    ensures var prev, cur := Merge(m, g, zone[..|zone| - 1], replace), Merge(m, g, zone, replace);
      cur.1[..|zone| - 1] == prev.1 && |prev.0| <= |cur.0| && cur.0[..|prev.0|] == prev.0
  {
  }

  /** Every appended node is a zone node, and that zone node's entry refers
      to it. */
  lemma {:induction false} MergeAppendsZoneNodes(m: Matcher, g: seq<NodeRec>, zone: seq<NodeRec>, replace: bool)
    ensures var (g2, refs) := Merge(m, g, zone, replace);
      forall k :: |g| <= k < |g2| ==> exists i :: 0 <= i < |zone| && refs[i] == InGrid(k) && g2[k] == zone[i]
    decreases |zone|
  {
    if zone != [] {
      var last := |zone| - 1;
      var prev := Merge(m, g, zone[..last], replace);
      MergeAppendsZoneNodes(m, g, zone[..last], replace);
      MergeSnoc(m, g, zone, replace);
      var (g2, refs) := Merge(m, g, zone, replace);
      forall k | |g| <= k < |g2|
        ensures exists i :: 0 <= i < |zone| && refs[i] == InGrid(k) && g2[k] == zone[i]
      {
        if k < |prev.0| {
          var i :| 0 <= i < last && prev.1[i] == InGrid(k) && prev.0[k] == zone[..last][i];
          assert refs[i] == prev.1[i] && g2[k] == prev.0[k];
        } else {
          assert refs[last] == InGrid(k) && g2[k] == zone[last];
        }
      }
    }
  }

  /** No appended node matches a node before it. */
  lemma {:induction false} MergeNoMatchBefore(m: Matcher, g: seq<NodeRec>, zone: seq<NodeRec>, replace: bool)
    ensures NoMatchBefore(m, Merge(m, g, zone, replace).0, |g|)
    decreases |zone|
  {
    if zone != [] {
      var last := |zone| - 1;
      var prev := Merge(m, g, zone[..last], replace);
      MergeNoMatchBefore(m, g, zone[..last], replace);
      MergeGrows(m, g, zone[..last], replace);
      var g2 := Merge(m, g, zone, replace).0;
      var n := zone[last];
      if FirstMatch(m, prev.0, n.pos).None? {
        assert g2 == prev.0 + [n];
        forall j, k | 0 <= j < k < |g2| && |g| <= k
          ensures !Matches(m, g2[j].pos, g2[k].pos)
        {
          if k < |prev.0| {
            assert g2[j] == prev.0[j] && g2[k] == prev.0[k];
          } else {
            assert g2[j] == prev.0[j];
          }
        }
      }
    }
  }

  /** Entry `i` of the merged zone list refers to the first node that
      matches the zone node's point in the final list, or, only when
      `replace` is false, is the zone's own node, and a matching grid node
      exists. */
  lemma {:induction false} MergeRefAt(m: Matcher, g: seq<NodeRec>, zone: seq<NodeRec>, replace: bool, i: nat)
    requires i < |zone|
    ensures var (g2, refs) := Merge(m, g, zone, replace);
      (refs[i].InGrid? ==> FirstMatch(m, g2, zone[i].pos) == Some(refs[i].k)) &&
      (refs[i].Loose? ==> !replace && refs[i].n == zone[i] && FirstMatch(m, g2, zone[i].pos).Some?)
    decreases |zone|
  {
    var last := |zone| - 1;
    var prev := Merge(m, g, zone[..last], replace);
    var g2 := Merge(m, g, zone, replace).0;
    MergeSnoc(m, g, zone, replace);
    if i < last {
      MergeRefAt(m, g, zone[..last], replace, i);
      assert zone[i] == zone[..last][i];
      FirstMatchExtends(m, prev.0, g2, zone[i].pos);
    } else if FirstMatch(m, prev.0, zone[last].pos).None? {
      FirstMatchAppended(m, prev.0, g2, zone[last].pos);
    } else {
      FirstMatchExtends(m, prev.0, g2, zone[last].pos);
    }
  }

  /** MergeRefAt for every entry. */
  lemma MergeRefsMatch(m: Matcher, g: seq<NodeRec>, zone: seq<NodeRec>, replace: bool)
    ensures var (g2, refs) := Merge(m, g, zone, replace);
      (forall i :: 0 <= i < |zone| && refs[i].InGrid? ==> FirstMatch(m, g2, zone[i].pos) == Some(refs[i].k)) &&
      (forall i :: 0 <= i < |zone| && refs[i].Loose? ==>
        !replace && refs[i].n == zone[i] && FirstMatch(m, g2, zone[i].pos).Some?)
  {
    forall i | 0 <= i < |zone| {
      MergeRefAt(m, g, zone, replace, i);
    }
  }

  /** Exact merging keeps the grid free of repeated points. */
  lemma MergeExactDistinct(g: seq<NodeRec>, zone: seq<NodeRec>, replace: bool)
    requires DistinctPoints(g)
    ensures DistinctPoints(Merge(Exact, g, zone, replace).0)
  {
    var g2 := Merge(Exact, g, zone, replace).0;
    MergeGrows(Exact, g, zone, replace);
    MergeNoMatchBefore(Exact, g, zone, replace);
    forall i, j | 0 <= i < j < |g2| ensures g2[i].pos != g2[j].pos {
      if j < |g| {
        assert g2[i] == g[i] && g2[j] == g[j];
      } else {
        assert !Matches(Exact, g2[i].pos, g2[j].pos);
      }
    }
  }

  /** With replacement, exact merging turns every zone entry into the grid
      node at the zone node's point. */
  lemma MergeExactRefs(g: seq<NodeRec>, zone: seq<NodeRec>)
    ensures var (g2, refs) := Merge(Exact, g, zone, true);
      forall i :: 0 <= i < |zone| ==> refs[i].InGrid? && refs[i].k < |g2| && g2[refs[i].k].pos == zone[i].pos
  {
    MergeRefsMatch(Exact, g, zone, true);
  }

  /** compose_node_list_nlogn_algorithm as written: a zone node whose point
      is already in the grid stays in the zone list (`n = found` only
      rebinds the loop variable), so set_faces later links that zone's
      faces to a node object that is not in `grid.Nodes`. io.py's
      add_nodes_to_grid, which writes `nodes[i] = found`, gives the grid
      node instead. */
  lemma RebindingKeepsDuplicate(a: NodeRec, b: NodeRec)
    requires a.pos == b.pos
    ensures Merge(Exact, [a], [b], false) == ([a], [Loose(b)])
    ensures Merge(Exact, [a], [b], true) == ([a], [InGrid(0)])
  {
    assert [b][..|[b]| - 1] == [];
    assert FirstMatch(Exact, [a], b.pos) == Some(0);
    assert [] + [Loose(b)] == [Loose(b)] && [] + [InGrid(0)] == [InGrid(0)];
  }

  // ---------------------------------------------------------------------
  // The merging loops

  /** The tree holds one key per grid node: its point and its position. */
  ghost predicate Indexes(t: Tree, ns: seq<NodeRec>) {
    (forall k :: 0 <= k < |ns| ==> Entry(ns[k].pos, k) in Keys(t)) &&
    (forall e :: e in Keys(t) ==> e.ref < |ns| && ns[e.ref].pos == e.point)
  }

  /** A point the tree does not hold is not at any grid node. */
  lemma IndexesMiss(t: Tree, ns: seq<NodeRec>, p: Vec)
    requires Indexes(t, ns) && p !in Points(t)
    ensures FirstMatch(Exact, ns, p).None?
  {
    forall k | 0 <= k < |ns| ensures ns[k].pos != p {
      assert Entry(ns[k].pos, k) in Keys(t);
    }
  }

  /** A key the tree holds names the grid node at its point. */
  lemma IndexesHit(t: Tree, ns: seq<NodeRec>, e: Entry)
    requires Indexes(t, ns) && DistinctPoints(ns) && e in Keys(t)
    ensures FirstMatch(Exact, ns, e.point) == Some(e.ref)
  {
    ExactMatchIsThePoint(ns, e.ref);
  }

  /** Inserting the key of an appended node keeps the index. */
  lemma IndexesAppend(t: Tree, t2: Tree, ns: seq<NodeRec>, n: NodeRec)
    requires Indexes(t, ns) && Keys(t2) == Keys(t) + {Entry(n.pos, |ns|)}
    ensures Indexes(t2, ns + [n])
  {
    var ns2 := ns + [n];
    assert forall k :: 0 <= k < |ns| ==> ns2[k] == ns[k];
  }

  /** Appending a node at a new point keeps the points distinct. */
  lemma DistinctAppend(ns: seq<NodeRec>, n: NodeRec)
    requires DistinctPoints(ns) && FirstMatch(Exact, ns, n.pos).None?
    ensures DistinctPoints(ns + [n])
  {
    var ns2 := ns + [n];
    forall i, j | 0 <= i < j < |ns2| ensures ns2[i].pos != ns2[j].pos {
      if j < |ns| {
        assert ns2[i] == ns[i] && ns2[j] == ns[j];
      } else {
        assert !Matches(Exact, ns[i].pos, n.pos);
      }
    }
  }

  /** A refused insert means a node before it has the same point. */
  lemma IndexesRepeat(t: Tree, ns: seq<NodeRec>, i: nat)
    requires i < |ns| && Indexes(t, ns[..i]) && ns[i].pos in Points(t)
    ensures !DistinctPoints(ns)
  {
    var e :| e in Keys(t) && e.point == ns[i].pos;
    assert ns[e.ref] == ns[..i][e.ref];
  }

  /** A node at a point the tree does not hold extends the index. */
  lemma IndexesStep(t: Tree, t2: Tree, ns: seq<NodeRec>, i: nat)
    requires i < |ns| && Indexes(t, ns[..i]) && DistinctPoints(ns[..i]) && ns[i].pos !in Points(t)
    requires Keys(t2) == Keys(t) + {Entry(ns[i].pos, i)}
    ensures Indexes(t2, ns[..i + 1]) && DistinctPoints(ns[..i + 1])
  {
    PrefixStep(ns, i);
    IndexesMiss(t, ns[..i], ns[i].pos);
    IndexesAppend(t, t2, ns[..i], ns[i]);
    DistinctAppend(ns[..i], ns[i]);
  }

  /** make_avl: every grid node is inserted in turn; a point already in the
      tree makes insert raise ValueError, which ends the loop. */
  method MakeAvl(g: Mesh, tree: AVLTree) returns (ok: bool)
    requires tree.Valid() && tree.root == Leaf
    modifies tree
    ensures tree.Valid()
    ensures ok <==> DistinctPoints(g.nodes)
    ensures ok ==> Indexes(tree.root, g.nodes)
  {
    var ns := g.nodes;
    var i := 0;
    while i < |ns|
      invariant i <= |ns| && tree.Valid() && IndexedPrefix(tree.root, ns, i)
    {
      var inserted := InsertNode(tree, ns, i);
      if !inserted {
        return false;
      }
      i := i + 1;
    }
    IndexedAll(tree.root, ns);
    return true;
  }

  /** The tree indexes the first `i` nodes, whose points are distinct. */
  ghost predicate IndexedPrefix(t: Tree, ns: seq<NodeRec>, i: nat)
    requires i <= |ns|
  {
    Indexes(t, ns[..i]) && DistinctPoints(ns[..i])
  }

  lemma IndexedAll(t: Tree, ns: seq<NodeRec>)
    requires IndexedPrefix(t, ns, |ns|)
    ensures Indexes(t, ns) && DistinctPoints(ns)
  {
    assert ns[..|ns|] == ns;
  }

  /** One round of make_avl: inserts node `i` under its position. */
  method InsertNode(tree: AVLTree, ns: seq<NodeRec>, i: nat) returns (ok: bool)
    requires i < |ns| && tree.Valid() && IndexedPrefix(tree.root, ns, i)
    modifies tree
    ensures tree.Valid()
    ensures ok ==> IndexedPrefix(tree.root, ns, i + 1)
    ensures !ok ==> !DistinctPoints(ns)
  {
    ghost var before := tree.root;
    ok := tree.Insert(Entry(ns[i].pos, i));
    if !ok {
      IndexesRepeat(before, ns, i);
    } else {
      IndexesStep(before, tree.root, ns, i);
    }
  }

  /** Merging one more zone node, when it matches nothing. */
  lemma MergeStepAppend(m: Matcher, g: seq<NodeRec>, zone: seq<NodeRec>, replace: bool, i: nat)
    requires i < |zone| && FirstMatch(m, Merge(m, g, zone[..i], replace).0, zone[i].pos).None?
    ensures var prev := Merge(m, g, zone[..i], replace);
      Merge(m, g, zone[..i + 1], replace) == (prev.0 + [zone[i]], prev.1 + [InGrid(|prev.0|)])
  {
    assert zone[..i + 1][..i] == zone[..i] && zone[..i + 1][i] == zone[i];
  }

  /** Merging one more zone node, when it matches grid node `k`. */
  lemma MergeStepMatch(m: Matcher, g: seq<NodeRec>, zone: seq<NodeRec>, replace: bool, i: nat, k: nat)
    requires i < |zone| && FirstMatch(m, Merge(m, g, zone[..i], replace).0, zone[i].pos) == Some(k)
    ensures var prev := Merge(m, g, zone[..i], replace);
      Merge(m, g, zone[..i + 1], replace) == (prev.0, prev.1 + [if replace then InGrid(k) else Loose(zone[i])])
  {
    assert zone[..i + 1][..i] == zone[..i] && zone[..i + 1][i] == zone[i];
  }

  /** add_nodes_to_grid (tecplot/io.py, `replace`) and
      compose_node_list_nlogn_algorithm (tecplot/reader.py, not `replace`):
      each zone node is looked up in the tree; a node not found is appended
      to the grid and inserted, with its new position. */
  method AddNodesToGrid(g: Mesh, tree: AVLTree, zone: seq<NodeRec>, replace: bool) returns (refs: seq<NodeRef>)
    requires g.Valid() && tree.Valid() && Indexes(tree.root, g.nodes) && DistinctPoints(g.nodes)
    requires Unlinked(zone)
    modifies g, tree
    ensures g.Valid() && g.edges == old(g.edges) && g.faces == old(g.faces)
    ensures tree.Valid() && Indexes(tree.root, g.nodes) && DistinctPoints(g.nodes)
    ensures (g.nodes, refs) == Merge(Exact, old(g.nodes), zone, replace)
  {
    ghost var ns0 := g.nodes;
    refs := [];
    var i := 0;
    while i < |zone|
      invariant 0 <= i <= |zone|
      invariant g.Valid() && g.edges == old(g.edges) && g.faces == old(g.faces)
      invariant tree.Valid() && Indexes(tree.root, g.nodes) && DistinctPoints(g.nodes)
      invariant (g.nodes, refs) == Merge(Exact, ns0, zone[..i], replace)
    {
      refs := MergeNode(g, tree, zone, replace, i, ns0, refs);
      i := i + 1;
    }
    assert zone[..i] == zone;
  }

  /** One round of add_nodes_to_grid, stated against Merge. */
  method MergeNode(g: Mesh, tree: AVLTree, zone: seq<NodeRec>, replace: bool, i: nat, ghost ns0: seq<NodeRec>,
                   refs: seq<NodeRef>)
    returns (refs2: seq<NodeRef>)
    requires i < |zone| && Unlinked(zone)
    requires g.Valid() && tree.Valid() && Indexes(tree.root, g.nodes) && DistinctPoints(g.nodes)
    requires (g.nodes, refs) == Merge(Exact, ns0, zone[..i], replace)
    modifies g, tree
    ensures g.Valid() && g.edges == old(g.edges) && g.faces == old(g.faces)
    ensures tree.Valid() && Indexes(tree.root, g.nodes) && DistinctPoints(g.nodes)
    ensures (g.nodes, refs2) == Merge(Exact, ns0, zone[..i + 1], replace)
  {
    ghost var found := FirstMatch(Exact, g.nodes, zone[i].pos);
    if found.None? {
      MergeStepAppend(Exact, ns0, zone, replace, i);
    } else {
      MergeStepMatch(Exact, ns0, zone, replace, i, found.value);
    }
    var r := AddNode(g, tree, zone[i], replace);
    refs2 := refs + [r];
  }

  /** One round of add_nodes_to_grid: the node's entry after the lookup. */
  method AddNode(g: Mesh, tree: AVLTree, n: NodeRec, replace: bool) returns (r: NodeRef)
    requires g.Valid() && tree.Valid() && Indexes(tree.root, g.nodes) && DistinctPoints(g.nodes)
    requires n.faces == [] && n.edges == []
    modifies g, tree
    ensures g.Valid() && g.edges == old(g.edges) && g.faces == old(g.faces)
    ensures tree.Valid() && Indexes(tree.root, g.nodes) && DistinctPoints(g.nodes)
    ensures FirstMatch(Exact, old(g.nodes), n.pos).None? ==>
      g.nodes == old(g.nodes) + [n] && r == InGrid(|old(g.nodes)|)
    ensures FirstMatch(Exact, old(g.nodes), n.pos).Some? ==>
      g.nodes == old(g.nodes) &&
      r == if replace then InGrid(FirstMatch(Exact, old(g.nodes), n.pos).value) else Loose(n)
  {
    var found := tree.Find(n.pos);
    if found.None? {
      IndexesMiss(tree.root, g.nodes, n.pos);
      DistinctAppend(g.nodes, n);
      ghost var before, ns0 := tree.root, g.nodes;
      var m := |g.nodes|;
      g.AppendNode(n);
      var inserted := tree.Insert(Entry(n.pos, m));
      IndexesAppend(before, tree.root, ns0, n);
      r := InGrid(m);
    } else {
      IndexesHit(tree.root, g.nodes, found.value);
      r := if replace then InGrid(found.value.ref) else Loose(n);
    }
  }

  /** The inner loop of compose_node_list_algorithm_1: the first grid node
      within EPS of `p` in x and in y. */
  method FindWithin(g: Mesh, p: Vec) returns (r: Option<nat>)
    ensures r == FirstMatch(Within, g.nodes, p)
  {
    var j := 0;
    while j < |g.nodes|
      invariant 0 <= j <= |g.nodes|
      invariant forall k :: 0 <= k < j ==> !Matches(Within, g.nodes[k].pos, p)
    {
      if Abs(g.nodes[j].pos.x - p.x) <= EPS && Abs(g.nodes[j].pos.y - p.y) <= EPS {
        return Some(j);
      }
      j := j + 1;
    }
    return None;
  }

  /** compose_node_list_algorithm_1 (grid/tecplot.py): each zone node is
      replaced by the first grid node within EPS, or appended. */
  method ComposeNodeList(g: Mesh, zone: seq<NodeRec>) returns (refs: seq<NodeRef>)
    requires g.Valid() && Unlinked(zone)
    modifies g
    ensures g.Valid() && g.edges == old(g.edges) && g.faces == old(g.faces)
    ensures (g.nodes, refs) == Merge(Within, old(g.nodes), zone, true)
  {
    refs := [];
    var i := 0;
    while i < |zone|
      invariant 0 <= i <= |zone|
      invariant g.Valid() && g.edges == old(g.edges) && g.faces == old(g.faces)
      invariant (g.nodes, refs) == Merge(Within, old(g.nodes), zone[..i], true)
    {
      assert zone[..i + 1][..i] == zone[..i] && zone[..i + 1][i] == zone[i];
      var found := FindWithin(g, zone[i].pos);
      if found.None? {
        refs := refs + [InGrid(|g.nodes|)];
        g.AppendNode(zone[i]);
      } else {
        refs := refs + [InGrid(found.value)];
      }
      i := i + 1;
    }
    assert zone[..i] == zone;
  }

  // ---------------------------------------------------------------------
  // set_nodes: all zones

  /** The prefix one element longer. */
  lemma PrefixStep<T>(s: seq<T>, i: nat)
    requires i < |s|
    ensures s[..i + 1][..i] == s[..i] && s[..i + 1][i] == s[i] && s[..i + 1] == s[..i] + [s[i]]
  {
  }

  /** Zone 1's list after set_nodes: each entry is its own grid node. */
  function SelfRefs(n: nat): (r: seq<NodeRef>)
    ensures |r| == n && forall k :: 0 <= k < n ==> r[k] == InGrid(k)
  {
    seq(n, k requires 0 <= k < n => InGrid(k))
  }

  /** The grid's node list and every zone's list after set_nodes: the grid
      starts as a copy of zone 1's nodes and the later zones are merged
      into it in order. */
  function MergeZones(m: Matcher, zones: seq<seq<NodeRec>>, replace: bool): (r: (seq<NodeRec>, seq<seq<NodeRef>>))
    requires zones != []
    ensures |r.1| == |zones|
    decreases |zones|
  {
    if |zones| == 1 then (zones[0], [SelfRefs(|zones[0]|)])
    else
      var prev := MergeZones(m, zones[..|zones| - 1], replace);
      var last := Merge(m, prev.0, zones[|zones| - 1], replace);
      (last.0, prev.1 + [last.1])
  }

  /** One zone more: the earlier zones' lists are kept and the grid
      grows. */
  lemma MergeZonesSnoc(m: Matcher, zones: seq<seq<NodeRec>>, replace: bool)
    requires |zones| > 1
    ensures var prev, cur := MergeZones(m, zones[..|zones| - 1], replace), MergeZones(m, zones, replace);
      cur == (Merge(m, prev.0, zones[|zones| - 1], replace).0, prev.1 + [Merge(m, prev.0, zones[|zones| - 1], replace).1]) &&
      |prev.0| <= |cur.0| && cur.0[..|prev.0|] == prev.0
  {
    MergeGrows(m, MergeZones(m, zones[..|zones| - 1], replace).0, zones[|zones| - 1], replace);
  }

  /** The grid starts with zone 1's nodes, and every zone's list is as long
      as the zone. */
  lemma {:induction false} MergeZonesShape(m: Matcher, zones: seq<seq<NodeRec>>, replace: bool)
    requires zones != []
    ensures var (g, refs) := MergeZones(m, zones, replace);
      |zones[0]| <= |g| && g[..|zones[0]|] == zones[0] &&
      forall z :: 0 <= z < |zones| ==> |refs[z]| == |zones[z]|
    decreases |zones|
  {
    if |zones| > 1 {
      var last := |zones| - 1;
      MergeZonesShape(m, zones[..last], replace);
      MergeZonesSnoc(m, zones, replace);
      assert zones[..last][0] == zones[0];
      var refs := MergeZones(m, zones, replace).1;
      forall z | 0 <= z < last ensures |refs[z]| == |zones[z]| {
        assert zones[z] == zones[..last][z];
      }
    }
  }

  /** Every node after zone 1's comes from a later zone, and that zone's
      entry refers to it. */
  lemma {:induction false} MergeZonesAppended(m: Matcher, zones: seq<seq<NodeRec>>, replace: bool, k: nat)
    requires zones != [] && |zones[0]| <= k < |MergeZones(m, zones, replace).0|
    ensures var (g, refs) := MergeZones(m, zones, replace);
      exists z, i :: 0 < z < |zones| && 0 <= i < |zones[z]| && i < |refs[z]| &&
        refs[z][i] == InGrid(k) && g[k] == zones[z][i]
    decreases |zones|
  {
    var last := |zones| - 1;
    var front := zones[..last];
    var prev := MergeZones(m, front, replace);
    var (g, refs) := MergeZones(m, zones, replace);
    MergeZonesSnoc(m, zones, replace);
    assert front[0] == zones[0];
    if k < |prev.0| {
      MergeZonesAppended(m, front, replace, k);
      var z, i :| 0 < z < |front| && 0 <= i < |front[z]| && i < |prev.1[z]| &&
        prev.1[z][i] == InGrid(k) && prev.0[k] == front[z][i];
      assert refs[z] == prev.1[z] && zones[z] == front[z] && g[k] == prev.0[k];
    } else {
      MergeAppendsZoneNodes(m, prev.0, zones[last], replace);
      var i :| 0 <= i < |zones[last]| && refs[last][i] == InGrid(k) && g[k] == zones[last][i];
    }
  }

  /** Entry `i` of zone `z` after set_nodes: when it refers to the grid, the
      node matches the zone node, and in a later zone it is the first such
      node; it is left as the zone's own node only when `replace` is false. */
  lemma {:induction false} MergeZonesRefAt(m: Matcher, zones: seq<seq<NodeRec>>, replace: bool, z: nat, i: nat)
    requires z < |zones| && i < |zones[z]|
    ensures var r := MergeZones(m, zones, replace); RefOk(m, r.0, r.1, zones, replace, z, i)
    decreases |zones|
  {
    if |zones| == 1 {
      MergeZonesRefFirst(m, zones, replace, i);
    } else if z < |zones| - 1 {
      MergeZonesRefAt(m, zones[..|zones| - 1], replace, z, i);
      MergeZonesRefKept(m, zones, replace, z, i);
    } else {
      MergeZonesRefLast(m, zones, replace, i);
    }
  }

  /** MergeZonesRefAt for a single zone. */
  lemma MergeZonesRefFirst(m: Matcher, zones: seq<seq<NodeRec>>, replace: bool, i: nat)
    requires |zones| == 1 && i < |zones[0]|
    ensures var r := MergeZones(m, zones, replace); RefOk(m, r.0, r.1, zones, replace, 0, i)
  {
    var r := MergeZones(m, zones, replace);
    assert r.0[i] == zones[0][i];
  }

  /** MergeZonesRefAt for an earlier zone, from the same fact before the
      last zone was merged. */
  lemma MergeZonesRefKept(m: Matcher, zones: seq<seq<NodeRec>>, replace: bool, z: nat, i: nat)
    requires |zones| > 1 && z < |zones| - 1 && i < |zones[z]|
    requires var p := MergeZones(m, zones[..|zones| - 1], replace);
      RefOk(m, p.0, p.1, zones[..|zones| - 1], replace, z, i)
    ensures var r := MergeZones(m, zones, replace); RefOk(m, r.0, r.1, zones, replace, z, i)
  {
    var last := |zones| - 1;
    var r := MergeZones(m, zones, replace);
    var prev := MergeZones(m, zones[..last], replace);
    MergeZonesSnoc(m, zones, replace);
    RefOkExtends(m, prev.0, prev.1, r.0, r.1, zones[..last], zones, replace, z, i);
  }

  /** MergeZonesRefAt for the last zone. */
  lemma MergeZonesRefLast(m: Matcher, zones: seq<seq<NodeRec>>, replace: bool, i: nat)
    requires |zones| > 1 && i < |zones[|zones| - 1]|
    ensures var r := MergeZones(m, zones, replace); RefOk(m, r.0, r.1, zones, replace, |zones| - 1, i)
  {
    var last := |zones| - 1;
    var prev := MergeZones(m, zones[..last], replace);
    var cur := Merge(m, prev.0, zones[last], replace);
    MergeZonesSnoc(m, zones, replace);
    MergeRefAt(m, prev.0, zones[last], replace, i);
    assert MergeZones(m, zones, replace).1[last] == cur.1;
  }

  /** What MergeZonesRefAt states about entry `i` of zone `z`. */
  ghost predicate RefOk(m: Matcher, g: seq<NodeRec>, refs: seq<seq<NodeRef>>, zones: seq<seq<NodeRec>>,
                        replace: bool, z: nat, i: nat)
    requires z < |zones| && i < |zones[z]|
  {
    z < |refs| && i < |refs[z]| &&
    (refs[z][i].InGrid? ==> refs[z][i].k < |g| && Matches(m, g[refs[z][i].k].pos, zones[z][i].pos)) &&
    (refs[z][i].InGrid? && 0 < z ==> FirstMatch(m, g, zones[z][i].pos) == Some(refs[z][i].k)) &&
    (refs[z][i].Loose? ==> !replace)
  }

  /** RefOk survives appending grid nodes and zones. */
  lemma RefOkExtends(m: Matcher, g: seq<NodeRec>, refs: seq<seq<NodeRef>>, g2: seq<NodeRec>, refs2: seq<seq<NodeRef>>,
                     zones: seq<seq<NodeRec>>, zones2: seq<seq<NodeRec>>, replace: bool, z: nat, i: nat)
    requires z < |zones| <= |zones2| && zones2[..|zones|] == zones && i < |zones[z]|
    requires |refs| <= |refs2| && refs2[..|refs|] == refs && |g| <= |g2| && g2[..|g|] == g
    requires RefOk(m, g, refs, zones, replace, z, i)
    ensures RefOk(m, g2, refs2, zones2, replace, z, i)
  {
    assert zones2[z] == zones[z] && refs2[z] == refs[z];
    if refs[z][i].InGrid? {
      assert g2[refs[z][i].k] == g[refs[z][i].k];
      if 0 < z {
        FirstMatchExtends(m, g, g2, zones[z][i].pos);
      }
    }
  }

  /** With exact matching and zone 1 free of repeated points, the grid
      never holds two nodes at one point. */
  lemma {:induction false} MergeZonesDistinct(zones: seq<seq<NodeRec>>, replace: bool)
    requires zones != [] && DistinctPoints(zones[0])
    ensures DistinctPoints(MergeZones(Exact, zones, replace).0)
    decreases |zones|
  {
    if |zones| > 1 {
      var last := |zones| - 1;
      assert zones[..last][0] == zones[0];
      MergeZonesDistinct(zones[..last], replace);
      MergeExactDistinct(MergeZones(Exact, zones[..last], replace).0, zones[last], replace);
    }
  }

  /** Zone nodes not linked to anything form a mesh on their own. */
  lemma UnlinkedIsLinked(ns: seq<NodeRec>)
    requires Unlinked(ns)
    ensures LinkedMesh(ns, [], [])
  {
  }

  /** set_nodes of tecplot/io.py (`replace`) and tecplot/reader.py (not
      `replace`): the grid's nodes become a copy of zone 1's, make_avl
      indexes them, and each later zone is merged through the tree. Without
      zones, `nodes[0]` is an IndexError; a repeated point in zone 1 makes
      make_avl raise ValueError. */
  method SetNodesAvl(g: Mesh, tree: AVLTree, zones: seq<seq<NodeRec>>, replace: bool)
    returns (r: Result<seq<seq<NodeRef>>>)
    requires g.edges == [] && g.faces == [] && tree.Valid() && tree.root == Leaf
    requires forall z :: 0 <= z < |zones| ==> Unlinked(zones[z])
    modifies g, tree
    ensures g.Valid() && g.edges == [] && g.faces == []
    ensures zones == [] ==> r == Fail(IndexError)
    ensures zones != [] ==> (r.Ok? <==> DistinctPoints(zones[0]))
    ensures r.Fail? ==> r.error == (if zones == [] then IndexError else ValueError)
    ensures r.Ok? ==> (g.nodes, r.value) == MergeZones(Exact, zones, replace)
    ensures r.Ok? ==> DistinctPoints(g.nodes) && tree.Valid() && Indexes(tree.root, g.nodes)
  {
    if zones == [] {
      UnlinkedIsLinked([]);
      g.nodes := [];
      return Fail(IndexError);
    }
    UnlinkedIsLinked(zones[0]);
    g.nodes := zones[0];
    var ok := MakeAvl(g, tree);
    if !ok {
      return Fail(ValueError);
    }
    var all := MergeLaterZones(g, tree, zones, replace);
    return Ok(all);
  }

  /** The state of set_nodes after the first z zones. */
  ghost predicate ZonesMerged(g: Mesh, tree: AVLTree, zones: seq<seq<NodeRec>>, replace: bool, z: nat,
                              all: seq<seq<NodeRef>>)
    reads g, tree
  {
    1 <= z <= |zones| &&
    g.Valid() && g.edges == [] && g.faces == [] &&
    tree.Valid() && Indexes(tree.root, g.nodes) && DistinctPoints(g.nodes) &&
    (g.nodes, all) == MergeZones(Exact, zones[..z], replace)
  }

  /** The loop of set_nodes over zones 2, 3, ...: the grid holds zone 1's
      nodes, indexed by the tree, and each later zone is merged into it. */
  method MergeLaterZones(g: Mesh, tree: AVLTree, zones: seq<seq<NodeRec>>, replace: bool)
    returns (all: seq<seq<NodeRef>>)
    requires zones != [] && forall z :: 0 <= z < |zones| ==> Unlinked(zones[z])
    requires g.Valid() && g.edges == [] && g.faces == [] && g.nodes == zones[0]
    requires tree.Valid() && Indexes(tree.root, g.nodes) && DistinctPoints(g.nodes)
    modifies g, tree
    ensures g.Valid() && g.edges == [] && g.faces == []
    ensures tree.Valid() && Indexes(tree.root, g.nodes) && DistinctPoints(g.nodes)
    ensures (g.nodes, all) == MergeZones(Exact, zones, replace)
  {
    all := [SelfRefs(|zones[0]|)];
    var z := 1;
    assert zones[..1] == [zones[0]];
    while z < |zones|
      invariant 1 <= z <= |zones|
      invariant ZonesMerged(g, tree, zones, replace, z, all)
    {
      all := MergeZone(g, tree, zones, replace, z, all);
      z := z + 1;
    }
    assert zones[..z] == zones;
  }

  /** One later zone of set_nodes, stated against MergeZones. */
  method MergeZone(g: Mesh, tree: AVLTree, zones: seq<seq<NodeRec>>, replace: bool, z: nat, all: seq<seq<NodeRef>>)
    returns (all2: seq<seq<NodeRef>>)
    requires 1 <= z < |zones| && Unlinked(zones[z])
    requires ZonesMerged(g, tree, zones, replace, z, all)
    modifies g, tree
    ensures ZonesMerged(g, tree, zones, replace, z + 1, all2)
  {
    PrefixStep(zones, z);
    MergeZonesSnoc(Exact, zones[..z + 1], replace);
    var refs := AddNodesToGrid(g, tree, zones[z], replace);
    all2 := all + [refs];
  }

  /** set_nodes of grid/tecplot.py: the grid's nodes become a copy of zone
      1's and each later zone is merged by compose_node_list_algorithm_1.
      Without zones, `nodes[0]` is an IndexError. */
  method SetNodesWithin(g: Mesh, zones: seq<seq<NodeRec>>) returns (r: Result<seq<seq<NodeRef>>>)
    requires g.edges == [] && g.faces == []
    requires forall z :: 0 <= z < |zones| ==> Unlinked(zones[z])
    modifies g
    ensures g.Valid() && g.edges == [] && g.faces == []
    ensures r.Fail? <==> zones == []
    ensures r.Fail? ==> r.error == IndexError
    ensures r.Ok? ==> (g.nodes, r.value) == MergeZones(Within, zones, true)
  {
    if zones == [] {
      UnlinkedIsLinked([]);
      g.nodes := [];
      return Fail(IndexError);
    }
    UnlinkedIsLinked(zones[0]);
    g.nodes := zones[0];
    var all := [SelfRefs(|zones[0]|)];
    var z := 1;
    while z < |zones|
      invariant 1 <= z <= |zones|
      invariant g.Valid() && g.edges == [] && g.faces == []
      invariant g.nodes == MergeZones(Within, zones[..z], true).0
      invariant all == MergeZones(Within, zones[..z], true).1
    {
      PrefixStep(zones, z);
      MergeZonesSnoc(Within, zones[..z + 1], true);
      var refs := ComposeNodeList(g, zones[z]);
      all := all + [refs];
      z := z + 1;
    }
    assert zones[..z] == zones;
    return Ok(all);
  }

  // ---------------------------------------------------------------------
  // set_faces: one pair of nodes

  /** The Grid class set_faces links through:
      - `checked`: the link_* functions refuse a fourth edge on a face or a
        third face on an edge (triangular_grid/grid.py), or do not check
        (grid/grid.py);
      - `scan`: is_edge_present scans all of n1's edges
        (triangular_grid/grid.py), or looks at the first one only
        (grid/grid.py as written);
      - `linkNodes`: set_faces links each face to its three nodes (the
        readers), or relies on set_nodes_and_faces having done so
        (geom/geom_obj_generation.py). */
  datatype Linker = Linker(checked: bool, scan: bool, linkNodes: bool)

  /** tecplot/io.py links through triangular_grid/grid.py. */
  const IoLinker := Linker(true, true, true)
  /** tecplot/reader.py and grid/tecplot.py link through grid/grid.py,
      whose is_edge_present looks at one edge only as written. */
  const GridLinkerAsWritten := Linker(false, false, true)
  /** grid/grid.py with is_edge_present scanning every edge of the node. */
  const GridLinker := Linker(false, true, true)
  /** geom/geom_obj_generation.py links through triangular_grid/grid.py and
      leaves the face-node links to set_nodes_and_faces. */
  const GeomLinker := Linker(true, true, false)

  /** is_edge_present(a, b) of the chosen Grid class. */
  function FindEdge(es: seq<EdgeRec>, list: seq<nat>, b: nat, scan: bool): (r: EdgeLookup)
    requires forall k :: 0 <= k < |list| ==> list[k] < |es|
    ensures r.Found? ==> r.edge < |es|
  {
    if !scan then FirstEdgeOnly(es, list, b)
    else
      FirstEdgeWithCorrect(es, list, b);
      match FirstEdgeWith(es, list, b)
      case Some(e) => Found(e)
      case None => Absent
  }

  /** Edge `e` has both `a` and `b` among its nodes. */
  predicate Joins(e: EdgeRec, a: nat, b: nat) {
    a in e.nodes && b in e.nodes
  }

  /** No two edges join the same two distinct nodes. */
  ghost predicate PairsUnique(es: seq<EdgeRec>) {
    forall i, j, a, b :: 0 <= i < j < |es| && a != b && Joins(es[i], a, b) ==> !Joins(es[j], a, b)
  }

  /** The edges keep their nodes; new edges may follow them. */
  ghost predicate KeepsEndpoints(es: seq<EdgeRec>, es2: seq<EdgeRec>) {
    |es| <= |es2| && forall k :: 0 <= k < |es| ==> es2[k].nodes == es[k].nodes
  }

  /** `x` added to a link list by link_face_and_edge: only when missing if
      `checked`, always otherwise. */
  function LinkList(checked: bool, s: seq<nat>, x: nat): (r: seq<nat>)
    ensures x in r && forall y :: y in s ==> y in r
    ensures s <= r
  {
    if checked then AddNew(s, x) else s + [x]
  }

  /** Node `n` with edge `e` appended to its edge list. */
  function AddEdgeToNode(ns: seq<NodeRec>, n: nat, e: nat): (r: seq<NodeRec>)
    requires n < |ns|
    ensures |r| == |ns| && r[n].edges == ns[n].edges + [e]
  {
    ns[n := ns[n].(edges := ns[n].edges + [e])]
  }

  /** An edge found from `a`'s edge list joins `a` and `b`. */
  lemma FoundJoins(ns: seq<NodeRec>, es: seq<EdgeRec>, fs: seq<FaceRec>, a: nat, b: nat, scan: bool)
    requires LinkedMesh(ns, es, fs) && a < |ns|
    requires FindEdge(es, ns[a].edges, b, scan).Found?
    ensures FindEdge(es, ns[a].edges, b, scan).edge < |es|
    ensures Joins(es[FindEdge(es, ns[a].edges, b, scan).edge], a, b)
  {
    var list := ns[a].edges;
    if scan {
      FirstEdgeWithCorrect(es, list, b);
      var k :| 0 <= k < |list| && list[k] == FirstEdgeWith(es, list, b).value && b in es[list[k]].nodes;
      assert a in es[list[k]].nodes;
    } else {
      assert a in es[list[0]].nodes;
    }
  }

  /** When the full scan finds nothing, no edge joins `a` and `b`. */
  lemma AbsentMeansNoJoin(ns: seq<NodeRec>, es: seq<EdgeRec>, fs: seq<FaceRec>, a: nat, b: nat)
    requires LinkedMesh(ns, es, fs) && a < |ns|
    requires FindEdge(es, ns[a].edges, b, true) == Absent
    ensures forall e :: 0 <= e < |es| ==> !Joins(es[e], a, b)
  {
    var list := ns[a].edges;
    FirstEdgeWithCorrect(es, list, b);
    forall e | 0 <= e < |es| ensures !Joins(es[e], a, b) {
      if a in es[e].nodes {
        var k :| 0 <= k < |es[e].nodes| && es[e].nodes[k] == a;
        assert e in list;
        var j :| 0 <= j < |list| && list[j] == e;
        assert b !in es[list[j]].nodes;
      }
    }
  }

  /** A new edge for a pair no edge joins keeps pairs unique. */
  lemma NewEdgeKeepsPairsUnique(es: seq<EdgeRec>, e: EdgeRec, a: nat, b: nat)
    requires PairsUnique(es) && e.nodes == [a, b]
    requires forall k :: 0 <= k < |es| ==> !Joins(es[k], a, b)
    ensures PairsUnique(es + [e])
  {
    var es2 := es + [e];
    forall i, j, x, y | 0 <= i < j < |es2| && x != y && Joins(es2[i], x, y)
      ensures !Joins(es2[j], x, y)
    {
      assert es2[i] == es[i];
      if j < |es| {
        assert es2[j] == es[j];
      } else {
        assert es2[j] == e && !Joins(es[i], a, b) && !Joins(es[i], b, a);
      }
    }
  }

  /** Pairs stay unique when the edges keep their nodes. */
  lemma SameEndpointsKeepPairsUnique(es: seq<EdgeRec>, es2: seq<EdgeRec>)
    requires PairsUnique(es) && KeepsEndpoints(es, es2) && |es2| == |es|
    ensures PairsUnique(es2)
  {
    forall i, j, x, y | 0 <= i < j < |es2| && x != y && Joins(es2[i], x, y)
      ensures !Joins(es2[j], x, y)
    {
      assert es2[i].nodes == es[i].nodes && es2[j].nodes == es[j].nodes;
      assert Joins(es[i], x, y);
    }
  }

  /** One of set_faces' three steps: is_edge_present(a, b); the edge found
      is linked to face `f`; otherwise a new edge is linked to the face,
      then to `a` and to `b`, and appended to `grid.Edges`. A lookup that
      indexes past an edge's nodes is an IndexError; a checked link that
      refuses is an AssertionError. On failure nothing changes. */
  method LinkPair(g: Mesh, f: nat, a: nat, b: nat, lk: Linker) returns (r: Result<nat>)
    requires g.Valid() && f < |g.faces| && a < |g.nodes| && b < |g.nodes|
    modifies g
    ensures g.Valid()
    ensures var l := FindEdge(old(g.edges), old(g.nodes[a].edges), b, lk.scan);
      (r == Fail(IndexError) <==> l == IndexFault) &&
      (r == Fail(AssertionError) <==>
        l != IndexFault && lk.checked &&
        (|old(g.faces[f].edges)| >= 3 || (l.Found? && |old(g.edges[l.edge].faces)| >= 2)))
    ensures r.Fail? ==> r.error == IndexError || r.error == AssertionError
    ensures r.Fail? ==> g.nodes == old(g.nodes) && g.edges == old(g.edges) && g.faces == old(g.faces)
    ensures var l := FindEdge(old(g.edges), old(g.nodes[a].edges), b, lk.scan);
      r.Ok? && l.Found? ==>
      r.value == l.edge && g.nodes == old(g.nodes) &&
        g.edges == old(g.edges)[l.edge := old(g.edges[l.edge]).(faces := LinkList(lk.checked, old(g.edges[l.edge].faces), f))] &&
        g.faces == old(g.faces)[f := old(g.faces[f]).(edges := LinkList(lk.checked, old(g.faces[f].edges), l.edge))]
    ensures var l := FindEdge(old(g.edges), old(g.nodes[a].edges), b, lk.scan);
      r.Ok? && l.Absent? ==>
      r.value == |old(g.edges)| &&
        g.edges == old(g.edges) + [EdgeRec(None, [a, b], [f], false)] &&
        g.nodes == AddEdgeToNode(AddEdgeToNode(old(g.nodes), a, r.value), b, r.value) &&
        g.faces == old(g.faces)[f := old(g.faces[f]).(edges := old(g.faces[f].edges) + [r.value])]
    ensures r.Ok? ==> r.value < |g.edges| && Joins(g.edges[r.value], a, b) && r.value in g.faces[f].edges
    ensures NodesGrow(old(g.nodes), g.nodes) && EdgesGrow(old(g.edges), g.edges) && FaceGrows(old(g.faces), g.faces, f)
    ensures KeepsEndpoints(old(g.edges), g.edges)
    ensures lk.scan && PairsUnique(old(g.edges)) ==> PairsUnique(g.edges)
  {
    var l := LookUpEdge(g, a, b, lk.scan);
    match l
    case IndexFault =>
      return Fail(IndexError);
    case Found(e) =>
      r := LinkFound(g, f, e, a, b, lk);
    case Absent =>
      r := LinkNew(g, f, a, b, lk);
  }

  /** is_edge_present(a, b) of the chosen Grid class, with what its answer
      says about the edges. */
  method LookUpEdge(g: Mesh, a: nat, b: nat, scan: bool) returns (l: EdgeLookup)
    requires g.Valid() && a < |g.nodes|
    ensures l == FindEdge(g.edges, g.nodes[a].edges, b, scan)
    ensures l.Found? ==> l.edge < |g.edges| && Joins(g.edges[l.edge], a, b)
    ensures l == Absent && scan ==> forall e :: 0 <= e < |g.edges| ==> !Joins(g.edges[e], a, b)
  {
    if scan {
      var o := g.IsEdgePresent(a, b);
      l := if o.Some? then Found(o.value) else Absent;
    } else {
      l := g.IsEdgePresentFirstOnly(a, b);
    }
    if l.Found? {
      FoundJoins(g.nodes, g.edges, g.faces, a, b, scan);
    } else if l == Absent && scan {
      AbsentMeansNoJoin(g.nodes, g.edges, g.faces, a, b);
    }
  }

  /** The found edge `e` of `a` and `b` is linked to face `f`. */
  method LinkFound(g: Mesh, f: nat, e: nat, a: nat, b: nat, lk: Linker) returns (r: Result<nat>)
    requires g.Valid() && f < |g.faces| && e < |g.edges| && Joins(g.edges[e], a, b)
    modifies g
    ensures g.Valid()
    ensures r.Fail? <==> lk.checked && (|old(g.faces[f].edges)| >= 3 || |old(g.edges[e].faces)| >= 2)
    ensures r.Fail? ==>
      r.error == AssertionError &&
      g.nodes == old(g.nodes) && g.edges == old(g.edges) && g.faces == old(g.faces)
    ensures r.Ok? ==>
      r.value == e && g.nodes == old(g.nodes) &&
      g.edges == old(g.edges)[e := old(g.edges[e]).(faces := LinkList(lk.checked, old(g.edges[e].faces), f))] &&
      g.faces == old(g.faces)[f := old(g.faces[f]).(edges := LinkList(lk.checked, old(g.faces[f].edges), e))]
    ensures r.Ok? ==> Joins(g.edges[e], a, b) && e in g.faces[f].edges
    ensures KeepsEndpoints(old(g.edges), g.edges) && |g.edges| == |old(g.edges)|
    ensures NodesGrow(old(g.nodes), g.nodes) && EdgesGrow(old(g.edges), g.edges) && FaceGrows(old(g.faces), g.faces, f)
    ensures PairsUnique(old(g.edges)) ==> PairsUnique(g.edges)
  {
    ghost var es0, fs0 := g.edges, g.faces;
    if lk.checked {
      var ok := g.LinkFaceAndEdge(f, e);
      if !ok {
        return Fail(AssertionError);
      }
    } else {
      g.LinkFaceAndEdgeUnchecked(f, e);
    }
    if PairsUnique(es0) {
      SameEndpointsKeepPairsUnique(es0, g.edges);
    }
    EdgeFacesGrow(es0, e, LinkList(lk.checked, es0[e].faces, f));
    FaceEdgesGrow(fs0, f, LinkList(lk.checked, fs0[f].edges, e));
    return Ok(e);
  }

  /** A new edge is linked to face `f`, then to `a` and `b`, and appended;
      a checked face with three edges refuses it. */
  method LinkNew(g: Mesh, f: nat, a: nat, b: nat, lk: Linker) returns (r: Result<nat>)
    requires g.Valid() && f < |g.faces| && a < |g.nodes| && b < |g.nodes|
    modifies g
    ensures g.Valid()
    ensures r.Fail? <==> lk.checked && |old(g.faces[f].edges)| >= 3
    ensures r.Fail? ==>
      r.error == AssertionError &&
      g.nodes == old(g.nodes) && g.edges == old(g.edges) && g.faces == old(g.faces)
    ensures r.Ok? ==>
      r.value == |old(g.edges)| &&
      g.edges == old(g.edges) + [EdgeRec(None, [a, b], [f], false)] &&
      g.nodes == AddEdgeToNode(AddEdgeToNode(old(g.nodes), a, r.value), b, r.value) &&
      g.faces == old(g.faces)[f := old(g.faces[f]).(edges := old(g.faces[f].edges) + [r.value])]
    ensures r.Ok? ==> Joins(g.edges[r.value], a, b) && r.value in g.faces[f].edges
    ensures NodesGrow(old(g.nodes), g.nodes) && EdgesGrow(old(g.edges), g.edges) && FaceGrows(old(g.faces), g.faces, f)
    ensures KeepsEndpoints(old(g.edges), g.edges)
    ensures PairsUnique(old(g.edges)) && (forall k :: 0 <= k < |old(g.edges)| ==> !Joins(old(g.edges)[k], a, b)) ==>
      PairsUnique(g.edges)
  {
    if lk.checked && |g.faces[f].edges| >= 3 {
      return Fail(AssertionError);
    }
    ghost var ns0, es0, fs0 := g.nodes, g.edges, g.faces;
    var e := AppendFaceEdge(g, f, lk);
    LinkEndpoints(g, e, a, b);
    UpdateLast(es0, EdgeRec(None, [], [f], false), EdgeRec(None, [a, b], [f], false));
    AppendedEdgeGrows(es0, g.edges[e]);
    AddEdgeToNodeGrows(ns0, a, e);
    AddEdgeToNodeGrows(AddEdgeToNode(ns0, a, e), b, e);
    NodesGrowTrans(ns0, AddEdgeToNode(ns0, a, e), g.nodes);
    FaceEdgesGrow(fs0, f, fs0[f].edges + [e]);
    if PairsUnique(es0) && forall k :: 0 <= k < |es0| ==> !Joins(es0[k], a, b) {
      NewEdgeKeepsPairsUnique(es0, g.edges[e], a, b);
    }
    return Ok(e);
  }

  /** The first half of LinkNew: a new edge is appended and linked to
      face `f`, which has room for it. */
  method AppendFaceEdge(g: Mesh, f: nat, lk: Linker) returns (e: nat)
    requires g.Valid() && f < |g.faces| && !(lk.checked && |g.faces[f].edges| >= 3)
    modifies g
    ensures g.Valid() && e == |old(g.edges)| && g.nodes == old(g.nodes)
    ensures g.edges == old(g.edges) + [EdgeRec(None, [], [f], false)]
    ensures g.faces == old(g.faces)[f := old(g.faces[f]).(edges := old(g.faces[f].edges) + [e])]
  {
    ghost var es0, fs0 := g.edges, g.faces;
    e := |g.edges|;
    g.AppendEdge(NewEdge());
    assert e !in g.faces[f].edges;
    if lk.checked {
      var ok := g.LinkFaceAndEdge(f, e);
    } else {
      g.LinkFaceAndEdgeUnchecked(f, e);
    }
    assert AddNew([], f) == [f];
    assert g.edges[e] == EdgeRec(None, [], [f], false);
  }

  /** The second half of LinkNew: the new edge `e` is linked to `a`, then
      to `b`. */
  method LinkEndpoints(g: Mesh, e: nat, a: nat, b: nat)
    requires g.Valid() && e < |g.edges| && g.edges[e].nodes == [] && a < |g.nodes| && b < |g.nodes|
    modifies g
    ensures g.Valid() && g.faces == old(g.faces)
    ensures g.edges == old(g.edges)[e := old(g.edges[e]).(nodes := [a, b])]
    ensures g.nodes == AddEdgeToNode(AddEdgeToNode(old(g.nodes), a, e), b, e)
  {
    g.LinkNodeAndEdgeUnchecked(a, e);
    g.LinkNodeAndEdgeUnchecked(b, e);
    assert [] + [a] + [b] == [a, b];
  }

  lemma UpdateLast<T>(s: seq<T>, x: T, y: T)
    ensures (s + [x])[|s| := y] == s + [y]
  {
  }

  // ---------------------------------------------------------------------
  // set_faces: one face

  /** The three nodes of a face, `nodes[f.nodes_ids[k] - 1]` for k = 0, 1, 2
      with Python's indexing (a face id of 0 picks the last node); None where
      the face has fewer than three ids or an id indexes past the list. */
  function ResolveIds(refs: seq<nat>, ids: seq<int>): (r: Option<seq<nat>>)
    ensures r.Some? <==> |ids| >= 3 && forall k :: 0 <= k < 3 ==> PyIndex(ids[k] - 1, |refs|).Some?
    ensures r.Some? ==> |r.value| == 3 && forall k :: 0 <= k < 3 ==> r.value[k] in refs
  {
    if |ids| < 3 then None
    else
      match (PyIndex(ids[0] - 1, |refs|), PyIndex(ids[1] - 1, |refs|), PyIndex(ids[2] - 1, |refs|))
      case (Some(i), Some(j), Some(k)) => Some([refs[i], refs[j], refs[k]])
      case _ => None
  }

  /** Ids counted from 1 pick the nodes at those positions. */
  lemma ResolveIdsFromOne(refs: seq<nat>, ids: seq<int>)
    requires |ids| >= 3 && forall k :: 0 <= k < 3 ==> 1 <= ids[k] <= |refs|
    ensures ResolveIds(refs, ids) == Some([refs[ids[0] - 1], refs[ids[1] - 1], refs[ids[2] - 1]])
  {
  }

  /** Face `face` lists an edge joining `a` and `b`. */
  ghost predicate HasEdge(es: seq<EdgeRec>, face: FaceRec, a: nat, b: nat) {
    exists e :: e in face.edges && 0 <= e < |es| && Joins(es[e], a, b)
  }

  /** Face `face` lists an edge for each side of the triangle `t`. */
  ghost predicate Sides(es: seq<EdgeRec>, face: FaceRec, t: seq<nat>)
    requires |t| == 3
  {
    HasEdge(es, face, t[0], t[1]) && HasEdge(es, face, t[1], t[2]) && HasEdge(es, face, t[2], t[0])
  }

  /** The nodes keep their data; their link lists only grow at the end. */
  ghost predicate NodesGrow(ns: seq<NodeRec>, ns2: seq<NodeRec>) {
    |ns2| == |ns| &&
    forall k :: 0 <= k < |ns| ==>
      ns2[k].pos == ns[k].pos && ns2[k].id == ns[k].id && ns2[k].vals == ns[k].vals &&
      ns2[k].fixed == ns[k].fixed && ns2[k].component == ns[k].component &&
      ns[k].faces <= ns2[k].faces && ns[k].edges <= ns2[k].edges
  }

  /** The edges keep their nodes and data; their face lists only grow at the
      end; new edges may follow. */
  ghost predicate EdgesGrow(es: seq<EdgeRec>, es2: seq<EdgeRec>) {
    |es| <= |es2| &&
    forall k :: 0 <= k < |es| ==>
      es2[k].nodes == es[k].nodes && es2[k].id == es[k].id && es2[k].border == es[k].border &&
      es[k].faces <= es2[k].faces
  }

  /** Only face `f` changes, and only by links added at the end of its lists. */
  ghost predicate FaceGrows(fs: seq<FaceRec>, fs2: seq<FaceRec>, f: nat) {
    |fs2| == |fs| && f < |fs| &&
    (forall k :: 0 <= k < |fs| && k != f ==> fs2[k] == fs[k]) &&
    fs2[f].id == fs[f].id && fs2[f].nodesIds == fs[f].nodesIds && fs2[f].vals == fs[f].vals &&
    fs2[f].aux == fs[f].aux && fs[f].nodes <= fs2[f].nodes && fs[f].edges <= fs2[f].edges
  }

  lemma NodesGrowTrans(ns: seq<NodeRec>, ns2: seq<NodeRec>, ns3: seq<NodeRec>)
    requires NodesGrow(ns, ns2) && NodesGrow(ns2, ns3)
    ensures NodesGrow(ns, ns3)
  {
    forall k | 0 <= k < |ns| ensures ns[k].faces <= ns3[k].faces && ns[k].edges <= ns3[k].edges {
      PrefixTrans(ns[k].faces, ns2[k].faces, ns3[k].faces);
      PrefixTrans(ns[k].edges, ns2[k].edges, ns3[k].edges);
    }
  }

  lemma EdgesGrowTrans(es: seq<EdgeRec>, es2: seq<EdgeRec>, es3: seq<EdgeRec>)
    requires EdgesGrow(es, es2) && EdgesGrow(es2, es3)
    ensures EdgesGrow(es, es3)
  {
    forall k | 0 <= k < |es| ensures es[k].faces <= es3[k].faces {
      PrefixTrans(es[k].faces, es2[k].faces, es3[k].faces);
    }
  }

  lemma FaceGrowsTrans(fs: seq<FaceRec>, fs2: seq<FaceRec>, fs3: seq<FaceRec>, f: nat)
    requires FaceGrows(fs, fs2, f) && FaceGrows(fs2, fs3, f)
    ensures FaceGrows(fs, fs3, f)
  {
    PrefixTrans(fs[f].nodes, fs2[f].nodes, fs3[f].nodes);
    PrefixTrans(fs[f].edges, fs2[f].edges, fs3[f].edges);
  }

  lemma PrefixTrans<T>(a: seq<T>, b: seq<T>, c: seq<T>)
    requires a <= b && b <= c
    ensures a <= c
  {
    assert a == b[..|a|] && b == c[..|b|];
    assert c[..|b|][..|a|] == c[..|a|];
  }

  /** A side found on a face stays found as the face and the edges grow. */
  lemma HasEdgeKept(es: seq<EdgeRec>, es2: seq<EdgeRec>, face: FaceRec, face2: FaceRec, a: nat, b: nat)
    requires HasEdge(es, face, a, b) && KeepsEndpoints(es, es2) && face.edges <= face2.edges
    ensures HasEdge(es2, face2, a, b)
  {
    var e :| e in face.edges && 0 <= e < |es| && Joins(es[e], a, b);
    var i :| 0 <= i < |face.edges| && face.edges[i] == e;
    assert face2.edges[i] == e;
    assert Joins(es2[e], a, b);
  }

  lemma AddEdgeToNodeGrows(ns: seq<NodeRec>, n: nat, e: nat)
    requires n < |ns|
    ensures NodesGrow(ns, AddEdgeToNode(ns, n, e))
  {
    var ns2 := AddEdgeToNode(ns, n, e);
    forall k | 0 <= k < |ns| ensures ns[k].edges <= ns2[k].edges {
    }
  }

  lemma AddFaceToNodeGrows(ns: seq<NodeRec>, n: nat, f: nat)
    requires n < |ns|
    ensures NodesGrow(ns, AddFaceToNode(ns, n, f))
  {
    var ns2 := AddFaceToNode(ns, n, f);
    forall k | 0 <= k < |ns| ensures ns[k].faces <= ns2[k].faces {
    }
  }

  lemma FaceEdgesGrow(fs: seq<FaceRec>, f: nat, s2: seq<nat>)
    requires f < |fs| && fs[f].edges <= s2
    ensures FaceGrows(fs, fs[f := fs[f].(edges := s2)], f)
  {
  }

  lemma FaceNodesGrow(fs: seq<FaceRec>, f: nat, s2: seq<nat>)
    requires f < |fs| && fs[f].nodes <= s2
    ensures FaceGrows(fs, fs[f := fs[f].(nodes := s2)], f)
  {
  }

  lemma EdgeFacesGrow(es: seq<EdgeRec>, e: nat, s2: seq<nat>)
    requires e < |es| && es[e].faces <= s2
    ensures EdgesGrow(es, es[e := es[e].(faces := s2)])
  {
  }

  lemma AppendedEdgeGrows(es: seq<EdgeRec>, x: EdgeRec)
    ensures EdgesGrow(es, es + [x])
  {
  }

  /** link_face_and_node(f, n), checked or not. */
  method LinkFaceNode(g: Mesh, f: nat, n: nat, checked: bool) returns (ok: bool)
    requires g.Valid() && f < |g.faces| && n < |g.nodes|
    modifies g
    ensures g.Valid() && g.edges == old(g.edges)
    ensures NodesGrow(old(g.nodes), g.nodes) && FaceGrows(old(g.faces), g.faces, f)
    ensures ok <==> !checked || |old(g.faces[f].nodes)| < 3
    ensures ok ==> g.faces[f].nodes == old(g.faces[f].nodes) + [n] && f in g.nodes[n].faces
    ensures !ok ==> g.nodes == old(g.nodes) && g.faces == old(g.faces)
    ensures g.faces[f].edges == old(g.faces[f].edges)
  {
    ghost var ns0, fs0 := g.nodes, g.faces;
    if checked {
      ok := g.LinkFaceAndNode(f, n);
    } else {
      g.LinkFaceAndNodeUnchecked(f, n);
      ok := true;
    }
    if ok {
      AddFaceToNodeGrows(ns0, n, f);
      FaceNodesGrow(fs0, f, fs0[f].nodes + [n]);
    }
  }

  /** Two link_face_and_node calls, `a` then `b`. */
  method LinkFaceNodePair(g: Mesh, f: nat, a: nat, b: nat, checked: bool) returns (ok: bool)
    requires g.Valid() && f < |g.faces| && a < |g.nodes| && b < |g.nodes|
    modifies g
    ensures g.Valid() && g.edges == old(g.edges)
    ensures NodesGrow(old(g.nodes), g.nodes) && FaceGrows(old(g.faces), g.faces, f)
    ensures ok <==> !checked || |old(g.faces[f].nodes)| < 2
    ensures ok ==> g.faces[f].nodes == old(g.faces[f].nodes) + [a, b]
    ensures g.faces[f].edges == old(g.faces[f].edges)
  {
    ghost var ns0, fs0 := g.nodes, g.faces;
    ok := LinkFaceNode(g, f, a, checked);
    if !ok {
      return;
    }
    ghost var ns1, fs1 := g.nodes, g.faces;
    ok := LinkFaceNode(g, f, b, checked);
    NodesGrowTrans(ns0, ns1, g.nodes);
    FaceGrowsTrans(fs0, fs1, g.faces, f);
    if ok {
      assert g.faces[f].nodes == fs0[f].nodes + [a] + [b];
    }
  }

  /** The three link_face_and_node calls of the readers' set_faces; a
      checked face that already has nodes refuses one of them. */
  method LinkFaceNodes(g: Mesh, f: nat, t: seq<nat>, checked: bool) returns (ok: bool)
    requires g.Valid() && f < |g.faces| && |t| == 3 && forall k :: 0 <= k < 3 ==> t[k] < |g.nodes|
    modifies g
    ensures g.Valid() && g.edges == old(g.edges)
    ensures NodesGrow(old(g.nodes), g.nodes) && FaceGrows(old(g.faces), g.faces, f)
    ensures ok <==> !checked || |old(g.faces[f].nodes)| == 0
    ensures ok ==> g.faces[f].nodes == old(g.faces[f].nodes) + t
    ensures g.faces[f].edges == old(g.faces[f].edges)
  {
    ghost var ns0, fs0 := g.nodes, g.faces;
    ok := LinkFaceNode(g, f, t[0], checked);
    if !ok {
      return;
    }
    ghost var ns1, fs1 := g.nodes, g.faces;
    ok := LinkFaceNodePair(g, f, t[1], t[2], checked);
    NodesGrowTrans(ns0, ns1, g.nodes);
    FaceGrowsTrans(fs0, fs1, g.faces, f);
    if ok {
      assert g.faces[f].nodes == fs0[f].nodes + [t[0]] + [t[1], t[2]];
      assert [t[0]] + [t[1], t[2]] == t;
    }
  }



  /** A side just linked is a side the face has. */
  lemma LinkedSide(es: seq<EdgeRec>, face: FaceRec, e: nat, a: nat, b: nat)
    requires e < |es| && Joins(es[e], a, b) && e in face.edges
    ensures HasEdge(es, face, a, b)
  {
  }

  /** LinkPair seen from a face: the side (a, b) is there afterwards. */
  method LinkSide(g: Mesh, f: nat, a: nat, b: nat, lk: Linker) returns (r: Result<()>)
    requires g.Valid() && f < |g.faces| && a < |g.nodes| && b < |g.nodes|
    modifies g
    ensures g.Valid()
    ensures NodesGrow(old(g.nodes), g.nodes) && EdgesGrow(old(g.edges), g.edges) && FaceGrows(old(g.faces), g.faces, f)
    ensures g.faces[f].nodes == old(g.faces[f].nodes)
    ensures r.Ok? ==> HasEdge(g.edges, g.faces[f], a, b)
    ensures r.Fail? ==> (r.error == IndexError && !lk.scan) || (r.error == AssertionError && lk.checked)
    ensures lk.scan && PairsUnique(old(g.edges)) ==> PairsUnique(g.edges)
  {
    var e := LinkPair(g, f, a, b, lk);
    if e.Fail? {
      return Fail(e.error);
    }
    LinkedSide(g.edges, g.faces[f], e.value, a, b);
    return Ok(());
  }

  /** The last two sides of set_faces, (t[1], t[2]) then (t[2], t[0]). */
  method LinkLastSides(g: Mesh, f: nat, t: seq<nat>, lk: Linker) returns (r: Result<()>)
    requires g.Valid() && f < |g.faces| && |t| == 3 && forall k :: 0 <= k < 3 ==> t[k] < |g.nodes|
    modifies g
    ensures g.Valid()
    ensures NodesGrow(old(g.nodes), g.nodes) && EdgesGrow(old(g.edges), g.edges) && FaceGrows(old(g.faces), g.faces, f)
    ensures g.faces[f].nodes == old(g.faces[f].nodes)
    ensures r.Ok? ==> HasEdge(g.edges, g.faces[f], t[1], t[2]) && HasEdge(g.edges, g.faces[f], t[2], t[0])
    ensures r.Fail? ==> (r.error == IndexError && !lk.scan) || (r.error == AssertionError && lk.checked)
    ensures lk.scan && PairsUnique(old(g.edges)) ==> PairsUnique(g.edges)
  {
    ghost var ns0, es0, fs0 := g.nodes, g.edges, g.faces;
    var r1 := LinkSide(g, f, t[1], t[2], lk);
    if r1.Fail? {
      return r1;
    }
    ghost var ns1, es1, fs1 := g.nodes, g.edges, g.faces;
    r := LinkSide(g, f, t[2], t[0], lk);
    NodesGrowTrans(ns0, ns1, g.nodes);
    EdgesGrowTrans(es0, es1, g.edges);
    FaceGrowsTrans(fs0, fs1, g.faces, f);
    if r.Ok? {
      HasEdgeKept(es1, g.edges, fs1[f], g.faces[f], t[1], t[2]);
    }
  }

  /** The three sides of set_faces: for each of (t[0], t[1]), (t[1], t[2])
      and (t[2], t[0]), an edge is found or made and linked to face `f`. */
  method LinkSides(g: Mesh, f: nat, t: seq<nat>, lk: Linker) returns (r: Result<()>)
    requires g.Valid() && f < |g.faces| && |t| == 3 && forall k :: 0 <= k < 3 ==> t[k] < |g.nodes|
    modifies g
    ensures g.Valid()
    ensures NodesGrow(old(g.nodes), g.nodes) && EdgesGrow(old(g.edges), g.edges) && FaceGrows(old(g.faces), g.faces, f)
    ensures g.faces[f].nodes == old(g.faces[f].nodes)
    ensures r.Ok? ==> Sides(g.edges, g.faces[f], t)
    ensures r.Fail? ==> (r.error == IndexError && !lk.scan) || (r.error == AssertionError && lk.checked)
    ensures lk.scan && PairsUnique(old(g.edges)) ==> PairsUnique(g.edges)
  {
    ghost var ns0, es0, fs0 := g.nodes, g.edges, g.faces;
    var r1 := LinkSide(g, f, t[0], t[1], lk);
    if r1.Fail? {
      return r1;
    }
    ghost var ns1, es1, fs1 := g.nodes, g.edges, g.faces;
    r := LinkLastSides(g, f, t, lk);
    NodesGrowTrans(ns0, ns1, g.nodes);
    EdgesGrowTrans(es0, es1, g.edges);
    FaceGrowsTrans(fs0, fs1, g.faces, f);
    if r.Ok? {
      HasEdgeKept(es1, g.edges, fs1[f], g.faces[f], t[0], t[1]);
    }
  }

  /** One iteration of set_faces: the face's three nodes are looked up by
      id, linked to it when the reader does so, then its three sides are
      found or made. An id that does not resolve is an IndexError and
      nothing changes; a refused link stops the face. */
  method LinkFace(g: Mesh, f: nat, refs: seq<nat>, lk: Linker) returns (r: Result<seq<nat>>)
    requires g.Valid() && f < |g.faces| && forall k :: 0 <= k < |refs| ==> refs[k] < |g.nodes|
    modifies g
    ensures g.Valid()
    ensures NodesGrow(old(g.nodes), g.nodes) && EdgesGrow(old(g.edges), g.edges) && FaceGrows(old(g.faces), g.faces, f)
    ensures ResolveIds(refs, old(g.faces[f].nodesIds)).None? ==>
      r == Fail(IndexError) && g.nodes == old(g.nodes) && g.edges == old(g.edges) && g.faces == old(g.faces)
    ensures r.Ok? ==> ResolveIds(refs, old(g.faces[f].nodesIds)) == Some(r.value) && Sides(g.edges, g.faces[f], r.value)
    ensures r.Ok? ==> g.faces[f].nodes == old(g.faces[f].nodes) + (if lk.linkNodes then r.value else [])
    ensures r.Fail? ==>
      (r.error == IndexError && (!lk.scan || ResolveIds(refs, old(g.faces[f].nodesIds)).None?)) ||
      (r.error == AssertionError && lk.checked)
    ensures lk.checked && lk.linkNodes && |old(g.faces[f].nodes)| > 0 ==> r.Fail?
    ensures lk.scan && PairsUnique(old(g.edges)) ==> PairsUnique(g.edges)
  {
    var t := ResolveIds(refs, g.faces[f].nodesIds);
    if t.None? {
      return Fail(IndexError);
    }
    var s := LinkResolved(g, f, t.value, lk);
    if s.Fail? {
      return Fail(s.error);
    }
    return Ok(t.value);
  }

  /** The body of LinkFace once the face's three nodes are known. */
  method LinkResolved(g: Mesh, f: nat, tri: seq<nat>, lk: Linker) returns (r: Result<()>)
    requires g.Valid() && f < |g.faces| && |tri| == 3 && forall k :: 0 <= k < 3 ==> tri[k] < |g.nodes|
    modifies g
    ensures g.Valid()
    ensures NodesGrow(old(g.nodes), g.nodes) && EdgesGrow(old(g.edges), g.edges) && FaceGrows(old(g.faces), g.faces, f)
    ensures r.Ok? ==> Sides(g.edges, g.faces[f], tri)
    ensures r.Ok? ==> g.faces[f].nodes == old(g.faces[f].nodes) + (if lk.linkNodes then tri else [])
    ensures r.Fail? ==> (r.error == IndexError && !lk.scan) || (r.error == AssertionError && lk.checked)
    ensures lk.checked && lk.linkNodes && |old(g.faces[f].nodes)| > 0 ==> r.Fail?
    ensures lk.scan && PairsUnique(old(g.edges)) ==> PairsUnique(g.edges)
  {
    ghost var ns0, es0, fs0 := g.nodes, g.edges, g.faces;
    var ok := LinkNodesIf(g, f, tri, lk);
    if !ok {
      return Fail(AssertionError);
    }
    ghost var ns1, es1, fs1 := g.nodes, g.edges, g.faces;
    r := LinkSides(g, f, tri, lk);
    NodesGrowTrans(ns0, ns1, g.nodes);
    EdgesGrowTrans(es0, es1, g.edges);
    FaceGrowsTrans(fs0, fs1, g.faces, f);
  }

  /** The face's nodes are linked first, when the reader links them. */
  method LinkNodesIf(g: Mesh, f: nat, tri: seq<nat>, lk: Linker) returns (ok: bool)
    requires g.Valid() && f < |g.faces| && |tri| == 3 && forall k :: 0 <= k < 3 ==> tri[k] < |g.nodes|
    modifies g
    ensures g.Valid() && g.edges == old(g.edges)
    ensures NodesGrow(old(g.nodes), g.nodes) && FaceGrows(old(g.faces), g.faces, f)
    ensures ok <==> !(lk.linkNodes && lk.checked && |old(g.faces[f].nodes)| > 0)
    ensures ok ==> g.faces[f].nodes == old(g.faces[f].nodes) + (if lk.linkNodes then tri else [])
  {
    if lk.linkNodes {
      ok := LinkFaceNodes(g, f, tri, lk.checked);
    } else {
      ok := true;
      assert g.faces[f].nodes + [] == g.faces[f].nodes;
    }
  }

  // ---------------------------------------------------------------------
  // set_faces: the loop

  /** What set_faces leaves on a face: its ids resolve to three nodes, it
      has an edge for each side, and its node list gained those nodes when
      the reader links them. `nodes0` is the face's node list before. */
  ghost predicate FaceSet(es: seq<EdgeRec>, face: FaceRec, nodes0: seq<nat>, refs: seq<nat>, linkNodes: bool) {
    var t := ResolveIds(refs, face.nodesIds);
    t.Some? && Sides(es, face, t.value) && face.nodes == nodes0 + (if linkNodes then t.value else [])
  }

  /** The faces in [lo, hi) grew as FaceGrows says; the others are unchanged. */
  ghost predicate FacesGrow(fs: seq<FaceRec>, fs2: seq<FaceRec>, lo: nat, hi: nat) {
    |fs2| == |fs| &&
    (forall k :: 0 <= k < |fs| && !(lo <= k < hi) ==> fs2[k] == fs[k]) &&
    forall k :: lo <= k < hi && k < |fs| ==>
      fs2[k].id == fs[k].id && fs2[k].nodesIds == fs[k].nodesIds && fs2[k].vals == fs[k].vals &&
      fs2[k].aux == fs[k].aux && fs[k].nodes <= fs2[k].nodes && fs[k].edges <= fs2[k].edges
  }

  lemma FacesGrowStep(fs: seq<FaceRec>, fs2: seq<FaceRec>, fs3: seq<FaceRec>, lo: nat, hi: nat)
    requires FacesGrow(fs, fs2, lo, hi) && FaceGrows(fs2, fs3, hi) && lo <= hi
    ensures FacesGrow(fs, fs3, lo, hi + 1)
  {
    assert fs2[hi] == fs[hi];
  }

  /** A face that set_faces finished stays finished as edges grow. */
  lemma FaceSetKept(es: seq<EdgeRec>, es2: seq<EdgeRec>, face: FaceRec, nodes0: seq<nat>, refs: seq<nat>, linkNodes: bool)
    requires FaceSet(es, face, nodes0, refs, linkNodes) && EdgesGrow(es, es2)
    ensures FaceSet(es2, face, nodes0, refs, linkNodes)
  {
    var t := ResolveIds(refs, face.nodesIds).value;
    HasEdgeKept(es, es2, face, face, t[0], t[1]);
    HasEdgeKept(es, es2, face, face, t[1], t[2]);
    HasEdgeKept(es, es2, face, face, t[2], t[0]);
  }

  /** The loop invariant of set_faces: faces [from, f) are finished. */
  ghost predicate FacesDone(g: Mesh, ns0: seq<NodeRec>, es0: seq<EdgeRec>, fs0: seq<FaceRec>,
                            from: nat, f: nat, refs: seq<nat>, lk: Linker)
    reads g
  {
    g.Valid() && from <= f <= |g.faces| &&
    NodesGrow(ns0, g.nodes) && EdgesGrow(es0, g.edges) && FacesGrow(fs0, g.faces, from, f) &&
    (forall k :: from <= k < f ==> FaceSet(g.edges, g.faces[k], fs0[k].nodes, refs, lk.linkNodes)) &&
    (lk.scan && PairsUnique(es0) ==> PairsUnique(g.edges))
  }

  /** One face of set_faces, with the loop invariant carried over. */
  method SetFacesStep(g: Mesh, from: nat, f: nat, refs: seq<nat>, lk: Linker,
                      ghost ns0: seq<NodeRec>, ghost es0: seq<EdgeRec>, ghost fs0: seq<FaceRec>)
    returns (t: Result<seq<nat>>)
    requires FacesDone(g, ns0, es0, fs0, from, f, refs, lk) && f < |g.faces|
    requires forall k :: 0 <= k < |refs| ==> refs[k] < |g.nodes|
    modifies g
    ensures g.Valid() && NodesGrow(ns0, g.nodes) && EdgesGrow(es0, g.edges) && FacesGrow(fs0, g.faces, from, f + 1)
    ensures lk.scan && PairsUnique(es0) ==> PairsUnique(g.edges)
    ensures t.Ok? ==> FacesDone(g, ns0, es0, fs0, from, f + 1, refs, lk)
    ensures t.Fail? ==>
      (t.error == IndexError && (!lk.scan || ResolveIds(refs, g.faces[f].nodesIds).None?)) ||
      (t.error == AssertionError && lk.checked)
  {
    ghost var ns1, es1, fs1 := g.nodes, g.edges, g.faces;
    t := LinkFace(g, f, refs, lk);
    NodesGrowTrans(ns0, ns1, g.nodes);
    EdgesGrowTrans(es0, es1, g.edges);
    FacesGrowStep(fs0, fs1, g.faces, from, f);
    if t.Ok? {
      forall k | from <= k < f
        ensures FaceSet(g.edges, g.faces[k], fs0[k].nodes, refs, lk.linkNodes)
      {
        assert g.faces[k] == fs1[k];
        FaceSetKept(es1, g.edges, fs1[k], fs0[k].nodes, refs, lk.linkNodes);
      }
      assert fs1[f] == fs0[f];
    }
  }

  /** set_faces over the faces from position `from` on, in order, stopping
      at the first face that raises. */
  method SetFaces(g: Mesh, from: nat, refs: seq<nat>, lk: Linker) returns (r: Result<()>)
    requires g.Valid() && from <= |g.faces| && forall k :: 0 <= k < |refs| ==> refs[k] < |g.nodes|
    modifies g
    ensures g.Valid()
    ensures NodesGrow(old(g.nodes), g.nodes) && EdgesGrow(old(g.edges), g.edges)
    ensures FacesGrow(old(g.faces), g.faces, from, |g.faces|)
    ensures r.Ok? ==> forall k :: from <= k < |g.faces| ==>
      FaceSet(g.edges, g.faces[k], old(g.faces)[k].nodes, refs, lk.linkNodes)
    ensures r.Fail? ==>
      (r.error == IndexError &&
        (!lk.scan || exists k :: from <= k < |g.faces| && ResolveIds(refs, g.faces[k].nodesIds).None?)) ||
      (r.error == AssertionError && lk.checked)
    ensures lk.scan && PairsUnique(old(g.edges)) ==> PairsUnique(g.edges)
  {
    ghost var ns0, es0, fs0 := g.nodes, g.edges, g.faces;
    var f: nat := from;
    while f < |g.faces|
      invariant FacesDone(g, ns0, es0, fs0, from, f, refs, lk)
      decreases |g.faces| - f
    {
      var t := SetFacesStep(g, from, f, refs, lk, ns0, es0, fs0);
      if t.Fail? {
        return Fail(t.error);
      }
      f := f + 1;
    }
    return Ok(());
  }

  // ---------------------------------------------------------------------
  // Zones of faces

  /** A zone's node list after set_nodes replaced its nodes by grid nodes:
      the grid positions. */
  function Positions(refs: seq<NodeRef>): (r: seq<nat>)
    requires forall i :: 0 <= i < |refs| ==> refs[i].InGrid?
    ensures |r| == |refs| && forall i :: 0 <= i < |r| ==> refs[i] == InGrid(r[i])
  {
    if refs == [] then [] else [refs[0].k] + Positions(refs[1..])
  }

  /** With replacement every zone node becomes a grid node. */
  lemma MergeZonesInGrid(m: Matcher, zones: seq<seq<NodeRec>>, z: nat)
    requires z < |zones|
    ensures var r := MergeZones(m, zones, true);
      z < |r.1| && |r.1[z]| == |zones[z]| &&
      forall i :: 0 <= i < |r.1[z]| ==> r.1[z][i].InGrid? && r.1[z][i].k < |r.0|
  {
    MergeZonesShape(m, zones, true);
    forall i | 0 <= i < |zones[z]|
      ensures MergeZones(m, zones, true).1[z][i].InGrid? &&
        MergeZones(m, zones, true).1[z][i].k < |MergeZones(m, zones, true).0|
    {
      MergeZonesRefAt(m, zones, true, z, i);
    }
  }

  /** `grid.Faces += faces`. */
  method AppendFaces(g: Mesh, fs: seq<FaceRec>)
    requires g.Valid() && forall k :: 0 <= k < |fs| ==> fs[k].nodes == [] && fs[k].edges == []
    modifies g
    ensures g.Valid() && g.nodes == old(g.nodes) && g.edges == old(g.edges)
    ensures g.faces == old(g.faces) + fs
  {
    var i := 0;
    while i < |fs|
      invariant 0 <= i <= |fs| && g.Valid()
      invariant g.nodes == old(g.nodes) && g.edges == old(g.edges) && g.faces == old(g.faces) + fs[..i]
    {
      g.AppendFace(fs[i]);
      assert fs[..i + 1] == fs[..i] + [fs[i]];
      i := i + 1;
    }
    assert fs[..i] == fs;
  }

  /** `set_faces(grid, n, f); grid.Faces += f` for one zone, with the
      zone's faces placed in the grid first: set_faces never reads
      grid.Faces, so on success the outcome is the same. */
  method AddZoneFaces(g: Mesh, fs: seq<FaceRec>, refs: seq<nat>, lk: Linker) returns (r: Result<()>)
    requires g.Valid() && forall k :: 0 <= k < |refs| ==> refs[k] < |g.nodes|
    requires forall k :: 0 <= k < |fs| ==> fs[k].nodes == [] && fs[k].edges == []
    modifies g
    ensures g.Valid()
    ensures NodesGrow(old(g.nodes), g.nodes) && EdgesGrow(old(g.edges), g.edges)
    ensures FacesGrow(old(g.faces) + fs, g.faces, |old(g.faces)|, |g.faces|)
    ensures r.Ok? ==> forall k :: |old(g.faces)| <= k < |g.faces| ==>
      FaceSet(g.edges, g.faces[k], [], refs, lk.linkNodes)
    ensures r.Fail? ==>
      (r.error == IndexError &&
        (!lk.scan || exists k :: 0 <= k < |fs| && ResolveIds(refs, fs[k].nodesIds).None?)) ||
      (r.error == AssertionError && lk.checked)
    ensures lk.scan && PairsUnique(old(g.edges)) ==> PairsUnique(g.edges)
  {
    var from := |g.faces|;
    AppendFaces(g, fs);
    ghost var fs1 := g.faces;
    r := SetFaces(g, from, refs, lk);
    if r.Ok? {
      FreshFacesSet(fs1, g.faces, g.edges, from, refs, lk.linkNodes);
    }
    if r.Fail? && r.error == IndexError && lk.scan {
      UnresolvedFreshFace(fs1, fs, g.faces, from, refs);
    }
  }

  /** Faces that had no nodes before set_faces are set from scratch. */
  lemma FreshFacesSet(fs1: seq<FaceRec>, fs2: seq<FaceRec>, es: seq<EdgeRec>, from: nat, refs: seq<nat>, linkNodes: bool)
    requires |fs1| == |fs2| && forall k :: from <= k < |fs1| ==> fs1[k].nodes == []
    requires forall k :: from <= k < |fs2| ==> FaceSet(es, fs2[k], fs1[k].nodes, refs, linkNodes)
    ensures forall k :: from <= k < |fs2| ==> FaceSet(es, fs2[k], [], refs, linkNodes)
  {
    forall k | from <= k < |fs2| ensures FaceSet(es, fs2[k], [], refs, linkNodes) {
      assert fs1[k].nodes == [];
    }
  }

  /** A face of the appended zone whose ids do not resolve. */
  lemma UnresolvedFreshFace(fs1: seq<FaceRec>, fs: seq<FaceRec>, fs2: seq<FaceRec>, from: nat, refs: seq<nat>)
    requires from + |fs| == |fs1| && fs1[from..] == fs
    requires FacesGrow(fs1, fs2, from, |fs2|)
    requires exists k :: from <= k < |fs2| && ResolveIds(refs, fs2[k].nodesIds).None?
    ensures exists k :: 0 <= k < |fs| && ResolveIds(refs, fs[k].nodesIds).None?
  {
    var k :| from <= k < |fs2| && ResolveIds(refs, fs2[k].nodesIds).None?;
    assert fs[k - from] == fs1[k];
  }

  /** A face with three nodes and an edge along each of its sides. */
  ghost predicate Triangle(es: seq<EdgeRec>, face: FaceRec) {
    |face.nodes| == 3 && Sides(es, face, face.nodes)
  }

  lemma FaceSetTriangle(es: seq<EdgeRec>, face: FaceRec, refs: seq<nat>)
    requires FaceSet(es, face, [], refs, true)
    ensures Triangle(es, face) && Some(face.nodes) == ResolveIds(refs, face.nodesIds)
  {
    assert [] + ResolveIds(refs, face.nodesIds).value == ResolveIds(refs, face.nodesIds).value;
  }

  lemma TriangleKept(es: seq<EdgeRec>, es2: seq<EdgeRec>, face: FaceRec)
    requires Triangle(es, face) && EdgesGrow(es, es2)
    ensures Triangle(es2, face)
  {
    var t := face.nodes;
    HasEdgeKept(es, es2, face, face, t[0], t[1]);
    HasEdgeKept(es, es2, face, face, t[1], t[2]);
    HasEdgeKept(es, es2, face, face, t[2], t[0]);
  }

  /** The number of faces in a list of zones. */
  function FaceCount(fss: seq<seq<FaceRec>>): (r: nat)
    ensures fss != [] ==> r == FaceCount(fss[..|fss| - 1]) + |fss[|fss| - 1]|
  {
    if fss == [] then 0 else FaceCount(fss[..|fss| - 1]) + |fss[|fss| - 1]|
  }

  /** Some face of some zone names a node its zone does not have. */
  ghost predicate Unresolved(fss: seq<seq<FaceRec>>, refs: seq<seq<nat>>) {
    exists z, k :: 0 <= z < |fss| && z < |refs| && 0 <= k < |fss[z]| && ResolveIds(refs[z], fss[z][k].nodesIds).None?
  }

  /** The loop invariant over zones: the faces added so far are triangles
      and resolved against their zone. */
  ghost predicate ZonesDone(g: Mesh, ns0: seq<NodeRec>, es0: seq<EdgeRec>, fs0: seq<FaceRec>,
                            fss: seq<seq<FaceRec>>, refs: seq<seq<nat>>, z: nat, lk: Linker)
    reads g
  {
    g.Valid() && z <= |fss| && z <= |refs| &&
    NodesGrow(ns0, g.nodes) && EdgesGrow(es0, g.edges) &&
    |g.faces| == |fs0| + FaceCount(fss[..z]) && g.faces[..|fs0|] == fs0 &&
    (forall k :: |fs0| <= k < |g.faces| ==> Triangle(g.edges, g.faces[k])) &&
    !Unresolved(fss[..z], refs[..z]) &&
    (lk.scan && PairsUnique(es0) ==> PairsUnique(g.edges))
  }

  /** One zone of `for f, n in zip(faces, nodes)`, the invariant carried over. */
  method ZoneStep(g: Mesh, fss: seq<seq<FaceRec>>, refs: seq<seq<nat>>, z: nat, lk: Linker,
                  ghost ns0: seq<NodeRec>, ghost es0: seq<EdgeRec>, ghost fs0: seq<FaceRec>)
    returns (r: Result<()>)
    requires ZonesDone(g, ns0, es0, fs0, fss, refs, z, lk) && z < |fss| && z < |refs| && lk.linkNodes
    requires forall k :: 0 <= k < |refs[z]| ==> refs[z][k] < |g.nodes|
    requires forall k :: 0 <= k < |fss[z]| ==> fss[z][k].nodes == [] && fss[z][k].edges == []
    modifies g
    ensures g.Valid() && NodesGrow(ns0, g.nodes) && EdgesGrow(es0, g.edges)
    ensures |g.faces| >= |fs0| && g.faces[..|fs0|] == fs0
    ensures lk.scan && PairsUnique(es0) ==> PairsUnique(g.edges)
    ensures r.Ok? ==> ZonesDone(g, ns0, es0, fs0, fss, refs, z + 1, lk)
    ensures r.Fail? ==>
      (r.error == IndexError && (!lk.scan || Unresolved(fss, refs))) ||
      (r.error == AssertionError && lk.checked)
  {
    ghost var ns1, es1, fs1 := g.nodes, g.edges, g.faces;
    r := AddZoneFaces(g, fss[z], refs[z], lk);
    NodesGrowTrans(ns0, ns1, g.nodes);
    EdgesGrowTrans(es0, es1, g.edges);
    ZoneFacesKeepPrefix(fs0, fs1, fss[z], g.faces);
    if r.Fail? {
      if r.error == IndexError && lk.scan {
        ghost var k :| 0 <= k < |fss[z]| && ResolveIds(refs[z], fss[z][k].nodesIds).None?;
        assert Unresolved(fss, refs);
      }
      return;
    }
    ZoneFacesDone(fs0, fs1, es1, g.faces, g.edges, fss, refs, z);
  }

  /** The faces before the zone's are left as they were. */
  lemma ZoneFacesKeepPrefix(fs0: seq<FaceRec>, fs1: seq<FaceRec>, zone: seq<FaceRec>, fs2: seq<FaceRec>)
    requires |fs1| >= |fs0| && fs1[..|fs0|] == fs0
    requires FacesGrow(fs1 + zone, fs2, |fs1|, |fs2|)
    ensures |fs2| >= |fs0| && fs2[..|fs0|] == fs0
  {
    forall k | 0 <= k < |fs0| ensures fs2[k] == fs0[k] {
      assert (fs1 + zone)[k] == fs1[k] == fs1[..|fs0|][k];
    }
  }

  /** After a zone's faces are linked, they are triangles resolved against
      the zone, and so are the earlier zones' faces. */
  lemma ZoneFacesDone(fs0: seq<FaceRec>, fs1: seq<FaceRec>, es1: seq<EdgeRec>,
                      fs2: seq<FaceRec>, es2: seq<EdgeRec>,
                      fss: seq<seq<FaceRec>>, refs: seq<seq<nat>>, z: nat)
    requires z < |fss| && z < |refs|
    requires |fs1| == |fs0| + FaceCount(fss[..z]) && fs1[..|fs0|] == fs0
    requires forall k :: |fs0| <= k < |fs1| ==> Triangle(es1, fs1[k])
    requires !Unresolved(fss[..z], refs[..z])
    requires EdgesGrow(es1, es2) && FacesGrow(fs1 + fss[z], fs2, |fs1|, |fs2|)
    requires forall k :: |fs1| <= k < |fs2| ==> FaceSet(es2, fs2[k], [], refs[z], true)
    ensures |fs2| == |fs0| + FaceCount(fss[..z + 1])
    ensures forall k :: |fs0| <= k < |fs2| ==> Triangle(es2, fs2[k])
    ensures !Unresolved(fss[..z + 1], refs[..z + 1])
  {
    PrefixStep(fss, z);
    PrefixStep(refs, z);
    forall k | |fs0| <= k < |fs2| ensures Triangle(es2, fs2[k]) {
      if k < |fs1| {
        assert fs2[k] == (fs1 + fss[z])[k] == fs1[k];
        TriangleKept(es1, es2, fs1[k]);
      } else {
        FaceSetTriangle(es2, fs2[k], refs[z]);
      }
    }
    forall y, k | 0 <= y < z + 1 && 0 <= k < |fss[y]|
      ensures ResolveIds(refs[y], fss[y][k].nodesIds).Some?
    {
      if y < z {
        assert fss[..z][y] == fss[y] && refs[..z][y] == refs[y];
      } else {
        assert fs2[|fs1| + k].nodesIds == (fs1 + fss[z])[|fs1| + k].nodesIds == fss[z][k].nodesIds;
      }
    }
  }

  /** `for f, n in zip(faces, nodes): set_faces(grid, n, f); grid.Faces += f`. */
  method SetAllFaces(g: Mesh, fss: seq<seq<FaceRec>>, refs: seq<seq<nat>>, lk: Linker) returns (r: Result<()>)
    requires g.Valid() && |refs| == |fss| && lk.linkNodes
    requires forall z, k :: 0 <= z < |refs| && 0 <= k < |refs[z]| ==> refs[z][k] < |g.nodes|
    requires forall z, k :: 0 <= z < |fss| && 0 <= k < |fss[z]| ==> fss[z][k].nodes == [] && fss[z][k].edges == []
    modifies g
    ensures g.Valid() && NodesGrow(old(g.nodes), g.nodes) && EdgesGrow(old(g.edges), g.edges)
    ensures |g.faces| >= |old(g.faces)| && g.faces[..|old(g.faces)|] == old(g.faces)
    ensures r.Ok? ==> |g.faces| == |old(g.faces)| + FaceCount(fss) && !Unresolved(fss, refs)
    ensures r.Ok? ==> forall k :: |old(g.faces)| <= k < |g.faces| ==> Triangle(g.edges, g.faces[k])
    ensures r.Fail? ==>
      (r.error == IndexError && (!lk.scan || Unresolved(fss, refs))) ||
      (r.error == AssertionError && lk.checked)
    ensures lk.scan && PairsUnique(old(g.edges)) ==> PairsUnique(g.edges)
  {
    ghost var ns0, es0, fs0 := g.nodes, g.edges, g.faces;
    var z := 0;
    assert fss[..0] == [] && refs[..0] == [];
    while z < |fss|
      invariant ZonesDone(g, ns0, es0, fs0, fss, refs, z, lk)
    {
      r := ZoneStep(g, fss, refs, z, lk, ns0, es0, fs0);
      if r.Fail? {
        return;
      }
      z := z + 1;
    }
    assert fss[..z] == fss && refs[..z] == refs;
    return Ok(());
  }

  // ---------------------------------------------------------------------
  // read_tecplot after parsing: nodes, then faces zone by zone

  /** A zone as the parsers build it: nodes and faces without links. */
  ghost predicate Fresh(z: Zone) {
    Unlinked(z.nodes) && forall k :: 0 <= k < |z.faces| ==> z.faces[k].nodes == [] && z.faces[k].edges == []
  }

  function ZoneNodes(zs: seq<Zone>): (r: seq<seq<NodeRec>>)
    ensures |r| == |zs| && forall z :: 0 <= z < |zs| ==> r[z] == zs[z].nodes
  {
    seq(|zs|, z requires 0 <= z < |zs| => zs[z].nodes)
  }

  function ZoneFaces(zs: seq<Zone>): (r: seq<seq<FaceRec>>)
    ensures |r| == |zs| && forall z :: 0 <= z < |zs| ==> r[z] == zs[z].faces
  {
    seq(|zs|, z requires 0 <= z < |zs| => zs[z].faces)
  }

  /** Every zone's node list as grid positions. */
  function AllPositions(refs: seq<seq<NodeRef>>): (r: seq<seq<nat>>)
    requires forall z, i :: 0 <= z < |refs| && 0 <= i < |refs[z]| ==> refs[z][i].InGrid?
    ensures |r| == |refs| && forall z :: 0 <= z < |refs| ==> r[z] == Positions(refs[z])
  {
    if refs == [] then [] else [Positions(refs[0])] + AllPositions(refs[1..])
  }

  /** The grid nodes are the merged zone nodes at the same points. */
  ghost predicate SamePoints(ns: seq<NodeRec>, ns2: seq<NodeRec>) {
    |ns2| == |ns| && forall k :: 0 <= k < |ns| ==> ns2[k].pos == ns[k].pos
  }

  lemma DistinctSamePoints(ns: seq<NodeRec>, ns2: seq<NodeRec>)
    requires DistinctPoints(ns) && SamePoints(ns, ns2)
    ensures DistinctPoints(ns2)
  {
  }

  /** After set_nodes with replacement, every zone position names a grid node. */
  lemma MergedPositions(m: Matcher, zones: seq<seq<NodeRec>>)
    requires zones != []
    ensures var r := MergeZones(m, zones, true);
      |r.1| == |zones| &&
      (forall z, i :: 0 <= z < |r.1| && 0 <= i < |r.1[z]| ==> r.1[z][i].InGrid?) &&
      forall z, i :: 0 <= z < |r.1| && 0 <= i < |r.1[z]| ==> r.1[z][i].k < |r.0|
  {
    MergeZonesShape(m, zones, true);
    forall z | 0 <= z < |zones|
      ensures forall i :: 0 <= i < |MergeZones(m, zones, true).1[z]| ==>
        MergeZones(m, zones, true).1[z][i].InGrid? && MergeZones(m, zones, true).1[z][i].k < |MergeZones(m, zones, true).0|
    {
      MergeZonesInGrid(m, zones, z);
    }
  }

  /** The zone lists as grid positions after set_nodes with replacement. */
  ghost function MergedZonePositions(m: Matcher, zones: seq<seq<NodeRec>>): (r: seq<seq<nat>>)
    requires zones != []
    ensures |r| == |zones|
  {
    MergedPositions(m, zones);
    AllPositions(MergeZones(m, zones, true).1)
  }

  /** The faces of all zones, linked zone by zone once the nodes are set. */
  method LinkZones(g: Mesh, zs: seq<Zone>, refs: seq<seq<NodeRef>>, lk: Linker) returns (r: Result<()>)
    requires g.Valid() && g.edges == [] && g.faces == [] && |refs| == |zs| && lk.linkNodes
    requires forall z, i :: 0 <= z < |refs| && 0 <= i < |refs[z]| ==> refs[z][i].InGrid?
    requires forall z, i :: 0 <= z < |refs| && 0 <= i < |refs[z]| ==> refs[z][i].k < |g.nodes|
    requires forall z :: 0 <= z < |zs| ==> Fresh(zs[z])
    modifies g
    ensures g.Valid() && SamePoints(old(g.nodes), g.nodes)
    ensures r.Ok? ==> |g.faces| == FaceCount(ZoneFaces(zs)) && !Unresolved(ZoneFaces(zs), AllPositions(refs))
    ensures r.Ok? ==> forall k :: 0 <= k < |g.faces| ==> Triangle(g.edges, g.faces[k])
    ensures r.Fail? ==>
      (r.error == IndexError && (!lk.scan || Unresolved(ZoneFaces(zs), AllPositions(refs)))) ||
      (r.error == AssertionError && lk.checked)
    ensures lk.scan ==> PairsUnique(g.edges)
  {
    var ps: seq<seq<nat>> := AllPositions(refs);
    var fss: seq<seq<FaceRec>> := ZoneFaces(zs);
    forall z, k | 0 <= z < |ps| && 0 <= k < |ps[z]| ensures ps[z][k] < |g.nodes| {
      assert refs[z][k] == InGrid(ps[z][k]);
    }
    forall z, k | 0 <= z < |fss| && 0 <= k < |fss[z]| ensures fss[z][k].nodes == [] && fss[z][k].edges == [] {
      assert Fresh(zs[z]);
    }
    ghost var ns0 := g.nodes;
    r := SetAllFaces(g, fss, ps, lk);
  }

  /** read_tecplot of tecplot/io.py once the zones are parsed: set_nodes
      (make_avl over zone 1, then add_nodes_to_grid for the others, exact
      point match, zone lists rewritten to grid nodes), then set_faces per
      zone through the checked triangular Grid. */
  method AssembleIo(g: Mesh, tree: AVLTree, zs: seq<Zone>) returns (r: Result<()>)
    requires g.edges == [] && g.faces == [] && tree.Valid() && tree.root == Leaf
    requires forall z :: 0 <= z < |zs| ==> Fresh(zs[z])
    modifies g, tree
    ensures g.Valid()
    ensures zs == [] ==> r == Fail(IndexError)
    ensures zs != [] && !DistinctPoints(zs[0].nodes) ==> r == Fail(ValueError)
    ensures r.Ok? ==> SamePoints(MergeZones(Exact, ZoneNodes(zs), true).0, g.nodes) && DistinctPoints(g.nodes)
    ensures r.Ok? ==> |g.faces| == FaceCount(ZoneFaces(zs)) && forall k :: 0 <= k < |g.faces| ==> Triangle(g.edges, g.faces[k])
    ensures r.Ok? ==> PairsUnique(g.edges)
    ensures r.Fail? ==> r.error == IndexError || r.error == ValueError || r.error == AssertionError
  {
    var zones := ZoneNodes(zs);
    var n := SetNodesAvl(g, tree, zones, true);
    if n.Fail? {
      return Fail(n.error);
    }
    MergedPositions(Exact, zones);
    ghost var ns1 := g.nodes;
    r := LinkZones(g, zs, n.value, IoLinker);
    if r.Ok? {
      DistinctSamePoints(ns1, g.nodes);
    }
  }

  /** read_tecplot of tecplot/reader.py once the zones are parsed: set_nodes
      (zone 1 copied, make_avl, then compose_node_list_nlogn_algorithm for
      the others, exact point match), then set_faces per zone through
      grid/grid.py's unchecked Grid. The zone lists are rewritten to grid
      nodes and the edge lookup scans every edge, as intended (see
      RebindingKeepsDuplicate and FirstEdgeOnlyMissesSecondEdge for the
      code as written). */
  method AssembleReader(g: Mesh, tree: AVLTree, zs: seq<Zone>) returns (r: Result<()>)
    requires g.edges == [] && g.faces == [] && tree.Valid() && tree.root == Leaf
    requires forall z :: 0 <= z < |zs| ==> Fresh(zs[z])
    modifies g, tree
    ensures g.Valid()
    ensures zs == [] ==> r == Fail(IndexError)
    ensures zs != [] && !DistinctPoints(zs[0].nodes) ==> r == Fail(ValueError)
    ensures r.Ok? ==> SamePoints(MergeZones(Exact, ZoneNodes(zs), true).0, g.nodes) && DistinctPoints(g.nodes)
    ensures r.Ok? ==> |g.faces| == FaceCount(ZoneFaces(zs)) && forall k :: 0 <= k < |g.faces| ==> Triangle(g.edges, g.faces[k])
    ensures r.Ok? ==> PairsUnique(g.edges)
    ensures zs != [] && DistinctPoints(zs[0].nodes) ==>
      (r.Ok? <==> !Unresolved(ZoneFaces(zs), MergedZonePositions(Exact, ZoneNodes(zs))))
    ensures r.Fail? ==> r.error == IndexError || r.error == ValueError
  {
    var zones := ZoneNodes(zs);
    var n := SetNodesAvl(g, tree, zones, true);
    if n.Fail? {
      return Fail(n.error);
    }
    MergedPositions(Exact, zones);
    ghost var ns1 := g.nodes;
    r := LinkZones(g, zs, n.value, GridLinker);
    if r.Ok? {
      DistinctSamePoints(ns1, g.nodes);
    }
  }

  /** read_tecplot of grid/tecplot.py once the zones are parsed: set_nodes
      (zone 1 copied, then compose_node_list_algorithm_1 for the others,
      match within EPS in x and y), set_faces per zone through grid/grid.py's
      unchecked Grid, then init_ids. */
  method AssembleGrid(g: Mesh, zs: seq<Zone>) returns (r: Result<()>)
    requires g.edges == [] && g.faces == []
    requires forall z :: 0 <= z < |zs| ==> Fresh(zs[z])
    modifies g
    ensures g.Valid()
    ensures r.Fail? && zs == [] ==> r.error == IndexError
    ensures r.Ok? ==> zs != [] && SamePoints(MergeZones(Within, ZoneNodes(zs), true).0, g.nodes)
    ensures r.Ok? ==> |g.faces| == FaceCount(ZoneFaces(zs)) && forall k :: 0 <= k < |g.faces| ==> Triangle(g.edges, g.faces[k])
    ensures r.Ok? ==> PairsUnique(g.edges)
    ensures r.Ok? ==>
      (forall k :: 0 <= k < |g.nodes| ==> g.nodes[k].id == Some(k)) &&
      (forall k :: 0 <= k < |g.edges| ==> g.edges[k].id == Some(k)) &&
      (forall k :: 0 <= k < |g.faces| ==> g.faces[k].id == Some(k))
    ensures zs != [] ==> (r.Ok? <==> !Unresolved(ZoneFaces(zs), MergedZonePositions(Within, ZoneNodes(zs))))
    ensures r.Fail? ==> r.error == IndexError
  {
    var zones := ZoneNodes(zs);
    var n := SetNodesWithin(g, zones);
    if n.Fail? {
      return Fail(n.error);
    }
    MergedPositions(Within, zones);
    ghost var ns1 := g.nodes;
    r := LinkZones(g, zs, n.value, GridLinker);
    if r.Fail? {
      return;
    }
    Renumber(g);
  }

  /** init_ids on a linked grid: every record gets its position as Id, and
      the triangles, the unique sides and the points stay. */
  method Renumber(g: Mesh)
    requires g.Valid() && forall k :: 0 <= k < |g.faces| ==> Triangle(g.edges, g.faces[k])
    modifies g
    ensures g.Valid() && SamePoints(old(g.nodes), g.nodes) && |g.faces| == |old(g.faces)|
    ensures forall k :: 0 <= k < |g.faces| ==> Triangle(g.edges, g.faces[k])
    ensures PairsUnique(old(g.edges)) ==> PairsUnique(g.edges)
    ensures forall k :: 0 <= k < |g.nodes| ==> g.nodes[k].id == Some(k)
    ensures forall k :: 0 <= k < |g.edges| ==> g.edges[k].id == Some(k)
    ensures forall k :: 0 <= k < |g.faces| ==> g.faces[k].id == Some(k)
  {
    ghost var ns2, es2, fs2 := g.nodes, g.edges, g.faces;
    Structured.InitIds(g);
    Structured.IdsUpToMeaning(ns2, es2, fs2);
    assert KeepsEndpoints(es2, g.edges);
    forall k | 0 <= k < |g.faces| ensures Triangle(g.edges, g.faces[k]) {
      assert g.faces[k].nodes == fs2[k].nodes && g.faces[k].edges == fs2[k].edges;
      TriangleSameEdges(es2, g.edges, fs2[k], g.faces[k]);
    }
    if PairsUnique(es2) {
      SameEndpointsKeepPairsUnique(es2, g.edges);
    }
  }

  /** Renumbering edges and faces keeps every triangle. */
  lemma TriangleSameEdges(es: seq<EdgeRec>, es2: seq<EdgeRec>, face: FaceRec, face2: FaceRec)
    requires Triangle(es, face) && KeepsEndpoints(es, es2) && face2.nodes == face.nodes && face2.edges == face.edges
    ensures Triangle(es2, face2)
  {
    var t := face.nodes;
    HasEdgeKept(es, es2, face, face2, t[0], t[1]);
    HasEdgeKept(es, es2, face, face2, t[1], t[2]);
    HasEdgeKept(es, es2, face, face2, t[2], t[0]);
  }

  // ---------------------------------------------------------------------
  // The surface generators

  /** The positions 0 .. n-1: `mgrid.Nodes` passed as the node list. */
  function Iota(n: nat): (r: seq<nat>)
    ensures |r| == n && forall i :: 0 <= i < n ==> r[i] == i
  {
    seq(n, i requires 0 <= i < n => i)
  }

  /** A generated face's ids (its row plus one) resolve against the grid's
      own node list to the row's nodes, negative entries included. */
  lemma GeneratedIdsResolve(n: nat, row: (int, int, int))
    requires ResolveRow(TriangularGrid, row, n).Some?
    ensures ResolveIds(Iota(n), [row.0 + 1, row.1 + 1, row.2 + 1]) ==
      Some([PyIndex(row.0, n).value, PyIndex(row.1, n).value, PyIndex(row.2, n).value])
  {
    var ids := [row.0 + 1, row.1 + 1, row.2 + 1];
    assert ids[0] - 1 == row.0 && ids[1] - 1 == row.1 && ids[2] - 1 == row.2;
  }

  /** The sides of a triangle do not depend on the order of its last two
      corners. */
  lemma SidesSwap(es: seq<EdgeRec>, face: FaceRec, a: nat, b: nat, c: nat)
    requires Sides(es, face, [a, b, c])
    ensures Sides(es, face, [a, c, b])
  {
    var t := [a, b, c];
    assert HasEdge(es, face, t[0], t[1]) && HasEdge(es, face, t[1], t[2]) && HasEdge(es, face, t[2], t[0]);
    var e1 :| e1 in face.edges && 0 <= e1 < |es| && Joins(es[e1], a, b);
    var e2 :| e2 in face.edges && 0 <= e2 < |es| && Joins(es[e2], b, c);
    var e3 :| e3 in face.edges && 0 <= e3 < |es| && Joins(es[e3], c, a);
    assert Joins(es[e3], a, c) && Joins(es[e2], c, b) && Joins(es[e1], b, a);
    var u := [a, c, b];
    assert HasEdge(es, face, u[0], u[1]) && HasEdge(es, face, u[1], u[2]) && HasEdge(es, face, u[2], u[0]);
  }

  /** A generated face that set_faces finished is a triangle. */
  lemma GeneratedTriangle(es: seq<EdgeRec>, face: FaceRec, i: nat, row: (int, int, int), order: seq<nat>, n: nat)
    requires ResolveRow(TriangularGrid, row, n) == Some(order)
    requires face.nodesIds == TriangleFace(i, row, order).nodesIds
    requires FaceSet(es, face, TriangleFace(i, row, order).nodes, Iota(n), false)
    ensures Triangle(es, face)
  {
    GeneratedIdsResolve(n, row);
    var a, b, c := PyIndex(row.0, n).value, PyIndex(row.1, n).value, PyIndex(row.2, n).value;
    assert Sides(es, face, [a, b, c]);
    assert face.nodes == order + [] == LinkOrder(TriangularGrid, a, b, c);
    if face.nodes != [a, b, c] {
      assert face.nodes == [a, c, b];
      SidesSwap(es, face, a, b, c);
    }
  }

  /** Every generated face resolves against the grid's own node list. */
  lemma GeneratedResolve(rows: seq<(int, int, int)>, n: nat)
    requires ResolveRows(TriangularGrid, rows, n).Some?
    ensures var fs := TriangleFaces(rows, ResolveRows(TriangularGrid, rows, n).value);
      forall k :: 0 <= k < |fs| ==> ResolveIds(Iota(n), fs[k].nodesIds).Some?
  {
    var fs := TriangleFaces(rows, ResolveRows(TriangularGrid, rows, n).value);
    forall k | 0 <= k < |fs| ensures ResolveIds(Iota(n), fs[k].nodesIds).Some? {
      GeneratedIdsResolve(n, rows[k]);
    }
  }

  /** create_plane and create_half_cylinder once the points and the
      Delaunay triangles are computed: set_nodes_and_faces builds the nodes
      and the faces (linked to their nodes), then
      set_faces(mgrid, mgrid.Nodes, mgrid.Faces) finds or makes the sides
      through the checked triangular Grid. */
  method GenerateSurface(g: Mesh, xs: seq<real>, ys: seq<real>, zs: seq<real>, rows: seq<(int, int, int)>)
    returns (r: Result<()>)
    requires g.Valid() && g.nodes == [] && g.edges == [] && g.faces == []
    modifies g
    ensures g.Valid()
    ensures ResolveRows(TriangularGrid, rows, |Zip3(xs, ys, zs)|).None? ==> r == Fail(IndexError)
    ensures r.Fail? ==> r.error == IndexError || r.error == AssertionError
    ensures r == Fail(IndexError) ==> ResolveRows(TriangularGrid, rows, |Zip3(xs, ys, zs)|).None?
    ensures r.Ok? ==> |g.nodes| == |Zip3(xs, ys, zs)| && |g.faces| == |rows|
    ensures r.Ok? ==> forall k :: 0 <= k < |g.faces| ==> Triangle(g.edges, g.faces[k])
    ensures r.Ok? ==> PairsUnique(g.edges)
  {
    var ok := g.SetNodesAndFaces(xs, ys, zs, rows, TriangularGrid);
    if !ok {
      return Fail(IndexError);
    }
    r := LinkGenerated(g, rows, ResolveRows(TriangularGrid, rows, |g.nodes|).value);
  }

  /** set_faces(mgrid, mgrid.Nodes, mgrid.Faces) on the faces that
      set_nodes_and_faces built from `rows`. */
  method LinkGenerated(g: Mesh, rows: seq<(int, int, int)>, ghost orders: seq<seq<nat>>) returns (r: Result<()>)
    requires g.Valid() && ResolveRows(TriangularGrid, rows, |g.nodes|) == Some(orders)
    requires g.faces == TriangleFaces(rows, orders)
    modifies g
    ensures g.Valid() && |g.nodes| == |old(g.nodes)| && |g.faces| == |rows|
    ensures r.Fail? ==> r.error == AssertionError
    ensures r.Ok? ==> forall k :: 0 <= k < |g.faces| ==> Triangle(g.edges, g.faces[k])
    ensures PairsUnique(old(g.edges)) ==> PairsUnique(g.edges)
  {
    var n := |g.nodes|;
    r := SetFaces(g, 0, Iota(n), GeomLinker);
    if r.Ok? {
      GeneratedTriangles(g.edges, g.faces, rows, orders, n);
    } else {
      GeneratedStillResolve(g.faces, rows, orders, n);
    }
  }

  /** The faces keep their node ids while being linked, so every one of
      them still resolves against the generated nodes. */
  lemma GeneratedStillResolve(fs: seq<FaceRec>, rows: seq<(int, int, int)>, orders: seq<seq<nat>>, n: nat)
    requires ResolveRows(TriangularGrid, rows, n) == Some(orders)
    requires FacesGrow(TriangleFaces(rows, orders), fs, 0, |fs|)
    ensures forall k :: 0 <= k < |fs| ==> ResolveIds(Iota(n), fs[k].nodesIds).Some?
  {
    GeneratedResolve(rows, n);
  }

  /** Every face set_faces linked for the generated rows is a triangle. */
  lemma GeneratedTriangles(es: seq<EdgeRec>, fs: seq<FaceRec>, rows: seq<(int, int, int)>, orders: seq<seq<nat>>, n: nat)
    requires ResolveRows(TriangularGrid, rows, n) == Some(orders)
    requires FacesGrow(TriangleFaces(rows, orders), fs, 0, |fs|)
    requires forall k :: 0 <= k < |fs| ==> FaceSet(es, fs[k], TriangleFaces(rows, orders)[k].nodes, Iota(n), false)
    ensures forall k :: 0 <= k < |fs| ==> Triangle(es, fs[k])
  {
    forall k | 0 <= k < |fs| ensures Triangle(es, fs[k]) {
      GeneratedTriangle(es, fs[k], k, rows[k], orders[k], n);
    }
  }
}
