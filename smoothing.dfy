/** The mesh smoothers of algorithms/smoothing.py and smoothing.py: border
    and fixed-node marking, the Laplacian and Taubin sweeps that move each
    node in place towards the mean of its edge neighbours, the null-space
    smoother, and the policies that decide how a fixed node moves.

    The two files share their step rules. algorithms/smoothing.py names its
    policy `node_fixation_method` (None, 'no_move' or 'along_edge');
    smoothing.py has a flag `fix_border_nodes`, which behaves as 'along_edge'
    when set and as None when not. Writing the grid to a Tecplot file after
    every iteration is output only and is not modelled. */
module Smoothing {
  import opened Util
  import opened Geom
  import opened Records
  import opened MeshSpec
  import opened Meshes
  import opened Structured
  import opened Text

  // ---------------------------------------------------------------------
  // Iteration names

  /** Python's s[:-k] for k >= 1: all but the last k characters, empty when
      there are no more than k. */
  function DropLast(s: string, k: nat): (r: string)
    requires k >= 1
    ensures |r| == if k >= |s| then 0 else |s| - k
  {
    if k >= |s| then [] else s[..|s| - k]
  }

  /** name_of_iteration: str(i) left-padded with '0' to three characters;
      a longer string is returned unchanged. */
  function NameOfIteration(i: nat): (r: string)
    ensures |r| == Max(3, |DecimalString(i)|)
    ensures r == Zeros(|r| - |DecimalString(i)|) + DecimalString(i)
  {
    var s := DecimalString(i);
    DropLast("000", |s|) + s
  }

  /** The padded name still denotes the iteration number, and for fewer than
      a thousand iterations it is exactly three characters long. */
  lemma NameOfIterationRoundTrip(i: nat)
    ensures AllDigits(NameOfIteration(i)) && DecimalValue(NameOfIteration(i)) == i
    ensures i < 1000 ==> |NameOfIteration(i)| == 3
  {
    var s := DecimalString(i);
    LeadingZeros(|NameOfIteration(i)| - |s|, s);
    DecimalRoundTrip(i);
    DecimalLength(i);
  }

  // ---------------------------------------------------------------------
  // How fixed nodes move

  /** node_fixation_method of algorithms/smoothing.py. smoothing.py's
      fix_border_nodes is AlongEdge when set and Free when not. */
  datatype Policy = Free | NoMove | AlongEdge

  /** The name Smoothing.__init__ accepts for each policy. */
  function PolicyName(p: Policy): Option<string> {
    match p
    case Free => None
    case NoMove => Some("no_move")
    case AlongEdge => Some("along_edge")
  }

  /** Smoothing.__init__'s check: None, 'no_move' or 'along_edge' select a
      policy; any other name fails the assertion. */
  function PolicyOf(name: Option<string>): (r: Option<Policy>)
    ensures r.None? <==> name.Some? && name.value != "no_move" && name.value != "along_edge"
    ensures r.Some? ==> PolicyName(r.value) == name
  {
    match name
    case None => Some(Free)
    case Some(s) =>
      if s == "no_move" then Some(NoMove)
      else if s == "along_edge" then Some(AlongEdge)
      else None
  }

  /** Every policy is accepted under its own name. */
  lemma PolicyRoundTrip(p: Policy)
    ensures PolicyOf(PolicyName(p)) == Some(p)
  {
  }

  // ---------------------------------------------------------------------
  // Border edges and fixed nodes

  /** The elements of a list of indices. */
  function Elems(s: seq<nat>): set<nat> {
    set v | v in s
  }

  lemma ElemsSnoc(s: seq<nat>, k: nat)
    requires k < |s|
    ensures Elems(s[..k + 1]) == Elems(s[..k]) + {s[k]}
  {
    assert s[..k + 1] == s[..k] + [s[k]];
  }

  /** The nodes of the edges of `es` that have exactly one face. */
  function BorderNodeSet(es: seq<EdgeRec>): set<nat>
    decreases |es|
  {
    if es == [] then {}
    else
      var e := es[|es| - 1];
      BorderNodeSet(es[..|es| - 1]) + (if |e.faces| == 1 then Elems(e.nodes) else {})
  }

  /** A node is a border node exactly when some single-face edge holds it. */
  lemma {:induction false} BorderNodeSetMembers(es: seq<EdgeRec>, v: nat)
    ensures v in BorderNodeSet(es) <==> exists e :: 0 <= e < |es| && |es[e].faces| == 1 && v in es[e].nodes
    decreases |es|
  {
    if es != [] {
      var p := es[..|es| - 1];
      BorderNodeSetMembers(p, v);
      if v in BorderNodeSet(p) {
        var e :| 0 <= e < |p| && |p[e].faces| == 1 && v in p[e].nodes;
        assert es[e] == p[e];
      }
      if exists e :: 0 <= e < |es| && |es[e].faces| == 1 && v in es[e].nodes {
        var e :| 0 <= e < |es| && |es[e].faces| == 1 && v in es[e].nodes;
        if e < |p| {
          assert p[e] == es[e];
        }
      }
    }
  }

  /** The edges after marking the first k: those with a single face are
      flagged as border. */
  function MarkedUpTo(es: seq<EdgeRec>, k: nat): seq<EdgeRec> {
    seq(|es|, i requires 0 <= i < |es| => if i < k && |es[i].faces| == 1 then es[i].(border := true) else es[i])
  }

  /** The edges after marking: single-face edges are flagged as border. */
  function MarkedEdges(es: seq<EdgeRec>): seq<EdgeRec> {
    MarkedUpTo(es, |es|)
  }

  /** The nodes after marking: those in B are flagged as fixed. */
  function FixedNodes(ns: seq<NodeRec>, b: set<nat>): seq<NodeRec> {
    seq(|ns|, v requires 0 <= v < |ns| => if v in b then ns[v].(fixed := true) else ns[v])
  }

  /** The nodes of B that were not fixed before: the ones the counter of
      smoothing.py's mark_all_fixed_nodes counts. */
  function NewlyFixed(ns: seq<NodeRec>, b: set<nat>): set<nat> {
    set v | 0 <= v < |ns| && v in b && !ns[v].fixed
  }

  lemma BorderNodeSetSnoc(es: seq<EdgeRec>, i: nat)
    requires i < |es|
    ensures BorderNodeSet(es[..i + 1]) ==
            BorderNodeSet(es[..i]) + (if |es[i].faces| == 1 then Elems(es[i].nodes) else {})
  {
    assert es[..i + 1][..i] == es[..i];
  }

  /** Fixing one more node. */
  lemma FixOneMore(ns: seq<NodeRec>, b: set<nat>, v: nat)
    requires v < |ns|
    ensures FixedNodes(ns, b + {v}) == FixedNodes(ns, b)[v := FixedNodes(ns, b)[v].(fixed := true)]
    ensures !FixedNodes(ns, b)[v].fixed ==> v !in NewlyFixed(ns, b)
    ensures NewlyFixed(ns, b + {v}) ==
            NewlyFixed(ns, b) + (if FixedNodes(ns, b)[v].fixed then {} else {v})
  {
  }

  /** Fixes node v unless it is fixed already, counting it when it was not. */
  method FixNode(g: Mesh, v: nat, ghost ns0: seq<NodeRec>, ghost b: set<nat>) returns (added: nat)
    requires g.Valid() && v < |g.nodes| == |ns0| && g.nodes == FixedNodes(ns0, b)
    modifies g
    ensures g.Valid() && g.edges == old(g.edges) && g.faces == old(g.faces)
    ensures g.nodes == FixedNodes(ns0, b + {v})
    ensures |NewlyFixed(ns0, b + {v})| == |NewlyFixed(ns0, b)| + added
  {
    FixOneMore(ns0, b, v);
    added := 0;
    if !g.nodes[v].fixed {
      added := 1;
      UpdateNodeKeepsLinked(g.nodes, g.edges, g.faces, v, g.nodes[v].(fixed := true));
      g.nodes := g.nodes[v := g.nodes[v].(fixed := true)];
    } else {
      assert g.nodes[v].(fixed := true) == g.nodes[v];
    }
  }

  /** Fixes the nodes of edge i of the mesh, counting the ones that were not
      fixed yet (the inner loop of mark_all_fixed_nodes). */
  method FixEdgeNodes(g: Mesh, i: nat, ghost ns0: seq<NodeRec>, ghost b: set<nat>) returns (added: nat)
    requires g.Valid() && i < |g.edges|
    requires |ns0| == |g.nodes| && g.nodes == FixedNodes(ns0, b)
    modifies g
    ensures g.Valid() && g.edges == old(g.edges) && g.faces == old(g.faces)
    ensures g.nodes == FixedNodes(ns0, b + Elems(g.edges[i].nodes))
    ensures |NewlyFixed(ns0, b + Elems(g.edges[i].nodes))| == |NewlyFixed(ns0, b)| + added
  {
    var list := g.edges[i].nodes;
    added := 0;
    var k := 0;
    assert Elems(list[..0]) == {};
    assert b + Elems(list[..0]) == b;
    while k < |list|
      invariant 0 <= k <= |list|
      invariant g.Valid() && g.edges == old(g.edges) && g.faces == old(g.faces)
      invariant |g.nodes| == |ns0|
      invariant g.nodes == FixedNodes(ns0, b + Elems(list[..k]))
      invariant |NewlyFixed(ns0, b + Elems(list[..k]))| == |NewlyFixed(ns0, b)| + added
    {
      ElemsSnoc(list, k);
      assert b + Elems(list[..k]) + {list[k]} == b + Elems(list[..k + 1]);
      var one := FixNode(g, list[k], ns0, b + Elems(list[..k]));
      added := added + one;
      k := k + 1;
    }
    assert list[..k] == list;
  }

  /** Marks edge i and fixes its nodes, the first i edges being done: one
      round of mark_all_fixed_nodes. */
  method MarkEdge(g: Mesh, i: nat, ghost ns0: seq<NodeRec>, ghost es0: seq<EdgeRec>) returns (added: nat)
    requires g.Valid() && i < |es0| && g.edges == MarkedUpTo(es0, i)
    requires |ns0| == |g.nodes| && g.nodes == FixedNodes(ns0, BorderNodeSet(es0[..i]))
    modifies g
    ensures g.Valid() && g.faces == old(g.faces)
    ensures g.edges == MarkedUpTo(es0, i + 1)
    ensures g.nodes == FixedNodes(ns0, BorderNodeSet(es0[..i + 1]))
    ensures |NewlyFixed(ns0, BorderNodeSet(es0[..i + 1]))| == |NewlyFixed(ns0, BorderNodeSet(es0[..i]))| + added
  {
    BorderNodeSetSnoc(es0, i);
    assert g.edges[i] == es0[i];
    added := 0;
    if |g.edges[i].faces| == 1 {
      added := FixEdgeNodes(g, i, ns0, BorderNodeSet(es0[..i]));
      UpdateEdgeKeepsLinked(g.nodes, g.edges, g.faces, i, g.edges[i].(border := true));
      g.edges := g.edges[i := g.edges[i].(border := true)];
    } else {
      assert BorderNodeSet(es0[..i]) + {} == BorderNodeSet(es0[..i]);
    }
    assert g.edges == MarkedUpTo(es0, i + 1);
  }

  /** Before the first round nothing is marked or fixed. */
  lemma NothingMarked(ns: seq<NodeRec>, es: seq<EdgeRec>)
    ensures BorderNodeSet(es[..0]) == {}
    ensures FixedNodes(ns, BorderNodeSet(es[..0])) == ns
    ensures NewlyFixed(ns, BorderNodeSet(es[..0])) == {}
    ensures MarkedUpTo(es, 0) == es
  {
    assert es[..0] == [];
  }

  /** mark_all_fixed_nodes (both files): every edge with exactly one face
      becomes a border edge and both of its nodes become fixed; nothing else
      changes. The result is the counter of smoothing.py: the number of
      nodes that were not fixed before. */
  method MarkAllFixedNodes(g: Mesh) returns (count: nat)
    requires g.Valid()
    modifies g
    ensures g.Valid() && g.faces == old(g.faces)
    ensures g.edges == MarkedEdges(old(g.edges))
    ensures g.nodes == FixedNodes(old(g.nodes), BorderNodeSet(old(g.edges)))
    ensures count == |NewlyFixed(old(g.nodes), BorderNodeSet(old(g.edges)))|
  {
    ghost var ns0 := g.nodes;
    ghost var es0 := g.edges;
    NothingMarked(ns0, es0);
    count := 0;
    var i := 0;
    while i < |g.edges|
      invariant 0 <= i <= |es0| == |g.edges|
      invariant g.Valid() && g.faces == old(g.faces) && |g.nodes| == |ns0|
      invariant g.edges == MarkedUpTo(es0, i)
      invariant g.nodes == FixedNodes(ns0, BorderNodeSet(es0[..i]))
      invariant count == |NewlyFixed(ns0, BorderNodeSet(es0[..i]))|
    {
      var added := MarkEdge(g, i, ns0, es0);
      count := count + added;
      i := i + 1;
    }
    assert es0[..i] == es0;
  }

  /** Marking is idempotent: a second pass changes nothing and counts no
      node. */
  lemma MarkAgain(ns: seq<NodeRec>, es: seq<EdgeRec>)
    ensures BorderNodeSet(MarkedEdges(es)) == BorderNodeSet(es)
    ensures MarkedEdges(MarkedEdges(es)) == MarkedEdges(es)
    ensures FixedNodes(FixedNodes(ns, BorderNodeSet(es)), BorderNodeSet(es)) == FixedNodes(ns, BorderNodeSet(es))
    ensures NewlyFixed(FixedNodes(ns, BorderNodeSet(es)), BorderNodeSet(es)) == {}
  {
    var m := MarkedEdges(es);
    assert forall e :: 0 <= e < |es| ==> m[e].faces == es[e].faces && m[e].nodes == es[e].nodes;
    forall v: nat ensures v in BorderNodeSet(m) <==> v in BorderNodeSet(es) {
      BorderNodeSetMembers(m, v);
      BorderNodeSetMembers(es, v);
    }
  }

  /** Smoothing.__init__: refuses an unknown fixation method; with a
      fixation method given, marks the border edges and fixes their nodes;
      with none, leaves the mesh as it is. */
  method Configure(g: Mesh, name: Option<string>) returns (p: Option<Policy>)
    requires g.Valid()
    modifies g
    ensures g.Valid() && g.faces == old(g.faces)
    ensures p == PolicyOf(name)
    ensures p.Some? && name.Some? ==>
      g.edges == MarkedEdges(old(g.edges)) &&
      g.nodes == FixedNodes(old(g.nodes), BorderNodeSet(old(g.edges)))
    ensures p.None? || name.None? ==> g.edges == old(g.edges) && g.nodes == old(g.nodes)
  {
    p := PolicyOf(name);
    if p.Some? && name.Some? {
      var _ := MarkAllFixedNodes(g);
    }
  }

  // ---------------------------------------------------------------------
  // Projecting a shift on a border edge

  /** The shift s projected on the direction of e: the unit vector along e
      times the component of s along it, which is (s.e / e.e) e. None for an
      edge of length zero, which has no unit vector. */
  function Project(s: Vec, e: Vec): (r: Option<Vec>)
    ensures r.Some? <==> e != Zero
  {
    DotSelf(e, e);
    if Dot(e, e) == 0.0 then None else Some(Scale(Dot(s, e) / Dot(e, e), e))
  }

  lemma DivMul(d: real, q: real)
    requires q != 0.0
    ensures (d / q) * q == d
  {
  }

  /** What is left of the shift after the projection is orthogonal to the
      edge. */
  lemma ProjectOrthogonal(s: Vec, e: Vec)
    requires e != Zero
    ensures Dot(Sub(s, Project(s, e).value), e) == 0.0
  {
    DotSelf(e, e);
    var q := Dot(e, e);
    var k := Dot(s, e) / q;
    DotSubLeft(s, Scale(k, e), e);
    DotScaleLeft(k, e, e);
    DivMul(Dot(s, e), q);
  }

  /** Projecting a projection changes nothing. */
  lemma ProjectIdempotent(s: Vec, e: Vec)
    requires e != Zero
    ensures Project(Project(s, e).value, e) == Project(s, e)
  {
    DotSelf(e, e);
    var q := Dot(e, e);
    var k := Dot(s, e) / q;
    DotScaleLeft(k, e, e);
    DivMul(Dot(s, e), q);
    assert Dot(Scale(k, e), e) == Dot(s, e);
  }

  /** Every index of `list` is below n. */
  predicate InRange(list: seq<nat>, n: nat) {
    forall k :: 0 <= k < |list| ==> list[k] < n
  }

  /** edge_to_vector over the positions `ns`: the vector from the edge's first
      node to its second. None when the edge does not have exactly two nodes
      (the source's assertion) or names a node outside `ns`. */
  function EdgeDirection(ns: seq<NodeRec>, e: EdgeRec): (r: Option<Vec>)
    ensures r.Some? <==> |e.nodes| == 2 && e.nodes[0] < |ns| && e.nodes[1] < |ns|
    ensures r.Some? ==> Add(ns[e.nodes[0]].pos, r.value) == ns[e.nodes[1]].pos
  {
    if |e.nodes| == 2 && e.nodes[0] < |ns| && e.nodes[1] < |ns| then
      Some(EdgeVector(ns[e.nodes[0]].pos, ns[e.nodes[1]].pos))
    else
      None
  }

  /** The edges of `list` flagged as border, in order. */
  function BorderEdges(es: seq<EdgeRec>, list: seq<nat>): (r: seq<nat>)
    requires InRange(list, |es|)
    ensures InRange(r, |es|)
    ensures forall k :: 0 <= k < |r| ==> r[k] in list && es[r[k]].border
    ensures forall k :: 0 <= k < |list| && es[list[k]].border ==> list[k] in r
    decreases |list|
  {
    if list == [] then []
    else
      var rest := BorderEdges(es, list[1..]);
      if es[list[0]].border then [list[0]] + rest else rest
  }

  /** The argmax choice of border_edge_to_project_on between the vectors d0
      and d1 of the two border edges: the one with the larger dot product
      with the shift, d0 on a tie (numpy's argmax reports the first
      maximum). */
  function ChooseEdge(d0: Vec, d1: Vec, s: Vec): (c: Vec)
    ensures c == d0 || c == d1
    ensures Dot(c, s) >= Dot(d0, s) && Dot(c, s) >= Dot(d1, s)
    ensures Dot(d0, s) >= Dot(d1, s) ==> c == d0
  {
    if Dot(d1, s) > Dot(d0, s) then d1 else d0
  }

  /** The vector of the border edge node v projects its shift on. None when
      the node does not have exactly two border edges, or one of them does
      not have two nodes (the source's assertions). */
  function ChosenBorderEdge(ns: seq<NodeRec>, es: seq<EdgeRec>, v: nat, s: Vec): (r: Option<Vec>)
    requires v < |ns|
    ensures r.Some? ==> InRange(ns[v].edges, |es|) && |BorderEdges(es, ns[v].edges)| == 2
    ensures r.Some? ==>
      var b := BorderEdges(es, ns[v].edges);
      EdgeDirection(ns, es[b[0]]).Some? && EdgeDirection(ns, es[b[1]]).Some? &&
      r.value == ChooseEdge(EdgeDirection(ns, es[b[0]]).value, EdgeDirection(ns, es[b[1]]).value, s)
  {
    var list := ns[v].edges;
    if !InRange(list, |es|) then None
    else
      var b := BorderEdges(es, list);
      if |b| != 2 then None
      else match (EdgeDirection(ns, es[b[0]]), EdgeDirection(ns, es[b[1]]))
        case (Some(d0), Some(d1)) => Some(ChooseEdge(d0, d1, s))
        case _ => None
  }

  /** border_edge_to_project_on (both files): the shift projected on the
      chosen border edge. */
  function BorderEdgeToProjectOn(ns: seq<NodeRec>, es: seq<EdgeRec>, v: nat, s: Vec): (r: Option<Vec>)
    requires v < |ns|
    ensures r.Some? <==> ChosenBorderEdge(ns, es, v, s).Some? && ChosenBorderEdge(ns, es, v, s).value != Zero
    ensures r.Some? ==> r == Project(s, ChosenBorderEdge(ns, es, v, s).value)
  {
    match ChosenBorderEdge(ns, es, v, s)
    case None => None
    case Some(c) => Project(s, c)
  }

  /** The projected shift runs along the chosen border edge: what it leaves
      of the shift is orthogonal to that edge, and projecting it again gives
      it back. */
  lemma BorderProjectionAlongEdge(ns: seq<NodeRec>, es: seq<EdgeRec>, v: nat, s: Vec)
    requires v < |ns| && BorderEdgeToProjectOn(ns, es, v, s).Some?
    ensures var c := ChosenBorderEdge(ns, es, v, s).value;
      var d := BorderEdgeToProjectOn(ns, es, v, s).value;
      Dot(Sub(s, d), c) == 0.0 && Project(d, c) == Some(d)
  {
    var c := ChosenBorderEdge(ns, es, v, s).value;
    ProjectOrthogonal(s, c);
    ProjectIdempotent(s, c);
  }

  // ---------------------------------------------------------------------
  // Moving one node

  /** move_node as its policies intend: a free node moves by the shift under
      every policy; a fixed node moves by the shift (Free), stays in place
      (NoMove), or moves by the shift projected on a border edge (AlongEdge),
      which fails where border_edge_to_project_on fails. This is
      smoothing.py's move_node (fix_border_nodes set: AlongEdge, unset: Free)
      and the evident intent of algorithms/smoothing.py's. */
  function MoveNode(p: Policy, ns: seq<NodeRec>, es: seq<EdgeRec>, v: nat, s: Vec): (r: Option<NodeRec>)
    requires v < |ns|
    ensures r.Some? ==> r.value == ns[v].(pos := r.value.pos)
    ensures !ns[v].fixed || p == Free ==> r == Some(Moved(ns[v], s))
    ensures ns[v].fixed && p == NoMove ==> r == Some(ns[v])
    ensures ns[v].fixed && p == AlongEdge ==>
      r.Some? == BorderEdgeToProjectOn(ns, es, v, s).Some? &&
      (r.Some? ==> r.value.pos == Add(ns[v].pos, BorderEdgeToProjectOn(ns, es, v, s).value))
  {
    var n := ns[v];
    if !n.fixed || p == Free then Some(Moved(n, s))
    else if p == NoMove then Some(n)
    else match BorderEdgeToProjectOn(ns, es, v, s)
      case None => None
      case Some(d) => Some(Moved(n, d))
  }

  /** move_node of algorithms/smoothing.py as written: under 'no_move' the
      first `if` moves a free node, and the trailing `else` of the second
      `if` then moves every node by the shift once more. */
  function MoveNodeAsWritten(p: Policy, ns: seq<NodeRec>, es: seq<EdgeRec>, v: nat, s: Vec): (r: Option<NodeRec>)
    requires v < |ns|
    ensures r.Some? ==> r.value == ns[v].(pos := r.value.pos)
  {
    var n := ns[v];
    var first := if p == NoMove && !n.fixed then Moved(n, s) else n;
    if p == AlongEdge then
      if n.fixed then
        match BorderEdgeToProjectOn(ns, es, v, s)
        case None => None
        case Some(d) => Some(Moved(first, d))
      else Some(Moved(first, s))
    else Some(Moved(first, s))
  }

  /** Under 'no_move' the code as written moves a fixed node by the shift
      and a free node by twice the shift, where the intended rule keeps the
      fixed node in place and moves the free one once. The two rules agree
      on the other policies. */
  lemma NoMoveAsWritten(ns: seq<NodeRec>, es: seq<EdgeRec>, v: nat, s: Vec)
    requires v < |ns|
    ensures ns[v].fixed ==> MoveNodeAsWritten(NoMove, ns, es, v, s) == Some(Moved(ns[v], s))
    ensures !ns[v].fixed ==> MoveNodeAsWritten(NoMove, ns, es, v, s) == Some(Moved(Moved(ns[v], s), s))
    ensures s != Zero && ns[v].fixed ==>
      MoveNodeAsWritten(NoMove, ns, es, v, s).value.pos != MoveNode(NoMove, ns, es, v, s).value.pos
    ensures s != Zero && !ns[v].fixed ==>
      MoveNodeAsWritten(NoMove, ns, es, v, s).value.pos != MoveNode(NoMove, ns, es, v, s).value.pos
    ensures MoveNodeAsWritten(Free, ns, es, v, s) == MoveNode(Free, ns, es, v, s)
    ensures MoveNodeAsWritten(AlongEdge, ns, es, v, s) == MoveNode(AlongEdge, ns, es, v, s)
  {
    var p := ns[v].pos;
    if s != Zero {
      AddNonZero(p, s);
      AddNonZero(Add(p, s), s);
    }
  }

  /** Adding a non-zero vector moves a point. */
  lemma AddNonZero(p: Vec, s: Vec)
    requires s != Zero
    ensures Add(p, s) != p
  {
    assert s.x != 0.0 || s.y != 0.0 || s.z != 0.0;
  }

  /** The move_node a smoother calls: algorithms/smoothing.py's as written
      (AsWritten), or the intended rule (Intended), which is also the
      move_node of smoothing.py's classes under Free and AlongEdge. */
  datatype MoveRule = Intended | AsWritten

  function Move(rule: MoveRule, p: Policy, ns: seq<NodeRec>, es: seq<EdgeRec>, v: nat, s: Vec): (r: Option<NodeRec>)
    requires v < |ns|
    ensures r.Some? ==> r.value == ns[v].(pos := r.value.pos)
  {
    match rule
    case Intended => MoveNode(p, ns, es, v, s)
    case AsWritten => MoveNodeAsWritten(p, ns, es, v, s)
  }

  // ---------------------------------------------------------------------
  // The Laplacian of a node

  /** The other node of a two-node edge as seen from v: the second node
      when the first is v, the first otherwise. */
  function Other(e: EdgeRec, v: nat): nat
    requires |e.nodes| == 2
  {
    if e.nodes[0] == v then e.nodes[1] else e.nodes[0]
  }

  /** Every edge of node v has two nodes, and the neighbour across it is a
      node of `ns`. */
  predicate NeighboursDefined(ns: seq<NodeRec>, es: seq<EdgeRec>, v: nat)
    requires v < |ns|
  {
    var list := ns[v].edges;
    InRange(list, |es|) &&
    forall k :: 0 <= k < |list| ==> |es[list[k]].nodes| == 2 && Other(es[list[k]], v) < |ns|
  }

  /** The positions of node v's neighbours, one per edge in edge order, as
      the smoothers' `neighbours` list holds them. */
  function NeighbourPositions(ns: seq<NodeRec>, es: seq<EdgeRec>, v: nat): (ps: seq<Vec>)
    requires v < |ns| && NeighboursDefined(ns, es, v)
    ensures |ps| == |ns[v].edges|
  {
    var list := ns[v].edges;
    seq(|list|, k requires 0 <= k < |list| => ns[Other(es[list[k]], v)].pos)
  }

  /** The Laplacian of node v over the positions `ns`: the mean of its
      neighbours minus its own position, before the smoother scales it. None
      where the source's assertions fail: fewer than two edges, or an edge
      without exactly two nodes. A full step along it lands on the mean of
      the neighbours. */
  function Laplacian(ns: seq<NodeRec>, es: seq<EdgeRec>, v: nat): (r: Option<Vec>)
    requires v < |ns|
    ensures r.Some? <==> |ns[v].edges| > 1 && NeighboursDefined(ns, es, v)
    ensures r.Some? ==> Add(ns[v].pos, r.value) == MeanAll(NeighbourPositions(ns, es, v))
  {
    if |ns[v].edges| > 1 && NeighboursDefined(ns, es, v) then
      Some(Sub(MeanAll(NeighbourPositions(ns, es, v)), ns[v].pos))
    else
      None
  }

  /** A node whose neighbours all sit where it does has a zero Laplacian. */
  lemma LaplacianAtRest(ns: seq<NodeRec>, es: seq<EdgeRec>, v: nat)
    requires v < |ns| && Laplacian(ns, es, v).Some?
    requires forall k :: 0 <= k < |ns[v].edges| ==> NeighbourPositions(ns, es, v)[k] == ns[v].pos
    ensures Laplacian(ns, es, v) == Some(Zero)
  {
    MeanAllUniform(NeighbourPositions(ns, es, v), ns[v].pos);
  }

  // ---------------------------------------------------------------------
  // Sweeps that move the nodes in place

  /** The new record of node v computed from the current records, or None
      where the source raises. */
  type Step = (seq<NodeRec>, nat) -> Option<NodeRec>

  /** A step changes nothing but the node's position. */
  ghost predicate OnlyMoves(step: Step) {
    forall cur: seq<NodeRec>, v: nat :: v < |cur| && step(cur, v).Some? ==>
      step(cur, v).value == cur[v].(pos := step(cur, v).value.pos)
  }

  /** A step leaves a fixed node as it is. */
  ghost predicate KeepsFixed(step: Step) {
    forall cur: seq<NodeRec>, v: nat :: v < |cur| && cur[v].fixed && step(cur, v).Some? ==>
      step(cur, v).value == cur[v]
  }

  /** The nodes after the first k steps of a sweep in node order, each step
      seeing the nodes the earlier steps moved (the `for n in Nodes` loops
      that call node.move directly), and whether every step succeeded. After
      a failure the nodes stay as they were when the source raised. */
  function SweepUpTo(step: Step, ns: seq<NodeRec>, k: nat): (r: (seq<NodeRec>, bool))
    requires k <= |ns|
    ensures |r.0| == |ns|
    ensures r.0[k..] == ns[k..]
    decreases k
  {
    if k == 0 then (ns, true)
    else
      var prev := SweepUpTo(step, ns, k - 1);
      if !prev.1 then prev
      else match step(prev.0, k - 1)
        case None => (prev.0, false)
        case Some(m) => (prev.0[k - 1 := m], true)
  }

  function SweepAll(step: Step, ns: seq<NodeRec>): (seq<NodeRec>, bool) {
    SweepUpTo(step, ns, |ns|)
  }

  /** After a failed step the sweep changes nothing more. */
  lemma {:induction false} SweepAfterFail(step: Step, ns: seq<NodeRec>, k: nat, n: nat)
    requires k <= n <= |ns| && !SweepUpTo(step, ns, k).1
    ensures SweepUpTo(step, ns, n) == SweepUpTo(step, ns, k)
    decreases n - k
  {
    if k < n {
      SweepAfterFail(step, ns, k, n - 1);
    }
  }

  /** Runs `step` over the nodes of the mesh in order, in place. */
  method Sweep(g: Mesh, step: Step) returns (ok: bool)
    requires g.Valid() && OnlyMoves(step)
    modifies g
    ensures g.Valid() && g.edges == old(g.edges) && g.faces == old(g.faces)
    ensures (g.nodes, ok) == SweepAll(step, old(g.nodes))
  {
    ghost var s := g.nodes;
    var i := 0;
    while i < |g.nodes|
      invariant 0 <= i <= |g.nodes| == |s|
      invariant g.Valid() && g.edges == old(g.edges) && g.faces == old(g.faces)
      invariant SweepUpTo(step, s, i) == (g.nodes, true)
    {
      var r := step(g.nodes, i);
      if r.None? {
        SweepAfterFail(step, s, i + 1, |s|);
        return false;
      }
      UpdateNodeKeepsLinked(g.nodes, g.edges, g.faces, i, r.value);
      g.nodes := g.nodes[i := r.value];
      i := i + 1;
    }
    ok := true;
  }

  /** The records of b are those of a with possibly other positions. */
  ghost predicate SameButPositions(a: seq<NodeRec>, b: seq<NodeRec>) {
    |a| == |b| && forall v :: 0 <= v < |a| ==> b[v] == a[v].(pos := b[v].pos)
  }

  /** A sweep of position-only steps changes positions only. */
  lemma {:induction false} SweepOnlyMoves(step: Step, ns: seq<NodeRec>, k: nat)
    requires k <= |ns| && OnlyMoves(step)
    ensures SameButPositions(ns, SweepUpTo(step, ns, k).0)
    decreases k
  {
    if k > 0 {
      SweepOnlyMoves(step, ns, k - 1);
    }
  }

  /** A sweep of steps that leave fixed nodes alone leaves them alone. */
  lemma {:induction false} SweepKeepsFixed(step: Step, ns: seq<NodeRec>, k: nat)
    requires k <= |ns| && KeepsFixed(step)
    ensures forall v :: 0 <= v < |ns| && ns[v].fixed ==> SweepUpTo(step, ns, k).0[v] == ns[v]
    decreases k
  {
    if k > 0 {
      SweepKeepsFixed(step, ns, k - 1);
    }
  }

  /** Records of nodes that only moved keep agreeing with the originals. */
  lemma SameButPositionsTrans(a: seq<NodeRec>, b: seq<NodeRec>, c: seq<NodeRec>)
    requires SameButPositions(a, b) && SameButPositions(b, c)
    ensures SameButPositions(a, c)
  {
    forall v | 0 <= v < |a|
      ensures c[v] == a[v].(pos := c[v].pos)
    {
      assert b[v] == a[v].(pos := b[v].pos);
    }
  }

  // ---------------------------------------------------------------------
  // Iterations

  /** The nodes after `iters` sweeps, sweep i running schedule(i), and
      whether every sweep succeeded; the first failure ends the smoothing, as
      the source's exception leaves its iteration loop. */
  function Iterated(schedule: nat -> Step, ns: seq<NodeRec>, iters: nat): (r: (seq<NodeRec>, bool))
    ensures |r.0| == |ns|
    decreases iters
  {
    if iters == 0 then (ns, true)
    else
      var prev := Iterated(schedule, ns, iters - 1);
      if !prev.1 then prev else SweepAll(schedule(iters - 1), prev.0)
  }

  lemma {:induction false} IteratedAfterFail(schedule: nat -> Step, ns: seq<NodeRec>, k: nat, n: nat)
    requires k <= n && !Iterated(schedule, ns, k).1
    ensures Iterated(schedule, ns, n) == Iterated(schedule, ns, k)
    decreases n - k
  {
    if k < n {
      IteratedAfterFail(schedule, ns, k, n - 1);
    }
  }

  /** The smoothing loop shared by every smoother: `iters` in-place sweeps. */
  method Smooth(g: Mesh, schedule: nat -> Step, iters: nat) returns (ok: bool)
    requires g.Valid() && forall i: nat :: OnlyMoves(schedule(i))
    modifies g
    ensures g.Valid() && g.edges == old(g.edges) && g.faces == old(g.faces)
    ensures (g.nodes, ok) == Iterated(schedule, old(g.nodes), iters)
  {
    ghost var s := g.nodes;
    var i := 0;
    while i < iters
      invariant 0 <= i <= iters
      invariant g.Valid() && g.edges == old(g.edges) && g.faces == old(g.faces)
      invariant Iterated(schedule, s, i) == (g.nodes, true)
    {
      ok := Sweep(g, schedule(i));
      if !ok {
        IteratedAfterFail(schedule, s, i + 1, iters);
        return;
      }
      i := i + 1;
    }
    ok := true;
  }

  /** Sweeps of position-only steps change positions only. */
  lemma {:induction false} IteratedOnlyMoves(schedule: nat -> Step, ns: seq<NodeRec>, iters: nat)
    requires forall i: nat :: OnlyMoves(schedule(i))
    ensures SameButPositions(ns, Iterated(schedule, ns, iters).0)
    decreases iters
  {
    if iters > 0 {
      IteratedOnlyMoves(schedule, ns, iters - 1);
      var prev := Iterated(schedule, ns, iters - 1);
      if prev.1 {
        var step := schedule(iters - 1);
        assert OnlyMoves(step);
        assert Iterated(schedule, ns, iters) == SweepAll(step, prev.0);
        SweepOnlyMoves(step, prev.0, |prev.0|);
        SameButPositionsTrans(ns, prev.0, SweepAll(step, prev.0).0);
      }
    }
  }

  /** Sweeps of steps that leave fixed nodes alone never move a fixed
      node. */
  lemma {:induction false} IteratedKeepsFixed(schedule: nat -> Step, ns: seq<NodeRec>, iters: nat)
    requires forall i: nat :: KeepsFixed(schedule(i))
    ensures forall v :: 0 <= v < |ns| && ns[v].fixed ==> Iterated(schedule, ns, iters).0[v] == ns[v]
    decreases iters
  {
    if iters > 0 {
      IteratedKeepsFixed(schedule, ns, iters - 1);
      var prev := Iterated(schedule, ns, iters - 1);
      if prev.1 {
        SweepKeepsFixed(schedule(iters - 1), prev.0, |prev.0|);
      }
    }
  }

  // ---------------------------------------------------------------------
  // Laplacian and Taubin smoothing

  /** One node of a Laplacian or Taubin sweep: node v moves, as the rule's
      move_node moves it under the policy, by `factor` times its Laplacian
      over the current positions. */
  function LaplacianStep(rule: MoveRule, p: Policy, es: seq<EdgeRec>, factor: real): Step {
    (cur: seq<NodeRec>, v: nat) =>
      if v < |cur| then
        match Laplacian(cur, es, v)
        case None => None
        case Some(l) => Move(rule, p, cur, es, v, Scale(factor, l))
      else None
  }

  /** Sweep i scales the Laplacian by factor(i). */
  function FactorSchedule(rule: MoveRule, p: Policy, es: seq<EdgeRec>, factor: nat -> real): nat -> Step {
    (i: nat) => LaplacianStep(rule, p, es, factor(i))
  }

  /** LaplacianSmoothing: every sweep scales by alpha. */
  function LaplacianSchedule(rule: MoveRule, p: Policy, es: seq<EdgeRec>, alpha: real): nat -> Step {
    FactorSchedule(rule, p, es, (i: nat) => alpha)
  }

  /** TaubinSmoothing's factor: lamb on even iterations, -mu on odd ones. */
  function TaubinFactor(lamb: real, mu: real, i: nat): real {
    if i % 2 == 0 then lamb else -mu
  }

  function TaubinSchedule(rule: MoveRule, p: Policy, es: seq<EdgeRec>, lamb: real, mu: real): nat -> Step {
    FactorSchedule(rule, p, es, (i: nat) => TaubinFactor(lamb, mu, i))
  }

  lemma FactorScheduleOnlyMoves(rule: MoveRule, p: Policy, es: seq<EdgeRec>, factor: nat -> real)
    ensures forall i: nat :: OnlyMoves(FactorSchedule(rule, p, es, factor)(i))
  {
    forall i: nat, cur: seq<NodeRec>, v: nat | v < |cur| && FactorSchedule(rule, p, es, factor)(i)(cur, v).Some?
      ensures FactorSchedule(rule, p, es, factor)(i)(cur, v).value ==
              cur[v].(pos := FactorSchedule(rule, p, es, factor)(i)(cur, v).value.pos)
    {
      assert FactorSchedule(rule, p, es, factor)(i) == LaplacianStep(rule, p, es, factor(i));
      if Laplacian(cur, es, v).Some? {
        assert LaplacianStep(rule, p, es, factor(i))(cur, v) ==
               Move(rule, p, cur, es, v, Scale(factor(i), Laplacian(cur, es, v).value));
      }
    }
  }

  /** Under 'no_move' and the intended rule neither smoother moves a fixed
      node. */
  lemma FactorScheduleKeepsFixed(es: seq<EdgeRec>, factor: nat -> real)
    ensures forall i: nat :: KeepsFixed(FactorSchedule(Intended, NoMove, es, factor)(i))
  {
    forall i: nat, cur: seq<NodeRec>, v: nat |
      v < |cur| && cur[v].fixed && FactorSchedule(Intended, NoMove, es, factor)(i)(cur, v).Some?
      ensures FactorSchedule(Intended, NoMove, es, factor)(i)(cur, v).value == cur[v]
    {
      assert FactorSchedule(Intended, NoMove, es, factor)(i) == LaplacianStep(Intended, NoMove, es, factor(i));
      if Laplacian(cur, es, v).Some? {
        assert LaplacianStep(Intended, NoMove, es, factor(i))(cur, v) ==
               MoveNode(NoMove, cur, es, v, Scale(factor(i), Laplacian(cur, es, v).value));
      }
    }
  }

  /** Under 'no_move' as written, sweep i moves a fixed node by its scaled
      Laplacian and a free node by twice that. */
  lemma FactorScheduleNoMoveAsWritten(es: seq<EdgeRec>, factor: nat -> real, i: nat, cur: seq<NodeRec>, v: nat)
    requires v < |cur| && Laplacian(cur, es, v).Some?
    ensures var d := Scale(factor(i), Laplacian(cur, es, v).value);
      FactorSchedule(AsWritten, NoMove, es, factor)(i)(cur, v) ==
        Some(if cur[v].fixed then Moved(cur[v], d) else Moved(Moved(cur[v], d), d))
  {
    var d := Scale(factor(i), Laplacian(cur, es, v).value);
    assert FactorSchedule(AsWritten, NoMove, es, factor)(i)(cur, v) == MoveNodeAsWritten(NoMove, cur, es, v, d);
    NoMoveAsWritten(cur, es, v, d);
  }

  /** LaplacianSmoothing.smoothing: `iters` sweeps, each node moving by
      alpha times its Laplacian as the rule's move_node moves it. */
  method LaplacianSmoothing(g: Mesh, rule: MoveRule, p: Policy, iters: nat, alpha: real) returns (ok: bool)
    requires g.Valid()
    modifies g
    ensures g.Valid() && g.edges == old(g.edges) && g.faces == old(g.faces)
    ensures (g.nodes, ok) == Iterated(LaplacianSchedule(rule, p, old(g.edges), alpha), old(g.nodes), iters)
  {
    FactorScheduleOnlyMoves(rule, p, g.edges, (i: nat) => alpha);
    ok := Smooth(g, LaplacianSchedule(rule, p, g.edges, alpha), iters);
  }

  /** TaubinSmoothing.smoothing: sweeps alternate between lamb times the
      Laplacian and -mu times it. */
  method TaubinSmoothing(g: Mesh, rule: MoveRule, p: Policy, iters: nat, lamb: real, mu: real) returns (ok: bool)
    requires g.Valid()
    modifies g
    ensures g.Valid() && g.edges == old(g.edges) && g.faces == old(g.faces)
    ensures (g.nodes, ok) == Iterated(TaubinSchedule(rule, p, old(g.edges), lamb, mu), old(g.nodes), iters)
  {
    FactorScheduleOnlyMoves(rule, p, g.edges, (i: nat) => TaubinFactor(lamb, mu, i));
    ok := Smooth(g, TaubinSchedule(rule, p, g.edges, lamb, mu), iters);
  }

  /** Taubin smoothing with mu = -lamb is Laplacian smoothing with alpha =
      lamb. */
  lemma {:induction false} TaubinWithNegatedMu(rule: MoveRule, p: Policy, es: seq<EdgeRec>, lamb: real, ns: seq<NodeRec>, iters: nat)
    ensures Iterated(TaubinSchedule(rule, p, es, lamb, -lamb), ns, iters) ==
            Iterated(LaplacianSchedule(rule, p, es, lamb), ns, iters)
    decreases iters
  {
    if iters > 0 {
      TaubinWithNegatedMu(rule, p, es, lamb, ns, iters - 1);
      assert TaubinFactor(lamb, -lamb, iters - 1) == lamb;
      assert TaubinSchedule(rule, p, es, lamb, -lamb)(iters - 1) == LaplacianSchedule(rule, p, es, lamb)(iters - 1);
    }
  }

  /** Every node has at least two edges, each with two nodes of the mesh:
      where every Laplacian is defined. */
  ghost predicate Smoothable(ns: seq<NodeRec>, es: seq<EdgeRec>) {
    forall v :: 0 <= v < |ns| ==> |ns[v].edges| > 1 && NeighboursDefined(ns, es, v)
  }

  ghost predicate AllAt(ns: seq<NodeRec>, c: Vec) {
    forall v :: 0 <= v < |ns| ==> ns[v].pos == c
  }

  lemma StepAtRest(rule: MoveRule, p: Policy, es: seq<EdgeRec>, f: real, ns: seq<NodeRec>, c: Vec, v: nat)
    requires p != AlongEdge && Smoothable(ns, es) && AllAt(ns, c) && v < |ns|
    ensures LaplacianStep(rule, p, es, f)(ns, v) == Some(ns[v])
  {
    LaplacianAtRest(ns, es, v);
    assert Moved(ns[v], Scale(f, Zero)) == ns[v];
    assert Moved(Moved(ns[v], Scale(f, Zero)), Scale(f, Zero)) == ns[v];
  }

  lemma {:induction false} SweepAtRest(rule: MoveRule, p: Policy, es: seq<EdgeRec>, f: real, ns: seq<NodeRec>, c: Vec, k: nat)
    requires p != AlongEdge && Smoothable(ns, es) && AllAt(ns, c) && k <= |ns|
    ensures SweepUpTo(LaplacianStep(rule, p, es, f), ns, k) == (ns, true)
    decreases k
  {
    if k > 0 {
      SweepAtRest(rule, p, es, f, ns, c, k - 1);
      StepAtRest(rule, p, es, f, ns, c, k - 1);
      assert ns[k - 1 := ns[k - 1]] == ns;
    }
  }

  /** Nodes that all sit at one point stay there and every sweep succeeds,
      whatever the factors and the move rule, under 'no_move' and with no
      fixation. */
  lemma {:induction false} IteratedAtRest(rule: MoveRule, p: Policy, es: seq<EdgeRec>, factor: nat -> real, ns: seq<NodeRec>, c: Vec, iters: nat)
    requires p != AlongEdge && Smoothable(ns, es) && AllAt(ns, c)
    ensures Iterated(FactorSchedule(rule, p, es, factor), ns, iters) == (ns, true)
    decreases iters
  {
    if iters > 0 {
      IteratedAtRest(rule, p, es, factor, ns, c, iters - 1);
      SweepAtRest(rule, p, es, factor(iters - 1), ns, c, |ns|);
    }
  }

  // ---------------------------------------------------------------------
  // Null-space smoothing

  /** What the eigen-decomposition of node v's weighted normal matrix yields
      over the positions `ns`: k, the number of eigenvalues above epsilon
      times the largest, and the displacement to the area-weighted mean of
      the face centroids projected on the null space, before scaling by st. */
  type Solver = (seq<NodeRec>, nat) -> (nat, Vec)

  /** The shift of node v in one null-space iteration: none for a node
      without faces (its normal matrix cannot be built), zero when the
      normals span all three directions (k >= 3), st times the projected
      displacement otherwise. */
  function NullSpaceShift(solve: Solver, st: real, ns: seq<NodeRec>, v: nat): (r: Option<Vec>)
    requires v < |ns|
    ensures r.Some? <==> |ns[v].faces| > 0
    ensures r.Some? && solve(ns, v).0 >= 3 ==> r.value == Zero
    ensures r.Some? && solve(ns, v).0 < 3 ==> r.value == Scale(st, solve(ns, v).1)
  {
    if |ns[v].faces| == 0 then None
    else if solve(ns, v).0 >= 3 then Some(Zero)
    else Some(Scale(st, solve(ns, v).1))
  }

  /** The `laplacians` list of NullSpaceSmoothing.smoothing for the first k
      nodes, all computed on the positions at the start of the iteration;
      None when a node fails. */
  function Displacements(solve: Solver, st: real, ns: seq<NodeRec>, k: nat): (r: Option<seq<Vec>>)
    requires k <= |ns|
    ensures r.Some? <==> forall v :: 0 <= v < k ==> |ns[v].faces| > 0
    ensures r.Some? ==> |r.value| == k
    ensures r.Some? ==> forall v :: 0 <= v < k ==> Some(r.value[v]) == NullSpaceShift(solve, st, ns, v)
    decreases k
  {
    if k == 0 then Some([])
    else match Displacements(solve, st, ns, k - 1)
      case None => None
      case Some(ls) =>
        match NullSpaceShift(solve, st, ns, k - 1)
        case None => None
        case Some(t) => Some(ls + [t])
  }

  /** Collects the displacements of every node; the mesh is left as it is. */
  method CollectDisplacements(g: Mesh, solve: Solver, st: real) returns (ls: Option<seq<Vec>>)
    ensures ls == Displacements(solve, st, g.nodes, |g.nodes|)
  {
    var acc: seq<Vec> := [];
    var v := 0;
    while v < |g.nodes|
      invariant 0 <= v <= |g.nodes|
      invariant Displacements(solve, st, g.nodes, v) == Some(acc)
    {
      var t := NullSpaceShift(solve, st, g.nodes, v);
      if t.None? {
        DisplacementsAfterFail(solve, st, g.nodes, v + 1, |g.nodes|);
        return None;
      }
      acc := acc + [t.value];
      v := v + 1;
    }
    ls := Some(acc);
  }

  lemma {:induction false} DisplacementsAfterFail(solve: Solver, st: real, ns: seq<NodeRec>, k: nat, n: nat)
    requires k <= n <= |ns| && Displacements(solve, st, ns, k).None?
    ensures Displacements(solve, st, ns, n).None?
    decreases n - k
  {
    if k < n {
      DisplacementsAfterFail(solve, st, ns, k, n - 1);
    }
  }

  /** apply_laplacians: node v moves by ls[v] as the rule's move_node moves
      it. */
  function ApplyStep(rule: MoveRule, p: Policy, es: seq<EdgeRec>, ls: seq<Vec>): Step {
    (cur: seq<NodeRec>, v: nat) =>
      if v < |cur| && v < |ls| then Move(rule, p, cur, es, v, ls[v]) else None
  }

  lemma ApplyStepOnlyMoves(rule: MoveRule, p: Policy, es: seq<EdgeRec>, ls: seq<Vec>)
    ensures OnlyMoves(ApplyStep(rule, p, es, ls))
  {
    forall cur: seq<NodeRec>, v: nat | v < |cur| && ApplyStep(rule, p, es, ls)(cur, v).Some?
      ensures ApplyStep(rule, p, es, ls)(cur, v).value == cur[v].(pos := ApplyStep(rule, p, es, ls)(cur, v).value.pos)
    {
    }
  }

  /** apply_laplacians: refuses a list whose length is not the number of
      nodes, and otherwise moves every node in order. */
  method ApplyLaplacians(g: Mesh, rule: MoveRule, p: Policy, ls: seq<Vec>) returns (ok: bool)
    requires g.Valid()
    modifies g
    ensures g.Valid() && g.edges == old(g.edges) && g.faces == old(g.faces)
    ensures |ls| != |old(g.nodes)| ==> !ok && g.nodes == old(g.nodes)
    ensures |ls| == |old(g.nodes)| ==> (g.nodes, ok) == SweepAll(ApplyStep(rule, p, old(g.edges), ls), old(g.nodes))
  {
    if |ls| != |g.nodes| {
      return false;
    }
    ApplyStepOnlyMoves(rule, p, g.edges, ls);
    ok := Sweep(g, ApplyStep(rule, p, g.edges, ls));
  }

  /** Where a node ends up when the displacement t is applied without
      border projection: the intended rule keeps a fixed node under
      'no_move'; as written, 'no_move' moves a fixed node by t and a free
      node by 2t. */
  function AppliedNode(rule: MoveRule, p: Policy, n: NodeRec, t: Vec): NodeRec {
    match rule
    case Intended => if n.fixed && p == NoMove then n else Moved(n, t)
    case AsWritten => if !n.fixed && p == NoMove then Moved(Moved(n, t), t) else Moved(n, t)
  }

  /** One step of apply_laplacians without border projection gives
      AppliedNode. */
  lemma ApplyStepApplied(rule: MoveRule, p: Policy, es: seq<EdgeRec>, ls: seq<Vec>, cur: seq<NodeRec>, v: nat)
    requires p != AlongEdge && v < |cur| && v < |ls|
    ensures ApplyStep(rule, p, es, ls)(cur, v) == Some(AppliedNode(rule, p, cur[v], ls[v]))
  {
    NoMoveAsWritten(cur, es, v, ls[v]);
  }

  /** Without border projection applying the displacements moves every node
      by its own displacement, whatever the order of the nodes: the result is
      that of moving them all at once. */
  lemma {:induction false} ApplyAllAtOnce(rule: MoveRule, p: Policy, es: seq<EdgeRec>, ls: seq<Vec>, ns: seq<NodeRec>, k: nat)
    requires p != AlongEdge && |ls| == |ns| && k <= |ns|
    ensures SweepUpTo(ApplyStep(rule, p, es, ls), ns, k) ==
      (seq(|ns|, v requires 0 <= v < |ns| => if v < k then AppliedNode(rule, p, ns[v], ls[v]) else ns[v]), true)
    decreases k
  {
    var want := seq(|ns|, v requires 0 <= v < |ns| => if v < k then AppliedNode(rule, p, ns[v], ls[v]) else ns[v]);
    if k == 0 {
      assert want == ns;
    } else {
      ApplyAllAtOnce(rule, p, es, ls, ns, k - 1);
      var prev := SweepUpTo(ApplyStep(rule, p, es, ls), ns, k - 1).0;
      assert prev[k - 1] == ns[k - 1];
      ApplyStepApplied(rule, p, es, ls, prev, k - 1);
      assert want == prev[k - 1 := AppliedNode(rule, p, ns[k - 1], ls[k - 1])];
    }
  }

  /** One iteration of NullSpaceSmoothing.smoothing: the displacements of
      all nodes on the starting positions, then apply_laplacians. */
  function NullSpaceIteration(solve: Solver, st: real, rule: MoveRule, p: Policy, es: seq<EdgeRec>, ns: seq<NodeRec>): (r: (seq<NodeRec>, bool))
    ensures |r.0| == |ns|
  {
    match Displacements(solve, st, ns, |ns|)
    case None => (ns, false)
    case Some(ls) => SweepAll(ApplyStep(rule, p, es, ls), ns)
  }

  function NullSpaceIterated(solve: Solver, st: real, rule: MoveRule, p: Policy, es: seq<EdgeRec>, ns: seq<NodeRec>, iters: nat): (r: (seq<NodeRec>, bool))
    ensures |r.0| == |ns|
    decreases iters
  {
    if iters == 0 then (ns, true)
    else
      var prev := NullSpaceIterated(solve, st, rule, p, es, ns, iters - 1);
      if !prev.1 then prev else NullSpaceIteration(solve, st, rule, p, es, prev.0)
  }

  lemma {:induction false} NullSpaceAfterFail(solve: Solver, st: real, rule: MoveRule, p: Policy, es: seq<EdgeRec>, ns: seq<NodeRec>, k: nat, n: nat)
    requires k <= n && !NullSpaceIterated(solve, st, rule, p, es, ns, k).1
    ensures NullSpaceIterated(solve, st, rule, p, es, ns, n) == NullSpaceIterated(solve, st, rule, p, es, ns, k)
    decreases n - k
  {
    if k < n {
      NullSpaceAfterFail(solve, st, rule, p, es, ns, k, n - 1);
    }
  }

  /** One iteration of NullSpaceSmoothing.smoothing on the mesh. */
  method NullSpaceIterationInPlace(g: Mesh, solve: Solver, st: real, rule: MoveRule, p: Policy) returns (ok: bool)
    requires g.Valid()
    modifies g
    ensures g.Valid() && g.edges == old(g.edges) && g.faces == old(g.faces)
    ensures (g.nodes, ok) == NullSpaceIteration(solve, st, rule, p, old(g.edges), old(g.nodes))
  {
    var ls := CollectDisplacements(g, solve, st);
    if ls.None? {
      return false;
    }
    ok := ApplyLaplacians(g, rule, p, ls.value);
  }

  /** NullSpaceSmoothing.smoothing. */
  method NullSpaceSmoothing(g: Mesh, solve: Solver, st: real, rule: MoveRule, p: Policy, iters: nat) returns (ok: bool)
    requires g.Valid()
    modifies g
    ensures g.Valid() && g.edges == old(g.edges) && g.faces == old(g.faces)
    ensures (g.nodes, ok) == NullSpaceIterated(solve, st, rule, p, old(g.edges), old(g.nodes), iters)
  {
    ghost var s, es, fs := g.nodes, g.edges, g.faces;
    var i := 0;
    while i < iters
      invariant 0 <= i <= iters && NullSpaceAfter(g, solve, st, rule, p, es, fs, s, i)
    {
      ok := NullSpaceRound(g, solve, st, rule, p, es, fs, s, i, iters);
      if !ok {
        return;
      }
      i := i + 1;
    }
    ok := true;
  }

  /** The state of NullSpaceSmoothing after i iterations that all
      succeeded. */
  ghost predicate NullSpaceAfter(g: Mesh, solve: Solver, st: real, rule: MoveRule, p: Policy, es: seq<EdgeRec>,
                                 fs: seq<FaceRec>, s: seq<NodeRec>, i: nat)
    reads g
  {
    g.Valid() && g.edges == es && g.faces == fs && NullSpaceIterated(solve, st, rule, p, es, s, i) == (g.nodes, true)
  }

  /** Iteration i + 1 of NullSpaceSmoothing, stated against
      NullSpaceIterated. */
  method NullSpaceRound(g: Mesh, solve: Solver, st: real, rule: MoveRule, p: Policy, ghost es: seq<EdgeRec>,
                        ghost fs: seq<FaceRec>, ghost s: seq<NodeRec>, i: nat, ghost iters: nat) returns (ok: bool)
    requires NullSpaceAfter(g, solve, st, rule, p, es, fs, s, i) && i < iters
    modifies g
    ensures ok ==> NullSpaceAfter(g, solve, st, rule, p, es, fs, s, i + 1)
    ensures !ok ==> g.Valid() && g.edges == es && g.faces == fs &&
                    NullSpaceIterated(solve, st, rule, p, es, s, iters) == (g.nodes, false)
  {
    ok := NullSpaceIterationInPlace(g, solve, st, rule, p);
    if !ok {
      NullSpaceAfterFail(solve, st, rule, p, es, s, i + 1, iters);
    }
  }

  /** Without border projection a null-space iteration moves every node by
      its own shift computed on the starting positions (Jacobi order), and
      fails exactly when some node has no faces. */
  lemma NullSpaceIterationAllAtOnce(solve: Solver, st: real, rule: MoveRule, p: Policy, es: seq<EdgeRec>, ns: seq<NodeRec>)
    requires p != AlongEdge
    ensures NullSpaceIteration(solve, st, rule, p, es, ns).1 <==> forall v :: 0 <= v < |ns| ==> |ns[v].faces| > 0
    ensures NullSpaceIteration(solve, st, rule, p, es, ns).1 ==> forall v :: 0 <= v < |ns| ==>
      NullSpaceIteration(solve, st, rule, p, es, ns).0[v] == AppliedNode(rule, p, ns[v], NullSpaceShift(solve, st, ns, v).value)
  {
    var d := Displacements(solve, st, ns, |ns|);
    if d.Some? {
      ApplyAllAtOnce(rule, p, es, d.value, ns, |ns|);
    }
  }

  // ---------------------------------------------------------------------
  // In-place null-space smoothing

  /** One node of null_space_smoothing: with fix_border_nodes set a fixed
      node is skipped; a node without faces fails; k >= 3 leaves the node
      where it is; otherwise it moves by st times the projected displacement,
      along a border edge when fix_direction_of_border_nodes is set and the
      node is fixed. The solver sees the positions earlier nodes of the
      sweep have already moved to. */
  function InPlaceNullSpaceStep(solve: Solver, st: real, es: seq<EdgeRec>, fixBorder: bool, fixDirection: bool): Step {
    (cur: seq<NodeRec>, v: nat) =>
      if v >= |cur| then None
      else if fixBorder && cur[v].fixed then Some(cur[v])
      else match NullSpaceShift(solve, st, cur, v)
        case None => None
        case Some(t) =>
          if solve(cur, v).0 >= 3 then Some(cur[v])
          else MoveNode(if fixDirection then AlongEdge else Free, cur, es, v, t)
  }

  function InPlaceSchedule(solve: Solver, st: real, es: seq<EdgeRec>, fixBorder: bool, fixDirection: bool): nat -> Step {
    (i: nat) => InPlaceNullSpaceStep(solve, st, es, fixBorder, fixDirection)
  }

  lemma InPlaceOnlyMoves(solve: Solver, st: real, es: seq<EdgeRec>, fixBorder: bool, fixDirection: bool)
    ensures forall i: nat :: OnlyMoves(InPlaceSchedule(solve, st, es, fixBorder, fixDirection)(i))
  {
    var step := InPlaceNullSpaceStep(solve, st, es, fixBorder, fixDirection);
    forall cur: seq<NodeRec>, v: nat | v < |cur| && step(cur, v).Some?
      ensures step(cur, v).value == cur[v].(pos := step(cur, v).value.pos)
    {
      if !(fixBorder && cur[v].fixed) && solve(cur, v).0 < 3 {
        assert step(cur, v) ==
               MoveNode(if fixDirection then AlongEdge else Free, cur, es, v, NullSpaceShift(solve, st, cur, v).value);
      }
    }
  }

  /** null_space_smoothing. */
  method NullSpaceSmoothingInPlace(g: Mesh, solve: Solver, st: real, iters: nat, fixBorder: bool, fixDirection: bool)
    returns (ok: bool)
    requires g.Valid()
    modifies g
    ensures g.Valid() && g.edges == old(g.edges) && g.faces == old(g.faces)
    ensures (g.nodes, ok) == Iterated(InPlaceSchedule(solve, st, old(g.edges), fixBorder, fixDirection), old(g.nodes), iters)
  {
    InPlaceOnlyMoves(solve, st, g.edges, fixBorder, fixDirection);
    ok := Smooth(g, InPlaceSchedule(solve, st, g.edges, fixBorder, fixDirection), iters);
  }

  /** With fix_border_nodes set, fixed nodes never move, however many
      iterations run. */
  lemma InPlaceKeepsFixed(solve: Solver, st: real, es: seq<EdgeRec>, fixDirection: bool, ns: seq<NodeRec>, iters: nat)
    ensures forall v :: 0 <= v < |ns| && ns[v].fixed ==>
      Iterated(InPlaceSchedule(solve, st, es, true, fixDirection), ns, iters).0[v] == ns[v]
  {
    var sched := InPlaceSchedule(solve, st, es, true, fixDirection);
    forall i: nat
      ensures KeepsFixed(sched(i))
    {
    }
    IteratedKeepsFixed(sched, ns, iters);
  }

  // ---------------------------------------------------------------------
  // The Euler check

  /** check_euler_equations: the edge and face counts a triangulated disc
      with `border` border nodes has. */
  predicate EulerEquations(edges: int, nodes: int, faces: int, border: int) {
    edges == 3 * nodes - border - 3 && faces == 2 * nodes - border - 2
  }

  /** check_euler_equations on a mesh; a mesh that passes satisfies Euler's
      formula for a disc, N - E + F = 1. */
  method CheckEulerEquations(g: Mesh, border: int) returns (ok: bool)
    ensures ok <==> EulerEquations(|g.edges|, |g.nodes|, |g.faces|, border)
    ensures ok ==> |g.nodes| - |g.edges| + |g.faces| == 1
  {
    ok := |g.edges| == 3 * |g.nodes| - border - 3 && |g.faces| == 2 * |g.nodes| - border - 2;
  }

  /** A structured grid of xn by yn nodes passes the check with its
      2 xn + 2 yn - 4 border nodes. */
  lemma StructuredGridPassesEuler(xn: int, yn: int)
    ensures EulerEquations(NumberOfEdges(xn, yn), NumberOfNodes(xn, yn), NumberOfFaces(xn, yn), BorderNodes(xn, yn))
  {
    EulerRelations(xn, yn);
  }
}
