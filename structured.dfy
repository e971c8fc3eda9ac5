/** The structured rectangular grid of grid/grid.py: element counts, the
    construction by init (element arrays, coordinates, ids) and the
    triangulation of its xn-by-yn lattice of nodes into squares, each cut
    into two triangles.

    Nodes, horizontal edges, vertical edges, diagonal edges and faces are
    numbered row by row. With s = xn - 1 squares per row, square (i, j) is
    cell i * s + j; its faces are 2c and 2c + 1; its corners are nul = i * xn
    + j, nur = nul + 1, ndl = nul + xn and ndr = ndl + 1. */
module Structured {
  import opened Util
  import opened Geom
  import opened Records
  import opened MeshSpec
  import opened Meshes

  // ---------------------------------------------------------------------
  // Counts

  function NumberOfNodes(xn: int, yn: int): int {
    xn * yn
  }

  function NumberOfEdges(xn: int, yn: int): int {
    (xn - 1) * yn + (yn - 1) * xn + (xn - 1) * (yn - 1)
  }

  function NumberOfFaces(xn: int, yn: int): int {
    2 * (xn - 1) * (yn - 1)
  }

  /** The nodes on the border of the rectangle. */
  function BorderNodes(xn: int, yn: int): int {
    2 * xn + 2 * yn - 4
  }

  /** The counts satisfy Euler's relations for a triangulated disc with
      B border nodes: E = 3N - B - 3 and F = 2N - B - 2. */
  lemma EulerRelations(xn: int, yn: int)
    ensures NumberOfEdges(xn, yn) == 3 * NumberOfNodes(xn, yn) - BorderNodes(xn, yn) - 3
    ensures NumberOfFaces(xn, yn) == 2 * NumberOfNodes(xn, yn) - BorderNodes(xn, yn) - 2
  {
    calc {
      NumberOfEdges(xn, yn);
      (xn - 1) * yn + (yn - 1) * xn + (xn - 1) * (yn - 1);
      3 * (xn * yn) - 2 * xn - 2 * yn + 1;
    }
  }

  /** With at least two points per axis the border is not empty, so the
      counts stay strictly below the bounds the mesh generators check
      (E < 3N - 3 and F < 2N - 2). */
  lemma CountsBelowGeneratorBounds(xn: int, yn: int)
    requires xn > 1 && yn > 1
    ensures NumberOfEdges(xn, yn) < 3 * NumberOfNodes(xn, yn) - 3
    ensures NumberOfFaces(xn, yn) < 2 * NumberOfNodes(xn, yn) - 2
  {
    EulerRelations(xn, yn);
  }

  // ---------------------------------------------------------------------
  // Row-major index arithmetic

  /** Multiplying by a non-negative factor keeps the order. */
  lemma MulLe(a: int, b: int, s: int)
    requires s >= 0
    ensures a <= b ==> a * s <= b * s
  {
    if a <= b {
      assert b * s - a * s == (b - a) * s;
    }
  }

  /** Division by `s` recovers the row and the column of a row-major index. */
  /** Euclidean division: e is its quotient times s plus its remainder. */
  lemma DivModSplit(e: int, s: int)
    requires s > 0
    ensures e == (e / s) * s + e % s && 0 <= e % s < s
  {
  }

  lemma DivModOf(i: int, j: int, s: int)
    requires s > 0 && i >= 0 && 0 <= j < s
    ensures (i * s + j) / s == i && (i * s + j) % s == j
  {
    var a := i * s + j;
    var q, r := a / s, a % s;
    assert a == q * s + r && 0 <= r < s;
    MulLe(i + 1, q, s);
    MulLe(q + 1, i, s);
    assert (i + 1) * s == i * s + s && (q + 1) * s == q * s + s;
  }

  /** Row-major indices with columns below `s` are equal only when rows and
      columns are. */
  lemma RowMajorUnique(i: int, j: int, k: int, l: int, s: int)
    requires s > 0 && i >= 0 && k >= 0 && 0 <= j < s && 0 <= l < s
    requires i * s + j == k * s + l
    ensures i == k && j == l
  {
    DivModOf(i, j, s);
    DivModOf(k, l, s);
  }

  /** An index below s * n lies in a row below n. */
  lemma RowBelow(e: int, s: int, n: int)
    requires s > 0 && 0 <= e < s * n
    ensures 0 <= e / s < n
  {
    var q, r := e / s, e % s;
    assert e == q * s + r;
    MulLe(n, q, s);
  }

  /** Every index triangulation computes for square (i, j) lies in the
      arrays sized by the counts, and the five edges of the square are
      distinct. */
  lemma CellIndices(xn: int, yn: int, i: int, j: int)
    requires xn > 1 && yn > 1 && 0 <= i < yn - 1 && 0 <= j < xn - 1
    ensures 2 * (j + i * (xn - 1)) + 1 < NumberOfFaces(xn, yn)
    ensures (i + 1) * xn + j + 1 < NumberOfNodes(xn, yn)
    ensures (i + 1) * (xn - 1) + j < (xn - 1) * yn
    ensures (xn - 1) * yn + i * xn + j + 1 < (xn - 1) * yn + (yn - 1) * xn
    ensures (xn - 1) * yn + (yn - 1) * xn + i * (xn - 1) + j < NumberOfEdges(xn, yn)
  {
    RowFits(i, j, xn - 1, yn - 1);
    assert 2 * (xn - 1) * (yn - 1) == 2 * ((yn - 1) * (xn - 1));
    RowFits(i + 1, j + 1, xn, yn);
    RowFits(i + 1, j, xn - 1, yn);
    RowFits(i, j + 1, xn, yn - 1);
  }

  /** Position j of row i, rows of length s, lies before row n. */
  lemma RowFits(i: int, j: int, s: int, n: int)
    requires 0 <= i < n && 0 <= j < s
    ensures i * s + j < n * s && i * s + j < s * n
  {
    MulLe(i + 1, n, s);
    assert (i + 1) * s == i * s + s;
  }

  // ---------------------------------------------------------------------
  // What triangulation builds

  /** The number of squares of the lattice. */
  function Squares(xn: nat, yn: nat): nat
    requires xn > 1 && yn > 1
  {
    MulLe(0, xn - 1, yn - 1);
    (xn - 1) * (yn - 1)
  }

  /** The number of horizontal edges (ehn) and of vertical edges (evn). */
  function Ehn(xn: nat, yn: nat): nat
    requires xn > 1
  {
    MulLe(0, xn - 1, yn);
    (xn - 1) * yn
  }

  function Evn(xn: nat, yn: nat): nat
    requires yn > 1
  {
    MulLe(0, yn - 1, xn);
    (yn - 1) * xn
  }

  /** The upper-left node of square c, squares numbered row by row. */
  function UpperLeft(xn: nat, c: nat): nat
    requires xn > 1
  {
    MulLe(0, c / (xn - 1), xn);
    (c / (xn - 1)) * xn + c % (xn - 1)
  }

  /** The nodes face f is linked to: [nul, ndl, nur] for the upper face of
      its square and [ndr, nur, ndl] for the lower one. */
  function FaceNodesAt(xn: nat, f: nat): (r: seq<nat>)
    requires xn > 1
    ensures |r| == 3
  {
    var c := f / 2;
    var nul := (c / (xn - 1)) * xn + c % (xn - 1);
    if f % 2 == 0 then [nul, nul + xn, nul + 1] else [nul + xn + 1, nul + 1, nul + xn]
  }

  /** The two nodes edge e is linked to: a horizontal edge joins a node to
      its right neighbour, a vertical edge k joins node k to the node below,
      and a diagonal joins the upper-right corner of its square to the
      lower-left one. */
  function EdgeNodesAt(xn: nat, yn: nat, e: nat): (r: seq<nat>)
    requires xn > 1 && yn > 1
    ensures |r| == 2
  {
    var s := xn - 1;
    var ehn := Ehn(xn, yn);
    var evn := Evn(xn, yn);
    if e < ehn then
      var a := UpperLeft(xn, e);
      [a, a + 1]
    else if e < ehn + evn then
      var k := e - ehn;
      [k, k + xn]
    else
      var k := e - ehn - evn;
      var a := UpperLeft(xn, k);
      [a + 1, a + xn]
  }

  /** The square whose round of the loop links edge e: its own square for
      an upper, left or diagonal edge; the square above for an edge of the
      bottom row; the square to the left for an edge of the right column. */
  function EdgeCell(xn: nat, yn: nat, e: nat): int
    requires xn > 1 && yn > 1
  {
    var s := xn - 1;
    var ehn := Ehn(xn, yn);
    var evn := Evn(xn, yn);
    if e < ehn then
      (if e / s < yn - 1 then e else e - s)
    else if e < ehn + evn then
      var k := e - ehn;
      (k / xn) * s + (if k % xn < s then k % xn else s - 1)
    else
      e - ehn - evn
  }

  /** The faces once the first c squares are triangulated. */
  function FacesAfter(fs: seq<FaceRec>, xn: nat, c: nat): (r: seq<FaceRec>)
    requires xn > 1
    ensures |r| == |fs|
  {
    seq(|fs|, f requires 0 <= f < |fs| => if f / 2 < c then fs[f].(nodes := FaceNodesAt(xn, f)) else fs[f])
  }

  /** The edges once the first c squares are triangulated. */
  function EdgesAfter(es: seq<EdgeRec>, xn: nat, yn: nat, c: nat): (r: seq<EdgeRec>)
    requires xn > 1 && yn > 1
    ensures |r| == |es|
  {
    seq(|es|, e requires 0 <= e < |es| =>
      if EdgeCell(xn, yn, e) < c then es[e].(nodes := EdgeNodesAt(xn, yn, e)) else es[e])
  }

  /** One square of the lattice: its row i and column j, its cell number c,
      its upper-left corner nul, its left edge el and its diagonal ec. The
      other indices follow: the upper edge is c, the lower edge c + s, the
      right edge el + 1, the faces 2c and 2c + 1. */
  datatype Square = Square(i: nat, j: nat, c: nat, nul: nat, el: nat, ec: nat)

  /** The indices triangulation computes for square (i, j). */
  function SquareAt(xn: nat, yn: nat, i: nat, j: nat): (q: Square)
    requires xn > 1 && yn > 1 && i < yn - 1 && j < xn - 1
    ensures q.i == i && q.j == j && q.c == i * (xn - 1) + j && q.nul == i * xn + j
    ensures q.el == Ehn(xn, yn) + q.nul && q.ec == Ehn(xn, yn) + Evn(xn, yn) + q.c
    ensures 2 * q.c + 1 < NumberOfFaces(xn, yn) && q.nul + xn + 1 < NumberOfNodes(xn, yn)
    ensures q.c + (xn - 1) < Ehn(xn, yn) && q.el + 1 < Ehn(xn, yn) + Evn(xn, yn)
    ensures q.ec < NumberOfEdges(xn, yn)
  {
    CellIndices(xn, yn, i, j);
    Square(i, j, i * (xn - 1) + j, i * xn + j, Ehn(xn, yn) + i * xn + j,
           Ehn(xn, yn) + Evn(xn, yn) + i * (xn - 1) + j)
  }

  ghost predicate IsSquare(xn: nat, yn: nat, q: Square) {
    xn > 1 && yn > 1 && q.i < yn - 1 && q.j < xn - 1 && q == SquareAt(xn, yn, q.i, q.j)
  }

  /** The faces after the round of square q: the upper face gets
      [nul, ndl, nur] and the lower face [ndr, nur, ndl]. */
  function CellFaceUpdate(fs: seq<FaceRec>, xn: nat, yn: nat, q: Square): (r: seq<FaceRec>)
    requires IsSquare(xn, yn, q) && |fs| == NumberOfFaces(xn, yn)
    ensures |r| == |fs|
  {
    fs[2 * q.c := fs[2 * q.c].(nodes := [q.nul, q.nul + xn, q.nul + 1])]
      [2 * q.c + 1 := fs[2 * q.c + 1].(nodes := [q.nul + xn + 1, q.nul + 1, q.nul + xn])]
  }

  /** Edge e with the node list ns. */
  function SetNodes(es: seq<EdgeRec>, e: nat, ns: seq<nat>): (r: seq<EdgeRec>)
    requires e < |es|
    ensures |r| == |es| && r[e].nodes == ns
  {
    es[e := es[e].(nodes := ns)]
  }

  /** The upper, left and diagonal edges of square q with their nodes. */
  function InnerEdgeUpdate(es: seq<EdgeRec>, xn: nat, yn: nat, q: Square): (r: seq<EdgeRec>)
    requires IsSquare(xn, yn, q) && |es| == NumberOfEdges(xn, yn)
    ensures |r| == |es|
  {
    SetNodes(SetNodes(SetNodes(es, q.c, [q.nul, q.nul + 1]), q.el, [q.nul, q.nul + xn]), q.ec, [q.nul + 1, q.nul + xn])
  }

  /** The edges after the round of square q: its upper, left and diagonal
      edges, and its lower edge in the bottom row and its right edge in the
      right column, get their two nodes. */
  function CellEdgeUpdate(es: seq<EdgeRec>, xn: nat, yn: nat, q: Square): (r: seq<EdgeRec>)
    requires IsSquare(xn, yn, q) && |es| == NumberOfEdges(xn, yn)
    ensures |r| == |es|
  {
    var es1 := InnerEdgeUpdate(es, xn, yn, q);
    var es2 := if q.i == yn - 2 then SetNodes(es1, q.c + (xn - 1), [q.nul + xn, q.nul + xn + 1]) else es1;
    if q.j == xn - 2 then SetNodes(es2, q.el + 1, [q.nul + 1, q.nul + xn + 1]) else es2
  }

  /** The upper edge of square (i, j) is edge c, joins nul to nur and
      belongs to the square's round. */
  lemma UpperEdge(xn: nat, yn: nat, i: nat, j: nat)
    requires xn > 1 && yn > 1 && i < yn - 1 && j < xn - 1
    ensures var c, nul := i * (xn - 1) + j, i * xn + j;
      EdgeCell(xn, yn, c) == c && EdgeNodesAt(xn, yn, c) == [nul, nul + 1]
  {
    var s, c := xn - 1, i * (xn - 1) + j;
    CellIndices(xn, yn, i, j);
    DivModOf(i, j, s);
    assert c < Ehn(xn, yn);
  }

  /** The lower edge of square (i, j) is edge c + s, joins ndl to ndr, and
      belongs to the square's round only in the bottom row. */
  lemma LowerEdge(xn: nat, yn: nat, i: nat, j: nat)
    requires xn > 1 && yn > 1 && i < yn - 1 && j < xn - 1
    ensures var s, c, nul := xn - 1, i * (xn - 1) + j, i * xn + j;
      EdgeCell(xn, yn, c + s) == (if i == yn - 2 then c else c + s) &&
      EdgeNodesAt(xn, yn, c + s) == [nul + xn, nul + xn + 1]
  {
    var s, c := xn - 1, i * (xn - 1) + j;
    CellIndices(xn, yn, i, j);
    DivModOf(i + 1, j, s);
    assert c + s == (i + 1) * s + j;
    assert (i + 1) * xn == i * xn + xn;
    assert c + s < Ehn(xn, yn);
  }

  /** The left edge of square (i, j) joins nul to ndl and belongs to the
      square's round. */
  lemma LeftEdge(xn: nat, yn: nat, i: nat, j: nat)
    requires xn > 1 && yn > 1 && i < yn - 1 && j < xn - 1
    ensures var c, nul := i * (xn - 1) + j, i * xn + j;
      var el := Ehn(xn, yn) + i * xn + j;
      EdgeCell(xn, yn, el) == c && EdgeNodesAt(xn, yn, el) == [nul, nul + xn]
  {
    CellIndices(xn, yn, i, j);
    DivModOf(i, j, xn);
    var ehn, evn := Ehn(xn, yn), Evn(xn, yn);
    var el := ehn + i * xn + j;
    assert ehn <= el < ehn + evn;
    var k := el - ehn;
    assert k / xn == i && k % xn == j;
  }

  /** The right edge of square (i, j) joins nur to ndr and belongs to the
      square's round only in the right column. */
  lemma RightEdge(xn: nat, yn: nat, i: nat, j: nat)
    requires xn > 1 && yn > 1 && i < yn - 1 && j < xn - 1
    ensures var c, nul := i * (xn - 1) + j, i * xn + j;
      var er := Ehn(xn, yn) + i * xn + j + 1;
      EdgeCell(xn, yn, er) == (if j == xn - 2 then c else c + 1) &&
      EdgeNodesAt(xn, yn, er) == [nul + 1, nul + xn + 1]
  {
    CellIndices(xn, yn, i, j);
    DivModOf(i, j + 1, xn);
  }

  /** The diagonal of square (i, j) joins nur to ndl and belongs to the
      square's round. */
  lemma DiagonalEdge(xn: nat, yn: nat, i: nat, j: nat)
    requires xn > 1 && yn > 1 && i < yn - 1 && j < xn - 1
    ensures var c, nul := i * (xn - 1) + j, i * xn + j;
      var ec := Ehn(xn, yn) + Evn(xn, yn) + c;
      EdgeCell(xn, yn, ec) == c && EdgeNodesAt(xn, yn, ec) == [nul + 1, nul + xn]
  {
    var c := i * (xn - 1) + j;
    var ehn, evn := Ehn(xn, yn), Evn(xn, yn);
    var ec := ehn + evn + c;
    DivModOf(i, j, xn - 1);
    assert UpperLeft(xn, c) == i * xn + j;
    assert !(ec < ehn) && !(ec < ehn + evn) && ec - ehn - evn == c;
  }

  /** The five edges of square q: the round each belongs to and the nodes
      it joins. */
  lemma SquareEdges(xn: nat, yn: nat, q: Square)
    requires IsSquare(xn, yn, q)
    ensures EdgeCell(xn, yn, q.c) == q.c && EdgeNodesAt(xn, yn, q.c) == [q.nul, q.nul + 1]
    ensures EdgeCell(xn, yn, q.el) == q.c && EdgeNodesAt(xn, yn, q.el) == [q.nul, q.nul + xn]
    ensures EdgeCell(xn, yn, q.ec) == q.c && EdgeNodesAt(xn, yn, q.ec) == [q.nul + 1, q.nul + xn]
    ensures EdgeCell(xn, yn, q.c + (xn - 1)) == (if q.i == yn - 2 then q.c else q.c + (xn - 1))
    ensures EdgeNodesAt(xn, yn, q.c + (xn - 1)) == [q.nul + xn, q.nul + xn + 1]
    ensures EdgeCell(xn, yn, q.el + 1) == (if q.j == xn - 2 then q.c else q.c + 1)
    ensures EdgeNodesAt(xn, yn, q.el + 1) == [q.nul + 1, q.nul + xn + 1]
  {
    SquareUpperEdge(xn, yn, q);
    SquareLeftEdge(xn, yn, q);
    SquareDiagonalEdge(xn, yn, q);
    SquareLowerEdge(xn, yn, q);
    SquareRightEdge(xn, yn, q);
  }

  lemma SquareUpperEdge(xn: nat, yn: nat, q: Square)
    requires IsSquare(xn, yn, q)
    ensures EdgeCell(xn, yn, q.c) == q.c && EdgeNodesAt(xn, yn, q.c) == [q.nul, q.nul + 1]
  {
    UpperEdge(xn, yn, q.i, q.j);
  }

  lemma SquareLeftEdge(xn: nat, yn: nat, q: Square)
    requires IsSquare(xn, yn, q)
    ensures EdgeCell(xn, yn, q.el) == q.c && EdgeNodesAt(xn, yn, q.el) == [q.nul, q.nul + xn]
  {
    LeftEdge(xn, yn, q.i, q.j);
  }

  lemma SquareDiagonalEdge(xn: nat, yn: nat, q: Square)
    requires IsSquare(xn, yn, q)
    ensures EdgeCell(xn, yn, q.ec) == q.c && EdgeNodesAt(xn, yn, q.ec) == [q.nul + 1, q.nul + xn]
  {
    DiagonalEdge(xn, yn, q.i, q.j);
  }

  lemma SquareLowerEdge(xn: nat, yn: nat, q: Square)
    requires IsSquare(xn, yn, q)
    ensures EdgeCell(xn, yn, q.c + (xn - 1)) == (if q.i == yn - 2 then q.c else q.c + (xn - 1))
    ensures EdgeNodesAt(xn, yn, q.c + (xn - 1)) == [q.nul + xn, q.nul + xn + 1]
  {
    LowerEdge(xn, yn, q.i, q.j);
  }

  lemma SquareRightEdge(xn: nat, yn: nat, q: Square)
    requires IsSquare(xn, yn, q)
    ensures EdgeCell(xn, yn, q.el + 1) == (if q.j == xn - 2 then q.c else q.c + 1)
    ensures EdgeNodesAt(xn, yn, q.el + 1) == [q.nul + 1, q.nul + xn + 1]
  {
    RightEdge(xn, yn, q.i, q.j);
  }

  /** Only the edges of square (i, j) belong to its round. */
  lemma CellEdgesBackward(xn: nat, yn: nat, i: nat, j: nat, e: nat)
    requires xn > 1 && yn > 1 && i < yn - 1 && j < xn - 1 && e < NumberOfEdges(xn, yn)
    requires EdgeCell(xn, yn, e) == i * (xn - 1) + j
    ensures var s, c := xn - 1, i * (xn - 1) + j;
      var el := Ehn(xn, yn) + i * xn + j;
      e == c || e == el || e == Ehn(xn, yn) + Evn(xn, yn) + c ||
      (e == c + s && i == yn - 2) || (e == el + 1 && j == xn - 2)
  {
    if e < Ehn(xn, yn) {
      HorizontalBackward(xn, yn, i, j, e);
    } else if e < Ehn(xn, yn) + Evn(xn, yn) {
      VerticalBackward(xn, yn, i, j, e);
    }
  }

  lemma HorizontalBackward(xn: nat, yn: nat, i: nat, j: nat, e: nat)
    requires xn > 1 && yn > 1 && i < yn - 1 && j < xn - 1 && e < Ehn(xn, yn)
    requires EdgeCell(xn, yn, e) == i * (xn - 1) + j
    ensures var s, c := xn - 1, i * (xn - 1) + j;
      e == c || (e == c + s && i == yn - 2)
  {
    var s, t := xn - 1, yn - 1;
    RowBelow(e, s, yn);
    var r, q := e / s, e % s;
    assert e == r * s + q;
    if r == t {
      assert e - s == (r - 1) * s + q;
      RowMajorUnique(r - 1, q, i, j, s);
    }
  }

  lemma VerticalBackward(xn: nat, yn: nat, i: nat, j: nat, e: nat)
    requires xn > 1 && yn > 1 && i < yn - 1 && j < xn - 1
    requires Ehn(xn, yn) <= e < Ehn(xn, yn) + Evn(xn, yn)
    requires EdgeCell(xn, yn, e) == i * (xn - 1) + j
    ensures var el := Ehn(xn, yn) + i * xn + j;
      e == el || (e == el + 1 && j == xn - 2)
  {
    var s, t := xn - 1, yn - 1;
    var k := e - Ehn(xn, yn);
    MulComm(t, xn);
    RowBelow(k, xn, t);
    var r, q := k / xn, k % xn;
    DivModSplit(k, xn);
    var q' := if q < s then q else s - 1;
    assert EdgeCell(xn, yn, e) == r * s + q' by {
      assert !(e < Ehn(xn, yn)) && e < Ehn(xn, yn) + Evn(xn, yn);
    }
    RowMajorUnique(r, q', i, j, s);
  }

  /** The nodes the round of square q gives edge e, if any. */
  function CellEdgeNodes(xn: nat, yn: nat, q: Square, e: nat): Option<seq<nat>> {
    var nul := q.nul;
    if e == q.c then Some([nul, nul + 1])
    else if e == q.el then Some([nul, nul + xn])
    else if e == q.ec then Some([nul + 1, nul + xn])
    else if e == q.c + (xn - 1) && q.i == yn - 2 then Some([nul + xn, nul + xn + 1])
    else if e == q.el + 1 && q.j == xn - 2 then Some([nul + 1, nul + xn + 1])
    else None
  }

  lemma CellEdgeUpdateAt(es: seq<EdgeRec>, xn: nat, yn: nat, q: Square, e: nat)
    requires IsSquare(xn, yn, q) && |es| == NumberOfEdges(xn, yn) && e < |es|
    ensures CellEdgeUpdate(es, xn, yn, q)[e] ==
      match CellEdgeNodes(xn, yn, q, e)
      case Some(ns) => es[e].(nodes := ns)
      case None => es[e]
  {
    SquareEdgesApart(xn, yn, q);
    var n := q.nul;
    RoundSetsAt(es, q.c, q.c + (xn - 1), q.el, q.el + 1, q.ec,
                [n, n + 1], [n + xn, n + xn + 1], [n, n + xn], [n + 1, n + xn + 1], [n + 1, n + xn],
                q.i == yn - 2, q.j == xn - 2, e);
  }

  /** The node lists a round sets, seen at one edge: the five targets are
      distinct, so at most one of them applies. */
  lemma RoundSetsAt(es: seq<EdgeRec>, c0: nat, c1: nat, c2: nat, c3: nat, c4: nat,
                    u0: seq<nat>, u1: seq<nat>, u2: seq<nat>, u3: seq<nat>, u4: seq<nat>,
                    p1: bool, p3: bool, e: nat)
    requires c0 < c1 < c2 < c3 < c4 < |es| && e < |es|
    ensures var es1 := SetNodes(SetNodes(SetNodes(es, c0, u0), c2, u2), c4, u4);
      var es2 := if p1 then SetNodes(es1, c1, u1) else es1;
      var es3 := if p3 then SetNodes(es2, c3, u3) else es2;
      es3[e] ==
        if e == c0 then es[e].(nodes := u0)
        else if e == c2 then es[e].(nodes := u2)
        else if e == c4 then es[e].(nodes := u4)
        else if e == c1 && p1 then es[e].(nodes := u1)
        else if e == c3 && p3 then es[e].(nodes := u3)
        else es[e]
  {
  }

  /** An edge of square q's round gets the nodes EdgeNodesAt names. */
  lemma EdgeOfRound(xn: nat, yn: nat, q: Square, e: nat)
    requires IsSquare(xn, yn, q) && e < NumberOfEdges(xn, yn) && EdgeCell(xn, yn, e) == q.c
    ensures CellEdgeNodes(xn, yn, q, e) == Some(EdgeNodesAt(xn, yn, e))
  {
    SquareEdgesBackward(xn, yn, q, e);
    SquareEdgesApart(xn, yn, q);
    if e == q.c {
      SquareUpperEdge(xn, yn, q);
    } else if e == q.el {
      SquareLeftEdge(xn, yn, q);
    } else if e == q.ec {
      SquareDiagonalEdge(xn, yn, q);
    } else if e == q.c + (xn - 1) {
      SquareLowerEdge(xn, yn, q);
    } else {
      SquareRightEdge(xn, yn, q);
    }
  }

  /** Only the edges of square q belong to its round. */
  lemma SquareEdgesBackward(xn: nat, yn: nat, q: Square, e: nat)
    requires IsSquare(xn, yn, q) && e < NumberOfEdges(xn, yn) && EdgeCell(xn, yn, e) == q.c
    ensures e == q.c || e == q.el || e == q.ec ||
      (e == q.c + (xn - 1) && q.i == yn - 2) || (e == q.el + 1 && q.j == xn - 2)
  {
    CellEdgesBackward(xn, yn, q.i, q.j, e);
  }

  /** Any other edge is left alone by square q's round. */
  lemma EdgeNotOfRound(xn: nat, yn: nat, q: Square, e: nat)
    requires IsSquare(xn, yn, q) && EdgeCell(xn, yn, e) != q.c
    ensures CellEdgeNodes(xn, yn, q, e) == None
  {
    SquareEdges(xn, yn, q);
  }

  lemma EdgesStepAt(es: seq<EdgeRec>, xn: nat, yn: nat, q: Square, e: nat)
    requires IsSquare(xn, yn, q) && |es| == NumberOfEdges(xn, yn) && e < |es|
    ensures EdgesAfter(es, xn, yn, q.c + 1)[e] == CellEdgeUpdate(EdgesAfter(es, xn, yn, q.c), xn, yn, q)[e]
  {
    var a := EdgesAfter(es, xn, yn, q.c);
    CellEdgeUpdateAt(a, xn, yn, q, e);
    if EdgeCell(xn, yn, e) == q.c {
      EdgeOfRound(xn, yn, q, e);
    } else {
      EdgeNotOfRound(xn, yn, q, e);
    }
  }

  /** The round of square q takes the edges from EdgesAfter c to
      EdgesAfter c + 1. */
  lemma EdgesStep(es: seq<EdgeRec>, xn: nat, yn: nat, q: Square)
    requires IsSquare(xn, yn, q) && |es| == NumberOfEdges(xn, yn)
    ensures EdgesAfter(es, xn, yn, q.c + 1) == CellEdgeUpdate(EdgesAfter(es, xn, yn, q.c), xn, yn, q)
  {
    var after := EdgesAfter(es, xn, yn, q.c + 1);
    var upd := CellEdgeUpdate(EdgesAfter(es, xn, yn, q.c), xn, yn, q);
    forall e | 0 <= e < |es|
      ensures after[e] == upd[e]
    {
      EdgesStepAt(es, xn, yn, q, e);
    }
  }

  /** The two faces of square q get the nodes FaceNodesAt names. */
  lemma SquareFaceNodes(xn: nat, yn: nat, q: Square)
    requires IsSquare(xn, yn, q)
    ensures FaceNodesAt(xn, 2 * q.c) == [q.nul, q.nul + xn, q.nul + 1]
    ensures FaceNodesAt(xn, 2 * q.c + 1) == [q.nul + xn + 1, q.nul + 1, q.nul + xn]
  {
    DivModOf(q.i, q.j, xn - 1);
    assert (2 * q.c) / 2 == q.c && (2 * q.c + 1) / 2 == q.c;
  }

  /** The round of square q takes the faces from FacesAfter c to
      FacesAfter c + 1. */
  lemma FacesStep(fs: seq<FaceRec>, xn: nat, yn: nat, q: Square)
    requires IsSquare(xn, yn, q) && |fs| == NumberOfFaces(xn, yn)
    ensures FacesAfter(fs, xn, q.c + 1) == CellFaceUpdate(FacesAfter(fs, xn, q.c), xn, yn, q)
  {
    SquareFaceNodes(xn, yn, q);
    var after := FacesAfter(fs, xn, q.c + 1);
    var upd := CellFaceUpdate(FacesAfter(fs, xn, q.c), xn, yn, q);
    forall f | 0 <= f < |fs|
      ensures after[f] == upd[f]
    {
      if f / 2 == q.c {
        assert f == 2 * q.c || f == 2 * q.c + 1;
      }
    }
  }

  /** Every edge belongs to the round of some square. */
  lemma EdgeCellInRange(xn: nat, yn: nat, e: nat)
    requires xn > 1 && yn > 1 && e < NumberOfEdges(xn, yn)
    ensures 0 <= EdgeCell(xn, yn, e) < (xn - 1) * (yn - 1)
  {
    var ehn, evn := Ehn(xn, yn), Evn(xn, yn);
    if e < ehn {
      HorizontalCellInRange(xn, yn, e);
    } else if e < ehn + evn {
      VerticalCellInRange(xn, yn, e);
    } else {
      assert e - ehn - evn < (xn - 1) * (yn - 1);
    }
  }

  lemma HorizontalCellInRange(xn: nat, yn: nat, e: nat)
    requires xn > 1 && yn > 1 && e < Ehn(xn, yn)
    ensures 0 <= EdgeCell(xn, yn, e) < (xn - 1) * (yn - 1)
  {
    var s, t := xn - 1, yn - 1;
    RowBelow(e, s, yn);
    var r, m := e / s, e % s;
    DivModSplit(e, s);
    if r < t {
      assert EdgeCell(xn, yn, e) == r * s + m;
      CellBelow(r, m, s, t);
    } else {
      assert r * s == (r - 1) * s + s;
      assert EdgeCell(xn, yn, e) == (r - 1) * s + m;
      CellBelow(r - 1, m, s, t);
    }
    MulComm(t, s);
  }

  lemma MulComm(a: int, b: int)
    ensures a * b == b * a
  {
  }

  lemma VerticalCellInRange(xn: nat, yn: nat, e: nat)
    requires xn > 1 && yn > 1 && Ehn(xn, yn) <= e < Ehn(xn, yn) + Evn(xn, yn)
    ensures 0 <= EdgeCell(xn, yn, e) < (xn - 1) * (yn - 1)
  {
    var s, t := xn - 1, yn - 1;
    var k := e - Ehn(xn, yn);
    MulComm(t, xn);
    RowBelow(k, xn, t);
    var r, m := k / xn, k % xn;
    var m' := if m < s then m else s - 1;
    assert EdgeCell(xn, yn, e) == r * s + m' by {
      assert !(e < Ehn(xn, yn)) && e < Ehn(xn, yn) + Evn(xn, yn);
    }
    CellBelow(r, m', s, t);
    MulComm(t, s);
  }

  /** Square (r, m) of a t-by-s lattice of squares has a cell number below
      t * s. */
  lemma CellBelow(r: int, m: int, s: int, t: int)
    requires 0 <= r < t && 0 <= m < s
    ensures 0 <= r * s + m < t * s
  {
    MulLe(r + 1, t, s);
    assert (r + 1) * s == r * s + s;
  }

  /** Once every square is triangulated, each face holds the corners
      FaceNodesAt names. */
  lemma FacesAfterAll(fs: seq<FaceRec>, xn: nat, yn: nat, f: nat)
    requires xn > 1 && yn > 1 && |fs| == NumberOfFaces(xn, yn) && f < |fs|
    ensures FacesAfter(fs, xn, Squares(xn, yn))[f] == fs[f].(nodes := FaceNodesAt(xn, f))
  {
    assert NumberOfFaces(xn, yn) == 2 * ((xn - 1) * (yn - 1));
  }

  /** Once every square is triangulated, each edge holds the two nodes
      EdgeNodesAt names. */
  lemma EdgesAfterAll(es: seq<EdgeRec>, xn: nat, yn: nat, e: nat)
    requires xn > 1 && yn > 1 && |es| == NumberOfEdges(xn, yn) && e < |es|
    ensures EdgesAfter(es, xn, yn, Squares(xn, yn))[e] == es[e].(nodes := EdgeNodesAt(xn, yn, e))
  {
    EdgeCellInRange(xn, yn, e);
  }

  /** The sides of the two triangles of square q are the square's edges:
      the upper face [nul, ndl, nur] has the upper, left and diagonal
      edges, the lower face [ndr, nur, ndl] the diagonal, lower and right
      edges. */
  lemma TriangleSides(xn: nat, yn: nat, q: Square)
    requires IsSquare(xn, yn, q)
    ensures var u, d := FaceNodesAt(xn, 2 * q.c), FaceNodesAt(xn, 2 * q.c + 1);
      EdgeNodesAt(xn, yn, q.c) == [u[0], u[2]] && EdgeNodesAt(xn, yn, q.el) == [u[0], u[1]] &&
      EdgeNodesAt(xn, yn, q.ec) == [u[2], u[1]] && EdgeNodesAt(xn, yn, q.ec) == [d[1], d[2]] &&
      EdgeNodesAt(xn, yn, q.c + (xn - 1)) == [d[2], d[0]] && EdgeNodesAt(xn, yn, q.el + 1) == [d[1], d[0]]
  {
    SquareFaceNodes(xn, yn, q);
    SquareEdges(xn, yn, q);
  }

  /** The corners of every face are three distinct nodes of the lattice. */
  lemma FaceNodesInRange(xn: nat, yn: nat, f: nat)
    requires xn > 1 && yn > 1 && f < NumberOfFaces(xn, yn)
    ensures var r := FaceNodesAt(xn, f);
      r[0] < NumberOfNodes(xn, yn) && r[1] < NumberOfNodes(xn, yn) && r[2] < NumberOfNodes(xn, yn) &&
      r[0] != r[1] && r[1] != r[2] && r[0] != r[2]
  {
    var s, c := xn - 1, f / 2;
    assert c < s * (yn - 1);
    RowBelow(c, s, yn - 1);
    var i, j := c / s, c % s;
    CellIndices(xn, yn, i, j);
  }

  /** The ends of every edge are two distinct nodes of the lattice. */
  lemma EdgeNodesInRange(xn: nat, yn: nat, e: nat)
    requires xn > 1 && yn > 1 && e < NumberOfEdges(xn, yn)
    ensures var r := EdgeNodesAt(xn, yn, e);
      r[0] < NumberOfNodes(xn, yn) && r[1] < NumberOfNodes(xn, yn) && r[0] != r[1]
  {
    var s, t := xn - 1, yn - 1;
    var ehn, evn := Ehn(xn, yn), Evn(xn, yn);
    if e < ehn {
      RowBelow(e, s, yn);
      LatticePoint(e / s, e % s, xn, yn);
    } else if e < ehn + evn {
      assert e - ehn < t * xn;
      assert t * xn + xn == xn * yn;
    } else {
      var k := e - ehn - evn;
      assert k < s * t;
      RowBelow(k, s, t);
      CellIndices(xn, yn, k / s, k % s);
    }
  }

  /** The node at row r < yn, column m < xn - 1, and its right neighbour
      are nodes of the lattice. */
  lemma LatticePoint(r: nat, m: nat, xn: nat, yn: nat)
    requires r < yn && m < xn - 1
    ensures r * xn + m + 1 < NumberOfNodes(xn, yn)
  {
    MulLe(r + 1, yn, xn);
    assert (r + 1) * xn == r * xn + xn;
  }

  /** After the rounds of all squares, every face holds three nodes and
      every edge two, faces and edges keep everything else, and no face is
      linked to an edge. */
  lemma Triangulated(fs: seq<FaceRec>, es: seq<EdgeRec>, xn: nat, yn: nat)
    requires xn > 1 && yn > 1 && |fs| == NumberOfFaces(xn, yn) && |es| == NumberOfEdges(xn, yn)
    ensures var fa, ea := FacesAfter(fs, xn, Squares(xn, yn)), EdgesAfter(es, xn, yn, Squares(xn, yn));
      (forall f :: 0 <= f < |fs| ==> fa[f] == fs[f].(nodes := FaceNodesAt(xn, f)) && |fa[f].nodes| == 3) &&
      (forall e :: 0 <= e < |es| ==> ea[e] == es[e].(nodes := EdgeNodesAt(xn, yn, e)) && |ea[e].nodes| == 2)
  {
    forall f | 0 <= f < |fs|
      ensures FacesAfter(fs, xn, Squares(xn, yn))[f] == fs[f].(nodes := FaceNodesAt(xn, f))
    {
      FacesAfterAll(fs, xn, yn, f);
    }
    forall e | 0 <= e < |es|
      ensures EdgesAfter(es, xn, yn, Squares(xn, yn))[e] == es[e].(nodes := EdgeNodesAt(xn, yn, e))
    {
      EdgesAfterAll(es, xn, yn, e);
    }
  }

  // ---------------------------------------------------------------------
  // Triangulation on the mesh

  /** The nodes differ at most in their face and edge lists. */
  ghost predicate SameButLinks(a: seq<NodeRec>, b: seq<NodeRec>) {
    |a| == |b| &&
    forall v :: 0 <= v < |a| ==> b[v] == a[v].(faces := b[v].faces, edges := b[v].edges)
  }

  lemma SameButLinksTrans(a: seq<NodeRec>, b: seq<NodeRec>, c: seq<NodeRec>)
    requires SameButLinks(a, b) && SameButLinks(b, c)
    ensures SameButLinks(a, c)
  {
    forall v | 0 <= v < |a| ensures c[v] == a[v].(faces := c[v].faces, edges := c[v].edges) {
      assert b[v] == a[v].(faces := b[v].faces, edges := b[v].edges);
    }
  }

  /** Linking a face to its corners changes only face lists. */
  lemma WithOccSame(ns: seq<NodeRec>, o: seq<nat>, f: nat)
    ensures SameButLinks(ns, WithOcc(ns, o, f))
  {
    var r := WithOcc(ns, o, f);
    forall v | 0 <= v < |ns| ensures r[v] == ns[v].(faces := r[v].faces, edges := r[v].edges) {
      assert r[v] == ns[v].(faces := ns[v].faces + Occ(v, o, f));
    }
  }

  /** Every link is recorded as often on the node's side as on the edge's
      or face's side: node v lists edge e as many times as e lists v, and
      face f as many times as f lists v. */
  ghost predicate Counted(ns: seq<NodeRec>, es: seq<EdgeRec>, fs: seq<FaceRec>) {
    (forall v, e :: 0 <= v < |ns| && 0 <= e < |es| ==> EdgesListed(ns, v, e) == EndsListed(es, e, v)) &&
    (forall v, f :: 0 <= v < |ns| && 0 <= f < |fs| ==> FacesListed(ns, v, f) == CornersListed(fs, f, v))
  }

  /** How often node v lists edge e, and edge e lists node v. */
  ghost function EdgesListed(ns: seq<NodeRec>, v: int, e: nat): nat {
    if 0 <= v < |ns| then multiset(ns[v].edges)[e] else 0
  }

  ghost function EndsListed(es: seq<EdgeRec>, e: int, v: nat): nat {
    if 0 <= e < |es| then multiset(es[e].nodes)[v] else 0
  }

  /** How often node v lists face f, and face f lists node v. */
  ghost function FacesListed(ns: seq<NodeRec>, v: int, f: nat): nat {
    if 0 <= v < |ns| then multiset(ns[v].faces)[f] else 0
  }

  ghost function CornersListed(fs: seq<FaceRec>, f: int, v: nat): nat {
    if 0 <= f < |fs| then multiset(fs[f].nodes)[v] else 0
  }

  /** What triangulation leaves on the nodes: node v lists every edge it is
      an end of exactly once and no other edge, and every face it is a
      corner of exactly once and no other face. */
  ghost predicate NodeLinksExact(ns: seq<NodeRec>, xn: nat, yn: nat)
    requires xn > 1 && yn > 1
  {
    (forall v, e :: 0 <= v < |ns| && 0 <= e < NumberOfEdges(xn, yn) ==>
      multiset(ns[v].edges)[e] == if v in EdgeNodesAt(xn, yn, e) then 1 else 0) &&
    (forall v, f :: 0 <= v < |ns| && 0 <= f < NumberOfFaces(xn, yn) ==>
      multiset(ns[v].faces)[f] == if v in FaceNodesAt(xn, f) then 1 else 0)
  }

  /** In a valid mesh whose faces and edges have no nodes, no node has a
      link, so the counts agree. */
  lemma CountedFresh(ns: seq<NodeRec>, es: seq<EdgeRec>, fs: seq<FaceRec>)
    requires LinkedMesh(ns, es, fs) && FreshFaces(fs) && FreshEdges(es)
    ensures Counted(ns, es, fs)
  {
    forall v, e | 0 <= v < |ns| && 0 <= e < |es|
      ensures EdgesListed(ns, v, e) == EndsListed(es, e, v)
    {
      assert es[e].nodes == [];
      assert e !in ns[v].edges;
    }
    forall v, f | 0 <= v < |ns| && 0 <= f < |fs|
      ensures FacesListed(ns, v, f) == CornersListed(fs, f, v)
    {
      assert fs[f].nodes == [];
      assert f !in ns[v].faces;
    }
  }

  /** link_node_and_edge adds one link on each side. */
  lemma CountedLinkEdge(ns: seq<NodeRec>, es: seq<EdgeRec>, fs: seq<FaceRec>, n: nat, e: nat)
    requires Counted(ns, es, fs) && n < |ns| && e < |es|
    ensures Counted(ns[n := ns[n].(edges := ns[n].edges + [e])], es[e := es[e].(nodes := es[e].nodes + [n])], fs)
  {
    var ns2 := ns[n := ns[n].(edges := ns[n].edges + [e])];
    var es2 := es[e := es[e].(nodes := es[e].nodes + [n])];
    forall v, d | 0 <= v < |ns| && 0 <= d < |es|
      ensures EdgesListed(ns2, v, d) == EndsListed(es2, d, v)
    {
      assert EdgesListed(ns, v, d) == EndsListed(es, d, v);
      if v == n {
        SnocCount(ns[v].edges, e, d);
      }
      if d == e {
        SnocCount(es[d].nodes, n, v);
      }
    }
    forall v, f | 0 <= v < |ns| && 0 <= f < |fs|
      ensures FacesListed(ns2, v, f) == CornersListed(fs, f, v)
    {
      assert FacesListed(ns, v, f) == CornersListed(fs, f, v);
    }
  }

  /** Linking both ends of an edge adds one link on each side per end. */
  lemma CountedSegment(ns: seq<NodeRec>, es: seq<EdgeRec>, fs: seq<FaceRec>, e: nat, a: nat, b: nat,
                       ns1: seq<NodeRec>, es1: seq<EdgeRec>, ns2: seq<NodeRec>, es2: seq<EdgeRec>)
    requires Counted(ns, es, fs) && a < |ns| && b < |ns| && e < |es|
    requires ns1 == ns[a := ns[a].(edges := ns[a].edges + [e])]
    requires es1 == es[e := es[e].(nodes := es[e].nodes + [a])]
    requires ns2 == ns1[b := ns1[b].(edges := ns1[b].edges + [e])]
    requires es2 == es1[e := es1[e].(nodes := es1[e].nodes + [b])]
    ensures Counted(ns2, es2, fs)
  {
    CountedLinkEdge(ns, es, fs, a, e);
    CountedLinkEdge(ns1, es1, fs, b, e);
  }

  lemma SnocCount(s: seq<nat>, x: nat, y: nat)
    ensures multiset(s + [x])[y] == multiset(s)[y] + if x == y then 1 else 0
  {
    assert multiset(s + [x]) == multiset(s) + multiset{x};
  }

  /** A face is listed by node u once for each time u occurs in its
      order. */
  lemma {:induction false} OccCount(u: nat, o: seq<nat>, f: nat, d: nat)
    ensures multiset(Occ(u, o, f))[d] == if d == f then multiset(o)[u] else 0
    decreases |o|
  {
    if o != [] {
      OccCount(u, o[1..], f, d);
      OccHead(u, o, f, d);
      CountHead(o, u);
    }
  }

  lemma OccHead(u: nat, o: seq<nat>, f: nat, d: nat)
    requires o != []
    ensures multiset(Occ(u, o, f))[d] == (if o[0] == u && d == f then 1 else 0) + multiset(Occ(u, o[1..], f))[d]
  {
    var head: seq<nat> := if o[0] == u then [f] else [];
    assert Occ(u, o, f) == head + Occ(u, o[1..], f);
  }

  lemma CountHead(o: seq<nat>, u: nat)
    requires o != []
    ensures multiset(o)[u] == (if o[0] == u then 1 else 0) + multiset(o[1..])[u]
  {
    assert o == [o[0]] + o[1..];
  }

  /** Linking a face without nodes to its corners adds one link on each
      side per corner. */
  lemma CountedLinkTriangle(ns: seq<NodeRec>, es: seq<EdgeRec>, fs: seq<FaceRec>, f: nat, o: seq<nat>)
    requires Counted(ns, es, fs) && f < |fs| && fs[f].nodes == []
    ensures Counted(WithOcc(ns, o, f), es, fs[f := fs[f].(nodes := o)])
  {
    var ns2, fs2 := WithOcc(ns, o, f), fs[f := fs[f].(nodes := o)];
    forall v, d | 0 <= v < |ns| && 0 <= d < |fs|
      ensures FacesListed(ns2, v, d) == CornersListed(fs2, d, v)
    {
      assert FacesListed(ns, v, d) == CornersListed(fs, d, v);
      OccCount(v, o, f, d);
      assert multiset(ns2[v].faces) == multiset(ns[v].faces) + multiset(Occ(v, o, f));
    }
    forall v, e | 0 <= v < |ns| && 0 <= e < |es|
      ensures EdgesListed(ns2, v, e) == EndsListed(es, e, v)
    {
      assert EdgesListed(ns, v, e) == EndsListed(es, e, v);
    }
  }

  /** Linking two faces without nodes, f and f + 1, to their corners. */
  lemma CountedTwoFaces(ns: seq<NodeRec>, es: seq<EdgeRec>, fs: seq<FaceRec>, f: nat, o: seq<nat>, p: seq<nat>,
                        ns1: seq<NodeRec>, fs1: seq<FaceRec>, ns2: seq<NodeRec>, fs2: seq<FaceRec>)
    requires Counted(ns, es, fs) && f + 1 < |fs| && fs[f].nodes == [] && fs[f + 1].nodes == []
    requires ns1 == WithOcc(ns, o, f) && fs1 == fs[f := fs[f].(nodes := o)]
    requires ns2 == WithOcc(ns1, p, f + 1) && fs2 == fs1[f + 1 := fs1[f + 1].(nodes := p)]
    ensures Counted(ns2, es, fs2)
  {
    CountedLinkTriangle(ns, es, fs, f, o);
    CountedLinkTriangle(ns1, es, fs1, f + 1, p);
  }

  /** Two different ends: each is listed once. */
  lemma PairCount(r: seq<nat>, v: nat)
    requires |r| == 2 && r[0] != r[1]
    ensures multiset(r)[v] == if v in r then 1 else 0
  {
    assert r == [r[0]] + [r[1]];
  }

  /** Three different corners: each is listed once. */
  lemma TripleCount(r: seq<nat>, v: nat)
    requires |r| == 3 && r[0] != r[1] && r[1] != r[2] && r[0] != r[2]
    ensures multiset(r)[v] == if v in r then 1 else 0
  {
    assert r == [r[0]] + [r[1]] + [r[2]];
  }

  /** Counted links on the triangulated faces and edges are the exact
      ones. */
  lemma TriangulatedCounts(ns: seq<NodeRec>, e0: seq<EdgeRec>, f0: seq<FaceRec>, xn: nat, yn: nat)
    requires xn > 1 && yn > 1 && |e0| == NumberOfEdges(xn, yn) && |f0| == NumberOfFaces(xn, yn)
    requires Counted(ns, EdgesAfter(e0, xn, yn, Squares(xn, yn)), FacesAfter(f0, xn, Squares(xn, yn)))
    ensures NodeLinksExact(ns, xn, yn)
  {
    forall v, e | 0 <= v < |ns| && 0 <= e < NumberOfEdges(xn, yn)
      ensures multiset(ns[v].edges)[e] == if v in EdgeNodesAt(xn, yn, e) then 1 else 0
    {
      assert EdgesListed(ns, v, e) == EndsListed(EdgesAfter(e0, xn, yn, Squares(xn, yn)), e, v);
      EdgesAfterAll(e0, xn, yn, e);
      EdgeNodesInRange(xn, yn, e);
      PairCount(EdgeNodesAt(xn, yn, e), v);
    }
    forall v, f | 0 <= v < |ns| && 0 <= f < NumberOfFaces(xn, yn)
      ensures multiset(ns[v].faces)[f] == if v in FaceNodesAt(xn, f) then 1 else 0
    {
      assert FacesListed(ns, v, f) == CornersListed(FacesAfter(f0, xn, Squares(xn, yn)), f, v);
      FacesAfterAll(f0, xn, yn, f);
      FaceNodesInRange(xn, yn, f);
      TripleCount(FaceNodesAt(xn, f), v);
    }
  }

  /** No face has nodes yet. */
  ghost predicate FreshFaces(fs: seq<FaceRec>) {
    forall f :: 0 <= f < |fs| ==> fs[f].nodes == []
  }

  /** No edge has nodes yet. */
  ghost predicate FreshEdges(es: seq<EdgeRec>) {
    forall e :: 0 <= e < |es| ==> es[e].nodes == []
  }

  /** The faces and edges the round of square q links are still without
      nodes. */
  ghost predicate RoundFresh(fs: seq<FaceRec>, es: seq<EdgeRec>, xn: nat, yn: nat, q: Square)
    requires IsSquare(xn, yn, q) && |fs| == NumberOfFaces(xn, yn) && |es| == NumberOfEdges(xn, yn)
  {
    fs[2 * q.c].nodes == [] && fs[2 * q.c + 1].nodes == [] &&
    es[q.c].nodes == [] && es[q.el].nodes == [] && es[q.ec].nodes == [] &&
    (q.i == yn - 2 ==> es[q.c + (xn - 1)].nodes == []) &&
    (q.j == xn - 2 ==> es[q.el + 1].nodes == [])
  }

  /** Before the round of square q, everything that round links is still
      as it was created. */
  lemma RoundFreshAt(fs: seq<FaceRec>, es: seq<EdgeRec>, xn: nat, yn: nat, q: Square)
    requires IsSquare(xn, yn, q) && |fs| == NumberOfFaces(xn, yn) && |es| == NumberOfEdges(xn, yn)
    requires FreshFaces(fs) && FreshEdges(es)
    ensures RoundFresh(FacesAfter(fs, xn, q.c), EdgesAfter(es, xn, yn, q.c), xn, yn, q)
  {
    RoundFreshFaces(fs, xn, yn, q);
    RoundFreshEdges(es, xn, yn, q);
  }

  lemma RoundFreshFaces(fs: seq<FaceRec>, xn: nat, yn: nat, q: Square)
    requires IsSquare(xn, yn, q) && |fs| == NumberOfFaces(xn, yn) && FreshFaces(fs)
    ensures FacesAfter(fs, xn, q.c)[2 * q.c].nodes == [] && FacesAfter(fs, xn, q.c)[2 * q.c + 1].nodes == []
  {
    assert (2 * q.c) / 2 == q.c && (2 * q.c + 1) / 2 == q.c;
    FaceNotYet(fs, xn, q.c, 2 * q.c);
    FaceNotYet(fs, xn, q.c, 2 * q.c + 1);
  }

  lemma RoundFreshEdges(es: seq<EdgeRec>, xn: nat, yn: nat, q: Square)
    requires IsSquare(xn, yn, q) && |es| == NumberOfEdges(xn, yn) && FreshEdges(es)
    ensures var a := EdgesAfter(es, xn, yn, q.c);
      a[q.c].nodes == [] && a[q.el].nodes == [] && a[q.ec].nodes == [] &&
      (q.i == yn - 2 ==> a[q.c + (xn - 1)].nodes == []) &&
      (q.j == xn - 2 ==> a[q.el + 1].nodes == [])
  {
    SquareEdgesApart(xn, yn, q);
    SquareUpperEdge(xn, yn, q);
    EdgeNotYet(es, xn, yn, q.c, q.c);
    SquareLeftEdge(xn, yn, q);
    EdgeNotYet(es, xn, yn, q.c, q.el);
    SquareDiagonalEdge(xn, yn, q);
    EdgeNotYet(es, xn, yn, q.c, q.ec);
    if q.i == yn - 2 {
      SquareLowerEdge(xn, yn, q);
      EdgeNotYet(es, xn, yn, q.c, q.c + (xn - 1));
    }
    if q.j == xn - 2 {
      SquareRightEdge(xn, yn, q);
      EdgeNotYet(es, xn, yn, q.c, q.el + 1);
    }
  }

  /** A face of a square not yet visited is as it was. */
  lemma FaceNotYet(fs: seq<FaceRec>, xn: nat, c: nat, f: nat)
    requires xn > 1 && f < |fs| && f / 2 >= c
    ensures FacesAfter(fs, xn, c)[f] == fs[f]
  {
  }

  /** An edge of a round not yet run is as it was. */
  lemma EdgeNotYet(es: seq<EdgeRec>, xn: nat, yn: nat, c: nat, e: nat)
    requires xn > 1 && yn > 1 && e < |es| && EdgeCell(xn, yn, e) >= c
    ensures EdgesAfter(es, xn, yn, c)[e] == es[e]
  {
  }

  /** Two calls of link_node_and_edge that give edge e, still without
      nodes, the nodes a and b in that order. */
  method LinkSegment(g: Mesh, e: nat, a: nat, b: nat)
    requires g.Valid() && e < |g.edges| && a < |g.nodes| && b < |g.nodes| && g.edges[e].nodes == []
    requires Counted(g.nodes, g.edges, g.faces)
    modifies g
    ensures g.Valid() && g.faces == old(g.faces)
    ensures g.edges == SetNodes(old(g.edges), e, [a, b])
    ensures SameButLinks(old(g.nodes), g.nodes)
    ensures Counted(g.nodes, g.edges, g.faces)
  {
    ghost var ns, es := g.nodes, g.edges;
    g.LinkNodeAndEdgeUnchecked(a, e);
    ghost var ns1, es1 := g.nodes, g.edges;
    g.LinkNodeAndEdgeUnchecked(b, e);
    CountedSegment(ns, es, g.faces, e, a, b, ns1, es1, g.nodes, g.edges);
    assert [] + [a] + [b] == [a, b];
    assert g.edges == es[e := es[e].(nodes := [a, b])];
  }

  /** One round of the loop of triangulation: the faces of square q are
      linked to their corners, then its edges to their ends, in the order
      grid/grid.py links them. */
  method TriangulateCell(g: Mesh, xn: nat, yn: nat, q: Square)
    requires IsSquare(xn, yn, q) && g.Valid()
    requires |g.nodes| == NumberOfNodes(xn, yn) && |g.faces| == NumberOfFaces(xn, yn)
    requires |g.edges| == NumberOfEdges(xn, yn)
    requires RoundFresh(g.faces, g.edges, xn, yn, q)
    requires Counted(g.nodes, g.edges, g.faces)
    modifies g
    ensures g.Valid()
    ensures g.faces == CellFaceUpdate(old(g.faces), xn, yn, q)
    ensures g.edges == CellEdgeUpdate(old(g.edges), xn, yn, q)
    ensures SameButLinks(old(g.nodes), g.nodes)
    ensures Counted(g.nodes, g.edges, g.faces)
  {
    LinkCellFaces(g, xn, yn, q);
    LinkCellEdges(g, xn, yn, q);
  }

  /** The faces of square q get their corners. */
  method LinkCellFaces(g: Mesh, xn: nat, yn: nat, q: Square)
    requires IsSquare(xn, yn, q) && g.Valid()
    requires |g.nodes| == NumberOfNodes(xn, yn) && |g.faces| == NumberOfFaces(xn, yn)
    requires g.faces[2 * q.c].nodes == [] && g.faces[2 * q.c + 1].nodes == []
    requires Counted(g.nodes, g.edges, g.faces)
    modifies g
    ensures g.Valid() && g.edges == old(g.edges)
    ensures g.faces == CellFaceUpdate(old(g.faces), xn, yn, q)
    ensures SameButLinks(old(g.nodes), g.nodes)
    ensures Counted(g.nodes, g.edges, g.faces)
  {
    // the upper face gets [nul, ndl, nur], the lower one [ndr, nur, ndl]
    ghost var n0, f0 := g.nodes, g.faces;
    g.LinkTriangle(2 * q.c, [q.nul, q.nul + xn, q.nul + 1]);
    ghost var n1, f1 := g.nodes, g.faces;
    WithOccSame(n0, [q.nul, q.nul + xn, q.nul + 1], 2 * q.c);
    g.LinkTriangle(2 * q.c + 1, [q.nul + xn + 1, q.nul + 1, q.nul + xn]);
    CountedTwoFaces(n0, g.edges, f0, 2 * q.c, [q.nul, q.nul + xn, q.nul + 1],
                    [q.nul + xn + 1, q.nul + 1, q.nul + xn], n1, f1, g.nodes, g.faces);
    WithOccSame(n1, [q.nul + xn + 1, q.nul + 1, q.nul + xn], 2 * q.c + 1);
    SameButLinksTrans(n0, n1, g.nodes);
    CellFaceUpdateIs(f0, xn, yn, q);
  }

  lemma CellFaceUpdateIs(fs: seq<FaceRec>, xn: nat, yn: nat, q: Square)
    requires IsSquare(xn, yn, q) && |fs| == NumberOfFaces(xn, yn)
    ensures CellFaceUpdate(fs, xn, yn, q) == fs[2 * q.c := fs[2 * q.c].(nodes := [q.nul, q.nul + xn, q.nul + 1])]
      [2 * q.c + 1 := fs[2 * q.c + 1].(nodes := [q.nul + xn + 1, q.nul + 1, q.nul + xn])]
  {
  }

  lemma InnerEdgeUpdateIs(es: seq<EdgeRec>, xn: nat, yn: nat, q: Square)
    requires IsSquare(xn, yn, q) && |es| == NumberOfEdges(xn, yn)
    ensures InnerEdgeUpdate(es, xn, yn, q) ==
      SetNodes(SetNodes(SetNodes(es, q.c, [q.nul, q.nul + 1]), q.el, [q.nul, q.nul + xn]), q.ec, [q.nul + 1, q.nul + xn])
  {
  }

  /** The edges of square q get their ends. */
  method LinkCellEdges(g: Mesh, xn: nat, yn: nat, q: Square)
    requires IsSquare(xn, yn, q) && g.Valid()
    requires |g.nodes| == NumberOfNodes(xn, yn) && |g.edges| == NumberOfEdges(xn, yn)
    requires g.edges[q.c].nodes == [] && g.edges[q.el].nodes == [] && g.edges[q.ec].nodes == []
    requires q.i == yn - 2 ==> g.edges[q.c + (xn - 1)].nodes == []
    requires q.j == xn - 2 ==> g.edges[q.el + 1].nodes == []
    requires Counted(g.nodes, g.edges, g.faces)
    modifies g
    ensures g.Valid() && g.faces == old(g.faces)
    ensures g.edges == CellEdgeUpdate(old(g.edges), xn, yn, q)
    ensures SameButLinks(old(g.nodes), g.nodes)
    ensures Counted(g.nodes, g.edges, g.faces)
  {
    ghost var n0, es0 := g.nodes, g.edges;
    SquareEdgesApart(xn, yn, q);
    LinkInnerEdges(g, xn, yn, q);
    InnerEdgeUpdateElsewhere(es0, xn, yn, q, q.c + (xn - 1));
    InnerEdgeUpdateElsewhere(es0, xn, yn, q, q.el + 1);
    ghost var n1, es1 := g.nodes, g.edges;
    LinkLowerEdge(g, xn, yn, q);
    ghost var n2, es2 := g.nodes, g.edges;
    LinkRightEdge(g, xn, yn, q);
    SameButLinksTrans(n0, n1, n2);
    SameButLinksTrans(n0, n2, g.nodes);
    CellEdgeUpdateIs(es0, xn, yn, q, es2);
  }

  /** In the bottom row, the lower edge of square q joins ndl to ndr. */
  method LinkLowerEdge(g: Mesh, xn: nat, yn: nat, q: Square)
    requires IsSquare(xn, yn, q) && g.Valid()
    requires |g.nodes| == NumberOfNodes(xn, yn) && |g.edges| == NumberOfEdges(xn, yn)
    requires q.i == yn - 2 ==> g.edges[q.c + (xn - 1)].nodes == []
    requires Counted(g.nodes, g.edges, g.faces)
    modifies g
    ensures g.Valid() && g.faces == old(g.faces) && |g.nodes| == |old(g.nodes)|
    ensures g.edges == if q.i == yn - 2 then SetNodes(old(g.edges), q.c + (xn - 1), [q.nul + xn, q.nul + xn + 1])
                       else old(g.edges)
    ensures SameButLinks(old(g.nodes), g.nodes)
    ensures Counted(g.nodes, g.edges, g.faces)
  {
    if q.i == yn - 2 {
      LinkSegment(g, q.c + (xn - 1), q.nul + xn, q.nul + xn + 1);
    }
  }

  /** In the right column, the right edge of square q joins nur to ndr. */
  method LinkRightEdge(g: Mesh, xn: nat, yn: nat, q: Square)
    requires IsSquare(xn, yn, q) && g.Valid()
    requires |g.nodes| == NumberOfNodes(xn, yn) && |g.edges| == NumberOfEdges(xn, yn)
    requires q.j == xn - 2 ==> g.edges[q.el + 1].nodes == []
    requires Counted(g.nodes, g.edges, g.faces)
    modifies g
    ensures g.Valid() && g.faces == old(g.faces) && |g.nodes| == |old(g.nodes)|
    ensures g.edges == if q.j == xn - 2 then SetNodes(old(g.edges), q.el + 1, [q.nul + 1, q.nul + xn + 1])
                       else old(g.edges)
    ensures SameButLinks(old(g.nodes), g.nodes)
    ensures Counted(g.nodes, g.edges, g.faces)
  {
    if q.j == xn - 2 {
      LinkSegment(g, q.el + 1, q.nul + 1, q.nul + xn + 1);
    }
  }

  /** The end state of a round, step by step. */
  lemma CellEdgeUpdateIs(es: seq<EdgeRec>, xn: nat, yn: nat, q: Square, es2: seq<EdgeRec>)
    requires IsSquare(xn, yn, q) && |es| == NumberOfEdges(xn, yn)
    requires es2 == if q.i == yn - 2 then SetNodes(InnerEdgeUpdate(es, xn, yn, q), q.c + (xn - 1), [q.nul + xn, q.nul + xn + 1])
                    else InnerEdgeUpdate(es, xn, yn, q)
    ensures CellEdgeUpdate(es, xn, yn, q) == if q.j == xn - 2 then SetNodes(es2, q.el + 1, [q.nul + 1, q.nul + xn + 1]) else es2
  {
  }

  /** The edges of square q are five different edges. */
  lemma SquareEdgesApart(xn: nat, yn: nat, q: Square)
    requires IsSquare(xn, yn, q)
    ensures q.c < q.c + (xn - 1) < q.el < q.el + 1 < q.ec < NumberOfEdges(xn, yn)
  {
  }

  /** The round's inner edges leave every other edge as it was. */
  lemma InnerEdgeUpdateElsewhere(es: seq<EdgeRec>, xn: nat, yn: nat, q: Square, e: nat)
    requires IsSquare(xn, yn, q) && |es| == NumberOfEdges(xn, yn)
    requires e < |es| && e != q.c && e != q.el && e != q.ec
    ensures InnerEdgeUpdate(es, xn, yn, q)[e] == es[e]
  {
  }

  method LinkInnerEdges(g: Mesh, xn: nat, yn: nat, q: Square)
    requires IsSquare(xn, yn, q) && g.Valid()
    requires |g.nodes| == NumberOfNodes(xn, yn) && |g.edges| == NumberOfEdges(xn, yn)
    requires g.edges[q.c].nodes == [] && g.edges[q.el].nodes == [] && g.edges[q.ec].nodes == []
    requires Counted(g.nodes, g.edges, g.faces)
    modifies g
    ensures g.Valid() && g.faces == old(g.faces)
    ensures g.edges == InnerEdgeUpdate(old(g.edges), xn, yn, q)
    ensures SameButLinks(old(g.nodes), g.nodes)
    ensures Counted(g.nodes, g.edges, g.faces)
  {
    // the upper edge joins nul to nur, the left edge nul to ndl and the
    // diagonal nur to ndl
    ghost var n0, es0 := g.nodes, g.edges;
    LinkSegment(g, q.c, q.nul, q.nul + 1);
    ghost var n1 := g.nodes;
    LinkSegment(g, q.el, q.nul, q.nul + xn);
    ghost var n2 := g.nodes;
    LinkSegment(g, q.ec, q.nul + 1, q.nul + xn);
    SameButLinksTrans(n0, n1, n2);
    SameButLinksTrans(n0, n2, g.nodes);
    InnerEdgeUpdateIs(es0, xn, yn, q);
  }

  lemma NextRow(i: int, s: int)
    ensures (i + 1) * s == i * s + s
  {
  }

  lemma LastRow(i: int, s: int, t: int)
    requires i == t
    ensures i * s == s * t
  {
  }

  /** Before the first round nothing is linked. */
  lemma NoneAfterZero(fs: seq<FaceRec>, es: seq<EdgeRec>, xn: nat, yn: nat)
    requires xn > 1 && yn > 1 && |es| == NumberOfEdges(xn, yn)
    ensures FacesAfter(fs, xn, 0) == fs && EdgesAfter(es, xn, yn, 0) == es
  {
    forall e | 0 <= e < |es|
      ensures EdgesAfter(es, xn, yn, 0)[e] == es[e]
    {
      EdgeCellInRange(xn, yn, e);
    }
  }

  /** triangulation: every square of the lattice, row by row, is cut into
      two triangles and its edges get their ends. The mesh must have the
      counted numbers of elements, none of them linked yet. */
  method Triangulation(g: Mesh, xn: nat, yn: nat)
    requires xn > 1 && yn > 1 && g.Valid()
    requires |g.nodes| == NumberOfNodes(xn, yn) && |g.faces| == NumberOfFaces(xn, yn)
    requires |g.edges| == NumberOfEdges(xn, yn)
    requires FreshFaces(g.faces) && FreshEdges(g.edges)
    modifies g
    ensures g.Valid()
    ensures g.faces == FacesAfter(old(g.faces), xn, Squares(xn, yn))
    ensures g.edges == EdgesAfter(old(g.edges), xn, yn, Squares(xn, yn))
    ensures SameButLinks(old(g.nodes), g.nodes)
    ensures NodeLinksExact(g.nodes, xn, yn)
  {
    ghost var f0, e0 := g.faces, g.edges;
    NoneAfterZero(f0, e0, xn, yn);
    CountedFresh(g.nodes, g.edges, g.faces);
    var i := 0;
    ghost var c := 0;
    while i < yn - 1
      invariant 0 <= i <= yn - 1 && g.Valid() && c == i * (xn - 1)
      invariant |g.nodes| == NumberOfNodes(xn, yn)
      invariant g.faces == FacesAfter(f0, xn, c)
      invariant g.edges == EdgesAfter(e0, xn, yn, c)
      invariant SameButLinks(old(g.nodes), g.nodes)
      invariant Counted(g.nodes, g.edges, g.faces)
    {
      TriangulateRow(g, xn, yn, i, c, f0, e0);
      NextRow(i, xn - 1);
      c := c + (xn - 1);
      i := i + 1;
    }
    LastRow(i, xn - 1, yn - 1);
    TriangulatedCounts(g.nodes, e0, f0, xn, yn);
  }

  /** The rounds of the squares of row i, the first of them cell c. */
  method TriangulateRow(g: Mesh, xn: nat, yn: nat, i: nat, ghost c: nat,
                        ghost f0: seq<FaceRec>, ghost e0: seq<EdgeRec>)
    requires xn > 1 && yn > 1 && i < yn - 1 && c == i * (xn - 1) && g.Valid()
    requires |g.nodes| == NumberOfNodes(xn, yn) && |f0| == NumberOfFaces(xn, yn)
    requires |e0| == NumberOfEdges(xn, yn)
    requires FreshFaces(f0) && FreshEdges(e0)
    requires g.faces == FacesAfter(f0, xn, c)
    requires g.edges == EdgesAfter(e0, xn, yn, c)
    requires Counted(g.nodes, g.edges, g.faces)
    modifies g
    ensures g.Valid() && |g.nodes| == NumberOfNodes(xn, yn)
    ensures g.faces == FacesAfter(f0, xn, c + (xn - 1))
    ensures g.edges == EdgesAfter(e0, xn, yn, c + (xn - 1))
    ensures SameButLinks(old(g.nodes), g.nodes)
    ensures Counted(g.nodes, g.edges, g.faces)
  {
    var j := 0;
    while j < xn - 1
      invariant 0 <= j <= xn - 1 && g.Valid()
      invariant |g.nodes| == NumberOfNodes(xn, yn)
      invariant g.faces == FacesAfter(f0, xn, c + j)
      invariant g.edges == EdgesAfter(e0, xn, yn, c + j)
      invariant SameButLinks(old(g.nodes), g.nodes)
      invariant Counted(g.nodes, g.edges, g.faces)
    {
      ghost var n0 := g.nodes;
      TriangulateSquare(g, xn, yn, i, j, c + j, f0, e0);
      SameButLinksTrans(old(g.nodes), n0, g.nodes);
      j := j + 1;
    }
  }

  /** The round of square (i, j), cell number cj. */
  method TriangulateSquare(g: Mesh, xn: nat, yn: nat, i: nat, j: nat, ghost cj: nat,
                           ghost f0: seq<FaceRec>, ghost e0: seq<EdgeRec>)
    requires xn > 1 && yn > 1 && i < yn - 1 && j < xn - 1 && cj == i * (xn - 1) + j && g.Valid()
    requires |g.nodes| == NumberOfNodes(xn, yn) && |f0| == NumberOfFaces(xn, yn)
    requires |e0| == NumberOfEdges(xn, yn)
    requires FreshFaces(f0) && FreshEdges(e0)
    requires g.faces == FacesAfter(f0, xn, cj)
    requires g.edges == EdgesAfter(e0, xn, yn, cj)
    requires Counted(g.nodes, g.edges, g.faces)
    modifies g
    ensures g.Valid() && |g.nodes| == NumberOfNodes(xn, yn)
    ensures g.faces == FacesAfter(f0, xn, cj + 1)
    ensures g.edges == EdgesAfter(e0, xn, yn, cj + 1)
    ensures SameButLinks(old(g.nodes), g.nodes)
    ensures Counted(g.nodes, g.edges, g.faces)
  {
    var q := SquareAt(xn, yn, i, j);
    assert q.c == cj && q.c + 1 == cj + 1 && IsSquare(xn, yn, q);
    RoundFreshAt(f0, e0, xn, yn, q);
    FacesStep(f0, xn, yn, q);
    EdgesStep(e0, xn, yn, q);
    TriangulateCell(g, xn, yn, q);
  }

  // ---------------------------------------------------------------------
  // Construction by init

  /** Node(), Edge() and Face() as init_element_arrays creates them; a
      coordinate the source leaves as None is 0.0 here. */
  function BlankNodes(n: nat): (r: seq<NodeRec>)
    ensures |r| == n && forall v :: 0 <= v < n ==> r[v] == NewNode(Zero, None)
  {
    seq(n, _ => NewNode(Zero, None))
  }

  function BlankEdges(n: nat): (r: seq<EdgeRec>)
    ensures |r| == n && forall e :: 0 <= e < n ==> r[e] == NewEdge()
  {
    seq(n, _ => NewEdge())
  }

  function BlankFaces(n: nat): (r: seq<FaceRec>)
    ensures |r| == n && forall f :: 0 <= f < n ==> r[f] == NewFace(None)
  {
    seq(n, _ => NewFace(None))
  }

  /** init_element_arrays: appends nn nodes, ne edges and nf faces, all
      unlinked and without Ids. */
  method InitElementArrays(g: Mesh, nn: nat, ne: nat, nf: nat)
    requires g.Valid()
    modifies g
    ensures g.Valid()
    ensures g.nodes == old(g.nodes) + BlankNodes(nn)
    ensures g.edges == old(g.edges) + BlankEdges(ne)
    ensures g.faces == old(g.faces) + BlankFaces(nf)
  {
    var k := 0;
    while k < nn
      invariant k <= nn && g.Valid() && g.edges == old(g.edges) && g.faces == old(g.faces)
      invariant g.nodes == old(g.nodes) + BlankNodes(k)
    {
      AppendNodeKeepsLinked(g.nodes, g.edges, g.faces, NewNode(Zero, None));
      assert BlankNodes(k + 1) == BlankNodes(k) + [NewNode(Zero, None)];
      g.nodes := g.nodes + [NewNode(Zero, None)];
      k := k + 1;
    }
    k := 0;
    while k < ne
      invariant k <= ne && g.Valid() && g.nodes == old(g.nodes) + BlankNodes(nn) && g.faces == old(g.faces)
      invariant g.edges == old(g.edges) + BlankEdges(k)
    {
      AppendEdgeKeepsLinked(g.nodes, g.edges, g.faces, NewEdge());
      assert BlankEdges(k + 1) == BlankEdges(k) + [NewEdge()];
      g.edges := g.edges + [NewEdge()];
      k := k + 1;
    }
    k := 0;
    while k < nf
      invariant k <= nf && g.Valid() && g.nodes == old(g.nodes) + BlankNodes(nn)
      invariant g.edges == old(g.edges) + BlankEdges(ne)
      invariant g.faces == old(g.faces) + BlankFaces(k)
    {
      AppendFaceKeepsLinked(g.nodes, g.edges, g.faces, NewFace(None));
      assert BlankFaces(k + 1) == BlankFaces(k) + [NewFace(None)];
      g.faces := g.faces + [NewFace(None)];
      k := k + 1;
    }
  }

  /** The records with the first k of them numbered by position. */
  function NodeIdsUpTo(ns: seq<NodeRec>, k: nat): (r: seq<NodeRec>)
    ensures |r| == |ns|
  {
    seq(|ns|, v requires 0 <= v < |ns| => if v < k then ns[v].(id := Some(v)) else ns[v])
  }

  function EdgeIdsUpTo(es: seq<EdgeRec>, k: nat): (r: seq<EdgeRec>)
    ensures |r| == |es|
  {
    seq(|es|, e requires 0 <= e < |es| => if e < k then es[e].(id := Some(e)) else es[e])
  }

  function FaceIdsUpTo(fs: seq<FaceRec>, k: nat): (r: seq<FaceRec>)
    ensures |r| == |fs|
  {
    seq(|fs|, f requires 0 <= f < |fs| => if f < k then fs[f].(id := Some(f)) else fs[f])
  }

  /** Numbering all records gives each the Id of its position and changes
      nothing else; numbering none changes nothing. */
  lemma IdsUpToMeaning(ns: seq<NodeRec>, es: seq<EdgeRec>, fs: seq<FaceRec>)
    ensures NodeIdsUpTo(ns, 0) == ns && EdgeIdsUpTo(es, 0) == es && FaceIdsUpTo(fs, 0) == fs
    ensures forall v :: 0 <= v < |ns| ==> NodeIdsUpTo(ns, |ns|)[v] == ns[v].(id := Some(v))
    ensures forall e :: 0 <= e < |es| ==> EdgeIdsUpTo(es, |es|)[e] == es[e].(id := Some(e))
    ensures forall f :: 0 <= f < |fs| ==> FaceIdsUpTo(fs, |fs|)[f] == fs[f].(id := Some(f))
  {
  }

  /** init_ids: every node, edge and face gets its position as Id. */
  method InitIds(g: Mesh)
    requires g.Valid()
    modifies g
    ensures g.Valid()
    ensures g.nodes == NodeIdsUpTo(old(g.nodes), |g.nodes|)
    ensures g.edges == EdgeIdsUpTo(old(g.edges), |g.edges|)
    ensures g.faces == FaceIdsUpTo(old(g.faces), |g.faces|)
  {
    InitNodeIds(g);
    InitEdgeIds(g);
    InitFaceIds(g);
  }

  method InitNodeIds(g: Mesh)
    requires g.Valid()
    modifies g
    ensures g.Valid() && g.edges == old(g.edges) && g.faces == old(g.faces)
    ensures g.nodes == NodeIdsUpTo(old(g.nodes), |g.nodes|)
  {
    ghost var ns := g.nodes;
    var k := 0;
    while k < |g.nodes|
      invariant k <= |g.nodes| && g.Valid() && g.edges == old(g.edges) && g.faces == old(g.faces)
      invariant g.nodes == NodeIdsUpTo(ns, k)
    {
      UpdateNodeKeepsLinked(g.nodes, g.edges, g.faces, k, g.nodes[k].(id := Some(k)));
      g.nodes := g.nodes[k := g.nodes[k].(id := Some(k))];
      k := k + 1;
    }
  }

  method InitEdgeIds(g: Mesh)
    requires g.Valid()
    modifies g
    ensures g.Valid() && g.nodes == old(g.nodes) && g.faces == old(g.faces)
    ensures g.edges == EdgeIdsUpTo(old(g.edges), |g.edges|)
  {
    ghost var es := g.edges;
    var k := 0;
    while k < |g.edges|
      invariant k <= |g.edges| && g.Valid() && g.nodes == old(g.nodes) && g.faces == old(g.faces)
      invariant g.edges == EdgeIdsUpTo(es, k)
    {
      UpdateEdgeKeepsLinked(g.nodes, g.edges, g.faces, k, g.edges[k].(id := Some(k)));
      g.edges := g.edges[k := g.edges[k].(id := Some(k))];
      k := k + 1;
    }
  }

  method InitFaceIds(g: Mesh)
    requires g.Valid()
    modifies g
    ensures g.Valid() && g.nodes == old(g.nodes) && g.edges == old(g.edges)
    ensures g.faces == FaceIdsUpTo(old(g.faces), |g.faces|)
  {
    ghost var fs := g.faces;
    var k := 0;
    while k < |g.faces|
      invariant k <= |g.faces| && g.Valid() && g.nodes == old(g.nodes) && g.edges == old(g.edges)
      invariant g.faces == FaceIdsUpTo(fs, k)
    {
      UpdateFaceKeepsLinked(g.nodes, g.edges, g.faces, k, g.faces[k].(id := Some(k)));
      g.faces := g.faces[k := g.faces[k].(id := Some(k))];
      k := k + 1;
    }
  }

  /** The coordinate of lattice line k along an axis from a.0 with n
      points: a.0 + k * |a.0 - a.1| / (n - 1). */
  function AxisPoint(n: nat, a: (real, real), k: nat): real
    requires n > 1
  {
    a.0 + (k as real) * (Abs(a.0 - a.1) / ((n - 1) as real))
  }

  /** Node v with the x and y init_coordinates gives it: column v % xn,
      row v / xn. */
  function Placed(n: NodeRec, v: nat, xn: nat, yn: nat, x: (real, real), y: (real, real)): (r: NodeRec)
    requires xn > 1 && yn > 1
  {
    n.(pos := n.pos.(x := AxisPoint(xn, x, v % xn), y := AxisPoint(yn, y, v / xn)))
  }

  /** The nodes with the first k of them placed. */
  function PlacedUpTo(ns: seq<NodeRec>, xn: nat, yn: nat, x: (real, real), y: (real, real), k: nat): (r: seq<NodeRec>)
    requires xn > 1 && yn > 1
    ensures |r| == |ns|
  {
    seq(|ns|, v requires 0 <= v < |ns| => if v < k then Placed(ns[v], v, xn, yn, x, y) else ns[v])
  }

  /** Along an axis with a.0 < a.1 the first line lies on a.0 and the
      last on a.1. */
  lemma AxisEnds(n: nat, a: (real, real))
    requires n > 1 && a.0 < a.1
    ensures AxisPoint(n, a, 0) == a.0 && AxisPoint(n, a, n - 1) == a.1
  {
    var d := (a.1 - a.0) / ((n - 1) as real);
    assert Abs(a.0 - a.1) == a.1 - a.0;
    assert ((n - 1) as real) * d == a.1 - a.0;
  }

  /** The lines come in increasing order along the axis. */
  lemma AxisIncreasing(n: nat, a: (real, real), k: nat, l: nat)
    requires n > 1 && a.0 < a.1 && k < l
    ensures AxisPoint(n, a, k) < AxisPoint(n, a, l)
  {
    var d := Abs(a.0 - a.1) / ((n - 1) as real);
    assert d > 0.0;
    assert (l as real) * d - (k as real) * d == ((l - k) as real) * d;
    PositiveProduct((l - k) as real, d);
  }

  /** Every line of the lattice lies within [a.0, a.1]. */
  lemma AxisInside(n: nat, a: (real, real), k: nat)
    requires n > 1 && a.0 < a.1 && k <= n - 1
    ensures a.0 <= AxisPoint(n, a, k) <= a.1
  {
    AxisEnds(n, a);
    if 0 < k {
      AxisIncreasing(n, a, 0, k);
    }
    if k < n - 1 {
      AxisIncreasing(n, a, k, n - 1);
    }
  }

  lemma PositiveProduct(a: real, b: real)
    requires a > 0.0 && b > 0.0
    ensures a * b > 0.0
  {
  }

  /** init_coordinates: node j * xn + i goes to (x1 + i * size_x,
      y1 + j * size_y), row by row; z and everything else stay. */
  method InitCoordinates(g: Mesh, xn: nat, yn: nat, x: (real, real), y: (real, real))
    requires xn > 1 && yn > 1 && g.Valid() && |g.nodes| == NumberOfNodes(xn, yn)
    modifies g
    ensures g.Valid() && g.edges == old(g.edges) && g.faces == old(g.faces)
    ensures g.nodes == PlacedUpTo(old(g.nodes), xn, yn, x, y, xn * yn)
  {
    ghost var ns := g.nodes;
    var j := 0;
    while j < yn
      invariant j <= yn && g.Valid() && g.edges == old(g.edges) && g.faces == old(g.faces)
      invariant g.nodes == PlacedUpTo(ns, xn, yn, x, y, j * xn)
    {
      PlaceRow(g, xn, yn, x, y, j, ns);
      NextRow(j, xn);
      j := j + 1;
    }
    LastRow(j, xn, yn);
  }

  /** The inner loop of init_coordinates: the nodes of row j. */
  method PlaceRow(g: Mesh, xn: nat, yn: nat, x: (real, real), y: (real, real), j: nat, ghost ns: seq<NodeRec>)
    requires xn > 1 && yn > 1 && j < yn && g.Valid() && |ns| == NumberOfNodes(xn, yn)
    requires g.nodes == PlacedUpTo(ns, xn, yn, x, y, j * xn)
    modifies g
    ensures g.Valid() && g.edges == old(g.edges) && g.faces == old(g.faces)
    ensures g.nodes == PlacedUpTo(ns, xn, yn, x, y, j * xn + xn)
  {
    var i := 0;
    while i < xn
      invariant i <= xn && g.Valid() && g.edges == old(g.edges) && g.faces == old(g.faces)
      invariant g.nodes == PlacedUpTo(ns, xn, yn, x, y, j * xn + i)
    {
      PlaceNode(g, xn, yn, x, y, j, i, ns);
      i := i + 1;
    }
  }

  /** One round of the inner loop of init_coordinates: node j * xn + i. */
  method PlaceNode(g: Mesh, xn: nat, yn: nat, x: (real, real), y: (real, real), j: nat, i: nat,
                   ghost ns: seq<NodeRec>)
    requires xn > 1 && yn > 1 && j < yn && i < xn && g.Valid() && |ns| == NumberOfNodes(xn, yn)
    requires g.nodes == PlacedUpTo(ns, xn, yn, x, y, j * xn + i)
    modifies g
    ensures g.Valid() && g.edges == old(g.edges) && g.faces == old(g.faces)
    ensures g.nodes == PlacedUpTo(ns, xn, yn, x, y, j * xn + i + 1)
  {
    var v := j * xn + i;
    LatticeNode(j, i, xn, yn);
    PlacedStep(ns, xn, yn, x, y, v);
    var sizeX := Abs(x.0 - x.1) / ((xn - 1) as real);
    var sizeY := Abs(y.0 - y.1) / ((yn - 1) as real);
    var n := g.nodes[v];
    var moved := n.(pos := n.pos.(x := x.0 + (i as real) * sizeX, y := y.0 + (j as real) * sizeY));
    assert moved == Placed(ns[v], v, xn, yn, x, y);
    UpdateNodeKeepsLinked(g.nodes, g.edges, g.faces, v, moved);
    g.nodes := g.nodes[v := moved];
  }

  lemma PlacedStep(ns: seq<NodeRec>, xn: nat, yn: nat, x: (real, real), y: (real, real), k: nat)
    requires xn > 1 && yn > 1 && k < |ns|
    ensures PlacedUpTo(ns, xn, yn, x, y, k)[k] == ns[k]
    ensures PlacedUpTo(ns, xn, yn, x, y, k + 1) ==
      PlacedUpTo(ns, xn, yn, x, y, k)[k := Placed(ns[k], k, xn, yn, x, y)]
  {
  }

  /** Node j * xn + i of the lattice is in row j and column i. */
  lemma LatticeNode(j: nat, i: nat, xn: nat, yn: nat)
    requires j < yn && i < xn
    ensures j * xn + i < xn * yn && (j * xn + i) / xn == j && (j * xn + i) % xn == i
  {
    DivModOf(j, i, xn);
    MulLe(j + 1, yn, xn);
    assert (j + 1) * xn == j * xn + xn;
  }

  /** The nodes init leaves before triangulation: node v at column v % xn
      and row v / xn of the lattice, with z = 0.0 and Id v. */
  function InitialNodes(xn: nat, yn: nat, x: (real, real), y: (real, real)): (r: seq<NodeRec>)
    requires xn > 1 && yn > 1
    ensures |r| == NumberOfNodes(xn, yn)
  {
    seq(xn * yn, v requires 0 <= v < xn * yn => NewNode(Vec(AxisPoint(xn, x, v % xn), AxisPoint(yn, y, v / xn), 0.0), Some(v)))
  }

  /** The edges and faces init leaves before triangulation: edge or face i
      with Id i, nothing linked. */
  function InitialEdges(n: nat): (r: seq<EdgeRec>)
    ensures |r| == n
  {
    seq(n, e => NewEdge().(id := Some(e)))
  }

  function InitialFaces(n: nat): (r: seq<FaceRec>)
    ensures |r| == n
  {
    seq(n, f => NewFace(Some(f)))
  }

  /** Placing and numbering the blank nodes gives the initial ones. */
  lemma InitialNodesBuilt(xn: nat, yn: nat, x: (real, real), y: (real, real))
    requires xn > 1 && yn > 1
    ensures var nn := NumberOfNodes(xn, yn);
      NodeIdsUpTo(PlacedUpTo(BlankNodes(nn), xn, yn, x, y, nn), nn) == InitialNodes(xn, yn, x, y)
  {
    var nn := NumberOfNodes(xn, yn);
    var a := NodeIdsUpTo(PlacedUpTo(BlankNodes(nn), xn, yn, x, y, nn), nn);
    var b := InitialNodes(xn, yn, x, y);
    forall v | 0 <= v < nn
      ensures a[v] == b[v]
    {
    }
  }

  /** Numbering the blank edges and faces gives the initial ones. */
  lemma InitialEdgesFacesBuilt(ne: nat, nf: nat)
    ensures EdgeIdsUpTo(BlankEdges(ne), ne) == InitialEdges(ne)
    ensures FaceIdsUpTo(BlankFaces(nf), nf) == InitialFaces(nf)
  {
  }

  /** The four corner nodes of the initial grid lie on the corners of the
      rectangle, and every node lies inside it. */
  lemma InitialCorners(xn: nat, yn: nat, x: (real, real), y: (real, real))
    requires xn > 1 && yn > 1 && x.0 < x.1 && y.0 < y.1
    ensures var ns := InitialNodes(xn, yn, x, y);
      ns[0].pos == Vec(x.0, y.0, 0.0) && ns[xn - 1].pos == Vec(x.1, y.0, 0.0) &&
      ns[(yn - 1) * xn].pos == Vec(x.0, y.1, 0.0) && ns[xn * yn - 1].pos == Vec(x.1, y.1, 0.0)
    ensures var ns := InitialNodes(xn, yn, x, y);
      forall v :: 0 <= v < |ns| ==> x.0 <= ns[v].pos.x <= x.1 && y.0 <= ns[v].pos.y <= y.1
  {
    AxisEnds(xn, x);
    AxisEnds(yn, y);
    LatticeNode(0, xn - 1, xn, yn);
    LatticeNode(yn - 1, 0, xn, yn);
    LatticeNode(yn - 1, xn - 1, xn, yn);
    assert (yn - 1) * xn + xn - 1 == xn * yn - 1;
    var ns := InitialNodes(xn, yn, x, y);
    forall v | 0 <= v < |ns|
      ensures x.0 <= ns[v].pos.x <= x.1 && y.0 <= ns[v].pos.y <= y.1
    {
      RowBelow(v, xn, yn);
      AxisInside(xn, x, v % xn);
      AxisInside(yn, y, v / xn);
    }
  }

  lemma CountsPositive(xn: int, yn: int)
    requires xn > 1 && yn > 1
    ensures 0 < (xn - 1) * (yn - 1) && 0 < NumberOfNodes(xn, yn)
    ensures 0 < NumberOfEdges(xn, yn) && 0 < NumberOfFaces(xn, yn)
  {
    PositiveInts(xn - 1, yn - 1);
    PositiveInts(xn, yn);
    PositiveInts(xn - 1, yn);
    PositiveInts(xn, yn - 1);
    PositiveInts(2 * (xn - 1), yn - 1);
  }

  lemma PositiveInts(a: int, b: int)
    requires a > 0 && b > 0
    ensures a * b > 0
  {
    MulLe(1, a, b);
  }

  /** The grid init builds: the initial records, every face and edge
      linked as triangulation links them, and every node listing each of
      its edges and faces exactly once. */
  ghost predicate InitialGrid(ns: seq<NodeRec>, es: seq<EdgeRec>, fs: seq<FaceRec>,
                              xn: int, yn: int, x: (real, real), y: (real, real)) {
    xn > 1 && yn > 1 &&
    (CountsPositive(xn, yn);
     SameButLinks(InitialNodes(xn, yn, x, y), ns) && NodeLinksExact(ns, xn, yn) &&
     es == EdgesAfter(InitialEdges(NumberOfEdges(xn, yn)), xn, yn, Squares(xn, yn)) &&
     fs == FacesAfter(InitialFaces(NumberOfFaces(xn, yn)), xn, Squares(xn, yn)))
  }

  /** init: checks xn > 1, yn > 1, x1 < x2 and y1 < y2 (a failed check is an
      AssertionError before anything changes), then creates the counted
      elements, places the nodes, numbers everything and triangulates.
      The zone init_zone records is not part of this model. */
  method Init(g: Mesh, xn: int, yn: int, x: (real, real), y: (real, real)) returns (ok: bool)
    requires g.Valid() && g.nodes == [] && g.edges == [] && g.faces == []
    modifies g
    ensures g.Valid()
    ensures ok <==> xn > 1 && yn > 1 && x.0 < x.1 && y.0 < y.1
    ensures !ok ==> g.nodes == [] && g.edges == [] && g.faces == []
    ensures ok ==> InitialGrid(g.nodes, g.edges, g.faces, xn, yn, x, y)
  {
    if !(xn > 1 && yn > 1 && x.0 < x.1 && y.0 < y.1) {
      return false;
    }
    Build(g, xn, yn, x, y);
    return true;
  }

  /** The steps of init after its checks. */
  method Build(g: Mesh, xn: nat, yn: nat, x: (real, real), y: (real, real))
    requires xn > 1 && yn > 1
    requires g.Valid() && g.nodes == [] && g.edges == [] && g.faces == []
    modifies g
    ensures g.Valid() && InitialGrid(g.nodes, g.edges, g.faces, xn, yn, x, y)
  {
    InitRecords(g, xn, yn, x, y);
    Triangulation(g, xn, yn);
  }

  /** init_element_arrays, init_coordinates and init_ids in turn. */
  method InitRecords(g: Mesh, xn: nat, yn: nat, x: (real, real), y: (real, real))
    requires xn > 1 && yn > 1
    requires g.Valid() && g.nodes == [] && g.edges == [] && g.faces == []
    modifies g
    ensures g.Valid() && g.nodes == InitialNodes(xn, yn, x, y)
    ensures |g.edges| == NumberOfEdges(xn, yn) && g.edges == InitialEdges(|g.edges|)
    ensures |g.faces| == NumberOfFaces(xn, yn) && g.faces == InitialFaces(|g.faces|)
  {
    CountsPositive(xn, yn);
    var nn, ne, nf := NumberOfNodes(xn, yn), NumberOfEdges(xn, yn), NumberOfFaces(xn, yn);
    InitElementArrays(g, nn, ne, nf);
    assert g.nodes == BlankNodes(nn) && g.edges == BlankEdges(ne) && g.faces == BlankFaces(nf) by {
      assert [] + BlankNodes(nn) == BlankNodes(nn);
      assert [] + BlankEdges(ne) == BlankEdges(ne);
      assert [] + BlankFaces(nf) == BlankFaces(nf);
    }
    InitCoordinates(g, xn, yn, x, y);
    InitIds(g);
    InitialNodesBuilt(xn, yn, x, y);
    InitialEdgesFacesBuilt(ne, nf);
  }
}
