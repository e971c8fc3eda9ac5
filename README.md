# Triangular surface meshes: linking, merging, transfer and smoothing

This project is a Dafny model of the computational core of
grid-to-grid-interpolation. That Python code reads triangular surface meshes
from Tecplot and OBJ files, or builds them as structured grids and generated
surfaces. It merges the zones of a file into one grid and links nodes, edges
and faces to one another. It transfers the T (temperature) and Hw (water film
height) fields from an old grid to a new one through nearest-neighbour
queries, and smooths a mesh with Laplacian, Taubin and null-space smoothers.

The model is organised in modules, one per file:

- `Geom` (geom.dfy): the vector helpers of geom/basics.py and geom/basic.py:12-30.
- `Records` (records.dfy): nodes, edges and faces as value records, with
  `Node.move`, `Face.centroid`, `adjacent_faces` and the loop-that-stops-at-an-exception
  pattern (`MapOrStop`).
- `MeshSpec` (meshspec.dfy): the mesh invariant `LinkedMesh` and the
  specification functions that the methods of `Meshes.Mesh` are proved against.
- `Meshes` (mesh.dfy): class `Mesh`, an arena of node, edge and face records
  referring to one another by index. Its `link_*` operations come in two
  variants, checked (triangular_grid/ and _grid/) and unchecked (grid/grid.py).
  The class also holds relocation of field values, the aux nodes,
  `set_nodes_and_faces`, the isomorphism test and connected components.
- `Avl` (avl.dfy): the AVL tree keyed by node coordinates. It has pure
  `InsertInto`/`FindIn`/rotations/`Rebalance`, and class `AVLTree` with its
  counter `n`.
- `Structured` (structured.dfy): the structured rectangular grid of
  grid/grid.py. It covers the element counts and Euler's relations, the
  `init_*` steps and `triangulation`, which is proved to give every face and
  edge the nodes a closed-form index formula names, and every node each of
  its edges and faces exactly once.
- `Transfer` (transfer.dfy): `interpolate_`, `interpolate` and
  `face_centered_interpolation`, with the KD-tree query taken as "first index
  of the minimum squared distance".
- `Smoothing` (smoothing.dfy): border marking, the fixation policies,
  border-edge projection, and the Laplacian/Taubin in-place (Gauss–Seidel)
  sweeps. The null-space smoother collects every displacement first and then
  applies them (Jacobi order); smoothing.py's own variant moves nodes in place.
  The algorithms/smoothing.py smoothers take a `MoveRule`: `AsWritten` is its
  `move_node` as written (see Findings), `Intended` the corrected rule, which
  is also the one smoothing.py's classes follow.
- `Text` (text.dfy): the Python string built-ins the readers rely on:
  `split`, `join`, `find`, `count`, `strip`, `int()` and `str()`.
- `Readers` (readers.dfy): the line parsing of the three Tecplot readers and
  of the OBJ face reader. Each zone comes out as a `Zone` of node and face
  records, or as the Python exception the reader raises.
- `Assembly` (assembly.dfy): merging the zones' nodes (`set_nodes`,
  `add_nodes_to_grid`, `make_avl`, the two `compose_node_list_*`), the
  `set_faces` routines that derive edges from the connectivity, and the
  reader and generator drivers.

Python exceptions are modelled as values: `Option`/`Result`, a `bool`
success flag, or the `PyError` kinds. A loop that raises part-way ends the
operation. Python's `None` for an unset field is a missing key in the
record's field map, never 0.0. Coordinates and field values are `real`.

## Model

| member | source | states |
|---|---|---|
| Geom.EdgeVector | geom/basics.py:9-15 | the vector from an edge's first node to its second |
| Geom.EdgeVectorSwap | geom/basic.py:12-18 | swapping the two nodes negates edge_to_vector |
| Geom.DotSymmetric | geom/basics.py:18-19 | dot_product is symmetric |
| Geom.DotSelf | geom/basics.py:18-19 | a vector's dot product with itself is non-negative, and zero only for the zero vector |
| Geom.CrossOrthogonal | geom/basics.py:22-23 | cross_product is orthogonal to both arguments |
| Geom.CrossAntiCommutative | geom/basics.py:22-23 | swapping the arguments negates cross_product |
| Geom.CrossSelfIsZero | geom/basic.py:25-26 | a vector crossed with itself is zero |
| Geom.Mean3 | triangular_grid/face.py:62-70 | the mean of three equal points is that point |
| Geom.MeanAllUniform | algorithms/smoothing.py:104-107 | the mean of copies of one vector is that vector |
| Records.NewNode | triangular_grid/node.py:9-26 | a fresh node has the given coordinates and Id, no fields, no links, is not fixed and has no component |
| Records.NewEdge | triangular_grid/edge.py:7-15 | a fresh edge has no Id, nodes or faces and is not on the border |
| Records.NewFace | triangular_grid/face.py:11-33 | a fresh face has the given Id, no nodes, ids or edges, no scalar field set and an aux node without coordinates |
| Records.Coordinates | triangular_grid/node.py:28-29 | the node's (x, y, z) |
| Records.Moved | triangular_grid/node.py:34-37 | move shifts the coordinates by the vector and changes nothing else |
| Records.MoveRoundTrip | triangular_grid/node.py:34-37 | moving by v then by -v restores the node; moving by zero is the identity |
| Records.Corners | triangular_grid/face.py:62-70 | the first three nodes' positions, None when the face has fewer than three nodes or names a node out of range |
| Records.Centroid | triangular_grid/face.py:62-70 | defined exactly when the corners are, and then it is their mean |
| Records.RawNormal | triangular_grid/face.py:35-49 | -((p1 - p2) x (p1 - p3)), defined exactly for a face with three nodes in range |
| Records.RawNormalOrthogonal | triangular_grid/face.py:35-49 | the normal is orthogonal to both edge vectors it is built from |
| Records.AreaSquaredTimesFour | triangular_grid/face.py:51-60 | four times the squared area, defined exactly when area's three-node assertion holds, and never negative |
| Records.AdjacentFaces | triangular_grid/face.py:72-82 | at most one neighbouring face per edge of the face |
| Records.AdjacentFacesOfLinkedFace | triangular_grid/face.py:72-82 | on a face whose edges all hold it, adjacent_faces succeeds, never returns the face itself and returns one face per inner edge |
| Records.MapOrStop | triangular_grid/grid.py:110-121 | a `for x in list` loop whose body may raise: the prefix is rewritten, the rest kept, and the flag says whether every step succeeded |
| Records.MapOrStopAfterFail | triangular_grid/grid.py:110-121 | after a failed step the rest of the list is left as it was |
| Records.MapOrStopAllSucceed | triangular_grid/grid.py:110-121 | when every step succeeds the pass succeeds and each element gets its step's value |
| Records.MapOrStopSucceeded | triangular_grid/grid.py:110-121 | a successful pass had every step succeed |
| MeshSpec.LinkFaceNodeKeepsLinked | triangular_grid/grid.py:35-45 | linking a face and a node on both sides keeps the mesh invariant |
| MeshSpec.LinkNodeEdgeKeepsLinked | triangular_grid/grid.py:46-56 | linking a node and an edge on both sides keeps the mesh invariant |
| MeshSpec.LinkFaceEdgeKeepsLinked | triangular_grid/grid.py:57-70 | linking a face and an edge keeps the mesh invariant, with or without the duplicate guard |
| MeshSpec.AddNew | triangular_grid/grid.py:63-68 | the guarded append: the result holds x and the old entries, and has no repeat when the input had none |
| MeshSpec.FirstEdgeWithCorrect | triangular_grid/grid.py:71-83 | the lookup finds an edge exactly when one of n1's edges holds n2, and it finds the first such edge |
| MeshSpec.FirstEdgeOnly | grid/grid.py:269-280 | is_edge_present as written: decided by n1's first edge only; None when n1 has no edges |
| MeshSpec.FirstEdgeOnlyMissesSecondEdge | grid/grid.py:276-280 | on a node whose second edge joins n2 the written lookup answers None while the scan finds that edge |
| MeshSpec.FirstEdgeOnlyAgrees | grid/grid.py:276-280 | when the written lookup finds an edge, the scan finds the same edge |
| MeshSpec.LinkOrder | triangular_grid/grid.py:103-105 | the order in which a triangle row is linked: (a, c, b) in triangular_grid/ and _grid/, (a, b, c) in grid/grid.py |
| MeshSpec.LinkOrderPermutes | triangular_grid/grid.py:103-105 | whatever the variant, the face is linked to exactly the row's three entries |
| MeshSpec.Zip3 | triangular_grid/grid.py:94-95 | zip(x, y, z): as many points as the shortest list, point i made of the i-th coordinates |
| MeshSpec.PyIndex | triangular_grid/grid.py:103-105 | Python list indexing: -n..n-1 is in range and a negative index counts from the end |
| MeshSpec.NewNodes | triangular_grid/grid.py:93-96 | one fresh node per point; only triangular_grid/ gives node j the Id j |
| MeshSpec.ResolveRow | triangular_grid/grid.py:103-105 | a row resolved against n nodes in link order, None when an entry is out of range |
| MeshSpec.ResolveRows | triangular_grid/grid.py:99-105 | all rows resolved, None when any row fails |
| MeshSpec.ResolveRowsNone | triangular_grid/grid.py:99-105 | one out-of-range row makes the whole resolution fail |
| MeshSpec.TriangleFace | triangular_grid/grid.py:100-102 | face i has Id i, nodes_ids = row + 1 and no links |
| MeshSpec.FacesLinkedMembership | triangular_grid/grid.py:103-105 | face base + i is in node v's appended face list exactly when v is one of row i's nodes |
| MeshSpec.LinkTriangleKeepsLinked | triangular_grid/grid.py:103-105 | linking a face without nodes to three nodes keeps the mesh invariant |
| MeshSpec.SumField | triangular_grid/grid.py:110-121 | the sum of a field over the listed faces, None when a face lacks the field or is out of range |
| MeshSpec.FacesToNode | triangular_grid/grid.py:110-121 | a node takes the means of T and Hw over its faces; no faces (division by zero) or a missing value fails and keeps the node |
| MeshSpec.NodeMean3 | triangular_grid/grid.py:123-127 | the mean of a field over a face's first three nodes, None when there are fewer or one lacks the field |
| MeshSpec.NodesToFace | triangular_grid/grid.py:125-127 | a face takes the node means of T then Hw; T is kept when only Hw fails |
| MeshSpec.AuxNode | triangular_grid/grid.py:199-205 | the face's aux node becomes its centroid; a face without a centroid fails |
| MeshSpec.FacesToNodesUniform | triangular_grid/grid.py:110-121 | a uniform face field relocates to every node unchanged |
| MeshSpec.NodesToFacesUniform | triangular_grid/grid.py:123-127 | a uniform node field relocates to every three-node face unchanged |
| MeshSpec.UniformRoundTrip | triangular_grid/grid.py:110-127 | a uniform face field survives relocation to the nodes and back |
| MeshSpec.NamedField | grid/grid.py:307-346 | the field a parameter name selects: 'value' is the node's value and the face's V |
| MeshSpec.FieldFacesToNode | grid/grid.py:307-332 | the mean of one field over a node's faces; no faces or a missing value fails |
| MeshSpec.FieldNodesToFace | grid/grid.py:334-346 | the mean of one field over a face's first three nodes |
| MeshSpec.SetValueNode | grid/grid.py:348-360 | node i takes value i while both lists last |
| MeshSpec.SetValuesAll | grid/grid.py:348-360 | with at least as many values as nodes, every node carries its value |
| MeshSpec.SetUniformThenNodesToFaces | grid/grid.py:334-360 | one value set on every node and relocated to the faces gives every face that value |
| MeshSpec.FieldFacesToNodesUniform | grid/grid.py:307-332 | a uniform face field relocated to nodes that all have faces gives every node that value |
| MeshSpec.CopyField | triangular_grid/grid.py:194-197 | dst[k] := src[k], a missing value copied as missing |
| MeshSpec.CopyFace | triangular_grid/grid.py:194-197 | face i takes T and Hw of the other grid's face i, IndexError when the other grid has fewer faces |
| MeshSpec.CopyFacesCopies | triangular_grid/grid.py:194-197 | after the copy every face carries exactly the other grid's T and Hw and keeps its other fields |
| MeshSpec.ParamField | _grid/grid.py:204-211 | only 'T' and 'Hw' select a field |
| MeshSpec.ParamColumn | _grid/grid.py:204-211 | one entry per face for 'T' or 'Hw', nothing for any other name |
| MeshSpec.SetParamFace | _grid/grid.py:213-219 | entry i of the row goes into the named field of face i; an unknown name writes nothing; a short row is an IndexError |
| MeshSpec.SetThenReadParam | _grid/grid.py:204-219 | writing a row and reading the same parameter back gives the row's first entries |
| MeshSpec.Degrees | triangular_grid/grid.py:178-184 | each node's degree, in node order |
| MeshSpec.AsWrittenImpliesSorted | triangular_grid/grid.py:164-192 | whatever the written isomorphism check accepts, the documented one accepts |
| MeshSpec.SortedIgnoresSwap | triangular_grid/grid.py:164-192 | the documented check accepts a grid against itself with two nodes exchanged |
| MeshSpec.AsWrittenRejectsRenumbering | triangular_grid/grid.py:186-190 | a renumbered path is rejected by the written check and accepted by the documented one |
| MeshSpec.UntaggedTagOne | triangular_grid/grid.py:224-239 | tagging one untagged node removes exactly one untagged node |
| MeshSpec.NeighbourTag | triangular_grid/grid.py:224-239 | a tagged neighbour of a node on the open path carries the path's tag |
| MeshSpec.TagOneKeepsClosed | triangular_grid/grid.py:224-239 | tagging a node and putting it on the open path keeps the other nodes closed |
| MeshSpec.CloseNode | triangular_grid/grid.py:224-239 | a node all of whose neighbours carry its tag leaves the open path closed |
| MeshSpec.ReachesVia | triangular_grid/grid.py:230-239 | a node reachable from one of v's neighbours is reachable from v |
| MeshSpec.NewlyReachedVia | triangular_grid/grid.py:238-239 | what the traversal from a neighbour w of v tags is reachable from v |
| MeshSpec.NewlyReachedTrans | triangular_grid/grid.py:224-239 | two traversals from v in turn tag only nodes reachable from v |
| Meshes.Mesh.constructor | triangular_grid/grid.py:12-21 | a new grid is empty and valid |
| Meshes.Mesh.LinkFaceAndNode | triangular_grid/grid.py:35-45 | a face with three nodes is refused and nothing changes; otherwise both lists gain the other and nothing else changes |
| Meshes.Mesh.LinkFaceAndNodeUnchecked | grid/grid.py:209-218 | both lists gain the other, unchecked |
| Meshes.Mesh.LinkNodeAndEdge | triangular_grid/grid.py:46-56 | an edge with two nodes is refused and nothing changes; otherwise both sides are linked |
| Meshes.Mesh.LinkNodeAndEdgeUnchecked | grid/grid.py:219-228 | both lists gain the other, unchecked |
| Meshes.Mesh.LinkFaceAndEdge | triangular_grid/grid.py:57-70 | refused when the face has three edges or the edge two faces; otherwise each side gains the other unless it already holds it |
| Meshes.Mesh.LinkFaceAndEdgeUnchecked | grid/grid.py:229-238 | both lists gain the other, repeats allowed |
| Meshes.Mesh.AppendNode | triangular_grid/grid.py:95 | an unlinked node is appended; the mesh stays valid |
| Meshes.Mesh.AppendEdge | tecplot/io.py:226-231 | an unlinked edge is appended; the mesh stays valid |
| Meshes.Mesh.AppendFace | triangular_grid/grid.py:106 | an unlinked face is appended; the mesh stays valid |
| Meshes.Mesh.IsEdgePresent | triangular_grid/grid.py:71-83 | the first edge of n1 holding n2, None exactly when there is none; nothing changes |
| Meshes.Mesh.IsEdgePresentFirstOnly | grid/grid.py:269-280 | the written grid/grid.py lookup, equal to FirstEdgeOnly |
| Meshes.Mesh.LinkTriangle | triangular_grid/grid.py:103-105 | face fi gets the three nodes in order and each node gets fi once per occurrence |
| Meshes.Mesh.AddNodes | triangular_grid/grid.py:93-96 | one node per point of zip(x, y, z) is appended |
| Meshes.Mesh.SetNodesAndFaces | triangular_grid/grid.py:85-108 | the nodes of zip(x, y, z) appended; succeeds exactly when every row resolves, and then one face per row with Id i and nodes_ids = row + 1, each node holding exactly the faces whose rows name it; on an IndexError the faces of the rows before the failing one are in place and linked, and nothing of the failing row |
| Meshes.Mesh.AddFaces | triangular_grid/grid.py:98-106 | the face loop: on success the faces appended are the rows' faces and the node face lists grow by the linked faces; on failure the same holds for the rows before the first one that does not resolve |
| Meshes.Mesh.MapNodes | triangular_grid/grid.py:110-121 | a loop over the nodes equals MapOrStop of its step |
| Meshes.Mesh.MapFaces | triangular_grid/grid.py:123-127 | a loop over the faces equals MapOrStop of its step |
| Meshes.Mesh.RelocateFacesToNodes | triangular_grid/grid.py:110-121 | each node's T and Hw become the means over its faces, stopping at the first failure; faces and edges unchanged |
| Meshes.Mesh.RelocateNodesToFaces | triangular_grid/grid.py:123-127 | each face's T and Hw become the means over its three nodes |
| Meshes.Mesh.ComputeAuxNodes | triangular_grid/grid.py:199-205 | each face's aux node becomes its centroid |
| Meshes.Mesh.RelocateFromIsomorphic | triangular_grid/grid.py:194-197 | face i takes T and Hw of the other grid's face i |
| Meshes.Mesh.SetAuxNodesParameters | _grid/grid.py:213-219 | an array with other than one row fails; otherwise entry i becomes the named parameter of face i |
| Meshes.Mesh.RelocateFacesToNodesNamed | grid/grid.py:307-332 | one named field relocated to the nodes; an unknown name changes nothing |
| Meshes.Mesh.RelocateNodesToFacesNamed | grid/grid.py:334-346 | one named field relocated to the faces; an unknown name raises ValueError |
| Meshes.Mesh.SetNodeValues | grid/grid.py:348-360 | node i takes value i while both last; an unknown name raises ValueError |
| Meshes.Mesh.MoveNode | triangular_grid/node.py:34-37 | node v is moved and nothing else changes |
| Meshes.Mesh.IsIsomorphicTo | triangular_grid/grid.py:164-192 | as written: equal node counts and equal degree lists in node order (the sorted lists are discarded); whatever it accepts, the documented multiset comparison accepts |
| Meshes.Mesh.ReturnParameter | _grid/grid.py:204-211 | the column ParamColumn names |
| Meshes.Mesh.DepthFirstTraversal | triangular_grid/grid.py:224-239 | tags v and, with c, only nodes that were untagged and are reachable from v over the edges; changes nothing but tags; on success the other nodes stay closed |
| Meshes.Mesh.VisitNeighbours | triangular_grid/grid.py:238-239 | the loop over v's neighbours: each is traversed in turn, every node it tags is reachable from v, and on success all of them carry v's tag |
| Meshes.Mesh.Neighbours | triangular_grid/grid.py:230-236 | the other ends of v's edges in order; an edge without two nodes fails |
| Meshes.Mesh.GetNumberOfComponents | triangular_grid/grid.py:241-252 | an empty grid fails; a count c means every node got a tag in 1..c; the grid is otherwise unchanged |
| Avl.IsNodeLessStrict | algorithms/avl_tree.py:143-163 | the tolerant comparison is irreflexive and never holds both ways |
| Avl.IsNodeLessTolerance | algorithms/avl_tree.py:143-163 | points differing only within the accuracy are not less than each other |
| Avl.LessTransitive | algorithms/avl_tree.py:143-163 | the exact lexicographic order is transitive |
| Avl.LessTrichotomy | algorithms/avl_tree.py:143-163 | neither point less than the other exactly when they are equal |
| Avl.RotateRight | algorithms/avl_tree.py:92-116 | the left child becomes the root, heights recomputed |
| Avl.RotateLeft | algorithms/avl_tree.py:118-142 | the right child becomes the root, heights recomputed |
| Avl.RotateRightKeepsOrder | algorithms/avl_tree.py:92-116 | rotate_right keeps the in-order sequence |
| Avl.RotateLeftKeepsOrder | algorithms/avl_tree.py:118-142 | rotate_left keeps the in-order sequence |
| Avl.RotateRightKeepsBst | algorithms/avl_tree.py:92-116 | rotate_right keeps the search order |
| Avl.RotateLeftKeepsBst | algorithms/avl_tree.py:118-142 | rotate_left keeps the search order |
| Avl.RebalanceKeepsOrder | algorithms/avl_tree.py:75-90 | rebalance keeps the in-order sequence, the key set and the search order |
| Avl.MkWf | algorithms/avl_tree.py:43-44 | recomputed height and balance make a well-formed node |
| Avl.RotateRightBalances | algorithms/avl_tree.py:75-90 | left-left case: one right rotation gives an AVL tree |
| Avl.DoubleRightBalances | algorithms/avl_tree.py:75-90 | left-right case: the double rotation gives an AVL tree |
| Avl.RotateLeftBalances | algorithms/avl_tree.py:75-90 | right-right case: one left rotation gives an AVL tree |
| Avl.DoubleLeftBalances | algorithms/avl_tree.py:75-90 | right-left case: the double rotation gives an AVL tree |
| Avl.RebalanceBalances | algorithms/avl_tree.py:75-90 | rebalance of subtrees differing by at most two in height gives an AVL tree of bounded height |
| Avl.InsertInto | algorithms/avl_tree.py:25-46 | the new subtree, None exactly when a key with equal coordinates under the exact order is already stored |
| Avl.InsertIntoCorrect | algorithms/avl_tree.py:25-46 | a new key keeps the tree a balanced search tree, adds exactly that key and grows the height by at most one |
| Avl.FindInCorrect | algorithms/avl_tree.py:57-69 | find returns a stored key equal to the query under the exact order, None exactly when there is none |
| Avl.AVLTree.constructor | algorithms/avl_tree.py:17-19 | an empty valid tree with n = 0 |
| Avl.AVLTree.Insert | algorithms/avl_tree.py:21-23 | succeeds exactly when no stored key is equal under the exact order; then the key set gains the key and n grows by one; otherwise nothing changes |
| Avl.AVLTree.Find | algorithms/avl_tree.py:48-55 | a stored key equal to the query under the exact order, None exactly when there is none |
| Structured.EulerRelations | grid/grid.py:239-268 | the counts satisfy E = 3N - B - 3 and F = 2N - B - 2 with B border nodes |
| Structured.CountsBelowGeneratorBounds | geom/geom_obj_generation.py:169-170 | with two or more points per axis, E < 3N - 3 and F < 2N - 2 |
| Structured.DivModOf | grid/grid.py:103-123 | division recovers the row and column of a row-major index |
| Structured.RowMajorUnique | grid/grid.py:136-208 | row-major indices are equal only when rows and columns are |
| Structured.CellIndices | grid/grid.py:136-208 | every index triangulation computes is in range and the five edges of a square are distinct |
| Structured.FaceNodesAt | grid/grid.py:136-208 | face f's corners: [nul, ndl, nur] for an upper face, [ndr, nur, ndl] for a lower face |
| Structured.EdgeNodesAt | grid/grid.py:136-208 | edge e's two ends by closed formula for horizontal, vertical and diagonal edges |
| Structured.EdgeCellInRange | grid/grid.py:136-208 | every edge is linked by the round of some square |
| Structured.FacesAfterAll | grid/grid.py:136-208 | after all rounds each face holds the corners FaceNodesAt names |
| Structured.EdgesAfterAll | grid/grid.py:136-208 | after all rounds each edge holds the ends EdgeNodesAt names |
| Structured.TriangleSides | grid/grid.py:136-208 | the sides of a square's two triangles are the square's edges |
| Structured.FaceNodesInRange | grid/grid.py:136-208 | every face's corners are three distinct lattice nodes |
| Structured.EdgeNodesInRange | grid/grid.py:136-208 | every edge's ends are two distinct lattice nodes |
| Structured.Triangulated | grid/grid.py:136-208 | starting from unlinked faces and edges, after all rounds every face has three nodes and every edge two, and no face is linked to an edge |
| Structured.TriangulateCell | grid/grid.py:160-206 | one round: the square's faces get their corners, then its edges their ends; every node still lists each face and edge as often as that face or edge lists the node |
| Structured.Triangulation | grid/grid.py:136-208 | on a grid with the counted numbers of unlinked elements, faces and edges end as FacesAfterAll/EdgesAfterAll; every node lists each edge it ends and each face it is a corner of exactly once, and no other |
| Structured.TriangulatedCounts | grid/grid.py:160-206 | once the link counts of both sides agree on the triangulated faces and edges, every node lists each edge it ends and each face it is a corner of exactly once |
| Structured.TriangulateRow | grid/grid.py:158-206 | the rounds of one row of squares, with the link counts of both sides kept equal |
| Structured.InitElementArrays | grid/grid.py:84-101 | appends nn nodes, ne edges and nf faces, unlinked and without Ids |
| Structured.IdsUpToMeaning | grid/grid.py:71-82 | numbering all records gives each its position as Id and changes nothing else |
| Structured.InitIds | grid/grid.py:71-82 | every node, edge and face gets its position as Id |
| Structured.AxisEnds | grid/grid.py:103-123 | the first lattice line lies on a.0 and the last on a.1 |
| Structured.AxisIncreasing | grid/grid.py:103-123 | the lattice lines come in increasing order |
| Structured.AxisInside | grid/grid.py:103-123 | every lattice line lies within [a.0, a.1] |
| Structured.InitCoordinates | grid/grid.py:103-123 | node j * xn + i goes to (x1 + i size_x, y1 + j size_y); nothing else changes |
| Structured.LatticeNode | grid/grid.py:103-123 | node j * xn + i is in row j and column i |
| Structured.InitialCorners | grid/grid.py:24-69 | the four corner nodes lie on the rectangle's corners and every node inside it |
| Structured.Init | grid/grid.py:24-69 | a failed check (xn > 1, yn > 1, x1 < x2, y1 < y2) is an AssertionError with nothing changed; otherwise the grid is InitialGrid: counted elements, placed, numbered and triangulated, each node listing its edges and faces once each |
| Structured.Build | grid/grid.py:57-69 | the steps after the checks give InitialGrid, where every node lists each of its edges and faces exactly once |
| Structured.InitRecords | grid/grid.py:57-67 | init_element_arrays, init_coordinates and init_ids give the initial records |
| Transfer.SqDistPositive | algorithms/methods.py:8-10 | distinct points are at positive squared distance |
| Transfer.SqDistZero | algorithms/methods.py:8-10 | a point no farther from c than c itself is c |
| Transfer.Nearest | algorithms/methods.py:8-10 | the query's answer: no point is nearer, and every earlier point is strictly farther |
| Transfer.NearestUnique | algorithms/methods.py:8-10 | only one index has that property |
| Transfer.NearestExactHit | algorithms/methods.py:8-10 | a query at one of distinct points finds that point |
| Transfer.Positions | triangular_grid/grid.py:137-146 | one position per node, in order |
| Transfer.CopyNearestNode | algorithms/methods.py:8-13 | a new node takes T and Hw of the nearest old node; an empty old grid fails |
| Transfer.CopyNearestOnlyValues | algorithms/methods.py:8-13 | the pass changes only new nodes' T and Hw |
| Transfer.ExactCopy | algorithms/methods.py:8-13 | a new node sitting on one of distinct old nodes takes that node's T and Hw |
| Transfer.CopyNearestUniform | algorithms/methods.py:8-13 | uniform old values reach every new node |
| Transfer.InterpolateNodes | algorithms/kdtree.py:4-13 | the loop over new nodes equals the spec pass; the old grid is read only |
| Transfer.Interpolate | algorithms/methods.py:16-20 | faces to nodes on the old grid, nearest copy, nodes to faces on the new grid; old faces and edges stay |
| Transfer.InterpolateUniform | algorithms/methods.py:16-20 | a uniform T and Hw on the old faces comes through unchanged to every new face |
| Transfer.InterpolateKeepsNewNodes | algorithms/methods.py:16-20 | only T and Hw of the new nodes change |
| Transfer.AuxPoints | triangular_grid/grid.py:148-157 | the aux node coordinates, None when a face has none |
| Transfer.CopyNearestFace | algorithms/methods.py:28-31 | a new face takes T and Hw of the old face whose aux node is nearest |
| Transfer.FaceCenteredInterpolation | algorithms/methods.py:23-31 | nodes and edges of both grids stay; the result is the spec's three steps |
| Transfer.AuxNodesSet | triangular_grid/grid.py:199-205 | after a successful centroid pass every face has its aux node and nothing else changed |
| Transfer.FaceCenteredUniform | algorithms/methods.py:23-31 | uniform old face values reach every new face |
| Transfer.FaceExactHit | algorithms/methods.py:28-31 | a new aux node on one of distinct old aux nodes takes that face's values |
| Smoothing.DropLast | algorithms/smoothing.py:28-29 | s[:-k]: all but the last k characters, empty if there are no more |
| Smoothing.NameOfIteration | algorithms/smoothing.py:26-29 | str(i) left-padded with '0' to three characters |
| Smoothing.NameOfIterationRoundTrip | algorithms/smoothing.py:26-29 | the padded name denotes i, and has three characters when i < 1000 |
| Smoothing.PolicyOf | algorithms/smoothing.py:16-20 | None, 'no_move' and 'along_edge' select a policy; anything else fails the assertion |
| Smoothing.PolicyRoundTrip | algorithms/smoothing.py:16-20 | every policy is accepted under its own name |
| Smoothing.BorderNodeSetMembers | smoothing.py:37-47 | a node is a border node exactly when a single-face edge holds it |
| Smoothing.FixNode | smoothing.py:42-45 | fixes v and counts it when it was not fixed |
| Smoothing.FixEdgeNodes | smoothing.py:42-45 | the inner loop: fixes the edge's nodes, counting the new ones |
| Smoothing.MarkEdge | smoothing.py:39-45 | one round of mark_all_fixed_nodes |
| Smoothing.MarkAllFixedNodes | smoothing.py:37-47 | single-face edges become border edges, their nodes fixed, nothing else changes; the count is the number of newly fixed nodes |
| Smoothing.MarkAgain | algorithms/smoothing.py:69-75 | marking twice changes nothing more and counts nothing |
| Smoothing.Configure | algorithms/smoothing.py:16-25 | an unknown fixation method fails; a given one marks the border; none leaves the mesh |
| Smoothing.Project | algorithms/smoothing.py:42-47 | the shift's component along the edge, None for a zero-length edge |
| Smoothing.ProjectOrthogonal | algorithms/smoothing.py:42-47 | what the projection leaves is orthogonal to the edge |
| Smoothing.ProjectIdempotent | algorithms/smoothing.py:42-47 | projecting a projection changes nothing |
| Smoothing.EdgeDirection | geom/basics.py:9-15 | edge_to_vector, None when the edge does not have two nodes in range |
| Smoothing.BorderEdges | algorithms/smoothing.py:36 | the node's border edges in order |
| Smoothing.ChooseEdge | algorithms/smoothing.py:38-40 | the edge with the larger dot product with the shift, the first on a tie |
| Smoothing.ChosenBorderEdge | algorithms/smoothing.py:35-42 | the chosen border edge's vector, None unless there are exactly two border edges with two nodes each |
| Smoothing.BorderEdgeToProjectOn | smoothing.py:63-75 | the shift projected on the chosen border edge |
| Smoothing.BorderProjectionAlongEdge | algorithms/smoothing.py:35-47 | the projected shift lies along the chosen edge: the remainder is orthogonal and projecting again gives it back |
| Smoothing.MoveNode | algorithms/smoothing.py:49-62 | intended policies: a free node moves by the shift; a fixed node moves by the shift, stays, or moves along a border edge |
| Smoothing.MoveNodeAsWritten | algorithms/smoothing.py:49-62 | the code as written under each policy |
| Smoothing.NoMoveAsWritten | algorithms/smoothing.py:50-62 | under 'no_move' the written code moves a fixed node by the shift and a free node by twice the shift |
| Smoothing.Move | algorithms/smoothing.py:49-62 | the move_node a rule selects, the code as written or the intended one; either way only the node's position changes |
| Smoothing.NeighbourPositions | algorithms/smoothing.py:93-102 | the neighbours' positions, one per edge in edge order |
| Smoothing.Laplacian | algorithms/smoothing.py:93-108 | the mean of the neighbours minus the node; None with fewer than two edges or a malformed edge |
| Smoothing.LaplacianAtRest | algorithms/smoothing.py:104-108 | neighbours at the node's own position give a zero Laplacian |
| Smoothing.SweepUpTo | algorithms/smoothing.py:92-111 | the first k in-place steps, each seeing the earlier moves |
| Smoothing.SweepAfterFail | algorithms/smoothing.py:92-111 | after a failed step nothing more changes |
| Smoothing.Sweep | algorithms/smoothing.py:92-111 | the in-place sweep equals SweepUpTo over all nodes |
| Smoothing.SweepOnlyMoves | algorithms/smoothing.py:92-111 | a sweep of position-only steps changes positions only |
| Smoothing.SweepKeepsFixed | algorithms/smoothing.py:92-111 | a sweep of steps sparing fixed nodes spares them |
| Smoothing.Iterated | algorithms/smoothing.py:91-113 | iters sweeps, the first failure ending the smoothing |
| Smoothing.Smooth | algorithms/smoothing.py:91-113 | the iteration loop equals Iterated |
| Smoothing.IteratedOnlyMoves | algorithms/smoothing.py:91-113 | sweeps of position-only steps change positions only |
| Smoothing.IteratedKeepsFixed | algorithms/smoothing.py:91-113 | sweeps sparing fixed nodes never move one |
| Smoothing.FactorScheduleKeepsFixed | algorithms/smoothing.py:50-52 | under 'no_move' and the intended rule neither smoother moves a fixed node |
| Smoothing.FactorScheduleNoMoveAsWritten | algorithms/smoothing.py:50-62 | under 'no_move' as written a sweep step moves a fixed node by its scaled Laplacian and a free node by twice that |
| Smoothing.LaplacianSmoothing | algorithms/smoothing.py:90-113 | iters sweeps moving each node by alpha times its Laplacian through the rule's move_node (as written for algorithms/smoothing.py) |
| Smoothing.TaubinSmoothing | algorithms/smoothing.py:124-154 | sweeps alternate lamb times the Laplacian and -mu times it, through the rule's move_node |
| Smoothing.TaubinWithNegatedMu | algorithms/smoothing.py:143-152 | Taubin with mu = -lamb is Laplacian smoothing with alpha = lamb |
| Smoothing.IteratedAtRest | algorithms/smoothing.py:90-154 | nodes all at one point stay there and every sweep succeeds |
| Smoothing.NullSpaceShift | algorithms/smoothing.py:258-271 | no faces fails; k >= 3 gives zero; otherwise st times the null-space projection |
| Smoothing.Displacements | algorithms/smoothing.py:231-272 | the displacements of the first k nodes, all on the starting positions |
| Smoothing.CollectDisplacements | algorithms/smoothing.py:231-272 | collects every displacement and leaves the mesh alone |
| Smoothing.ApplyLaplacians | algorithms/smoothing.py:77-80 | a list of the wrong length fails; otherwise every node is moved in order by the rule's move_node |
| Smoothing.ApplyAllAtOnce | algorithms/smoothing.py:77-80 | without border projection the order does not matter: each node moves by its own displacement as the rule says (as written, 'no_move' moves a free node twice) |
| Smoothing.NullSpaceIteration | algorithms/smoothing.py:230-274 | all displacements on the starting positions, then apply_laplacians with the rule's move_node |
| Smoothing.NullSpaceIterationInPlace | algorithms/smoothing.py:230-274 | one iteration on the mesh equals NullSpaceIteration |
| Smoothing.NullSpaceSmoothing | algorithms/smoothing.py:229-275 | iters null-space iterations on the mesh |
| Smoothing.NullSpaceIterationAllAtOnce | algorithms/smoothing.py:229-275 | Jacobi order: each node moves by its own shift on the starting positions, as the rule moves it; fails exactly when a node has no faces |
| Smoothing.NullSpaceSmoothingInPlace | smoothing.py:78-151 | the in-place variant: fixed nodes skipped when fix_border_nodes is set |
| Smoothing.InPlaceKeepsFixed | smoothing.py:82-84 | with fix_border_nodes, fixed nodes never move |
| Smoothing.CheckEulerEquations | smoothing.py:50-60 | the check passes exactly when E and F have the Euler counts, and then N - E + F = 1 |
| Smoothing.StructuredGridPassesEuler | smoothing.py:50-60 | a structured xn by yn grid passes with 2xn + 2yn - 4 border nodes |
| Text.DecimalString | algorithms/smoothing.py:27 | str(n): decimal digits without leading zeros |
| Text.DecimalRoundTrip | algorithms/smoothing.py:27 | reading str(n) back gives n |
| Text.Split | tecplot/io.py:165 | s.split(sep): the pieces between separators, at least one |
| Text.SplitJoin | tecplot/io.py:165 | joining a split gives the string back |
| Text.JoinSplit | tecplot/io.py:445 | splitting separator-free pieces joined by it gives them back |
| Text.FindFrom | tecplot/io.py:170 | s.find(sub, i): the first occurrence from i, or -1 |
| Text.FindMissingChar | tecplot/io.py:170 | sub is not found in a text lacking one of its characters |
| Text.CountFrom | tecplot/io.py:445 | s.count(sub): non-overlapping occurrences, zero exactly when find fails |
| Text.StripPadded | tecplot/io.py:368 | whitespace around a word is what int() ignores, and only that |
| Text.IntString | tecplot/io.py:621 | str(i) for an id |
| Text.IntStringChars | tecplot/io.py:621 | str(i) holds only digits and a minus sign |
| Text.IntRoundTrip | tecplot/io.py:368 | int() reads back str(i) whatever whitespace surrounds it |
| Readers.CheckHeader | tecplot/reader.py:22-24 | only the CHECK_POINT header line is accepted, else ValueError |
| Readers.HeaderNeedsLineBreak | tecplot/reader.py:22-24 | a header without its line break is refused |
| Readers.FirstHi | tecplot/io.py:169-171 | the first token from i that names Hi or IceThickness |
| Readers.ParseVariables | tecplot/io.py:147-173 | (position of the first Hi token, token count); an assertion failure unless the list starts with X; ValueError without Hi |
| Readers.VariablesRoundTrip | tecplot/io.py:147-173 | a written list of names is read back as the first Hi position and the token count |
| Readers.ParseObjFace | tecplot/io.py:113-144 | a "f a b c" line, ids stripped of "/..." references; wrong shape or a bad id fails |
| Readers.ObjFaceRoundTrip | tecplot/io.py:113-144 | a written face line gives its three ids back |
| Readers.ParseValue | tecplot/io.py:270-287 | 'None' and a bare line break are missing values; anything else is parsed |
| Readers.StrictValue | tecplot/reader.py:138-150 | float() directly: never a missing value |
| Readers.NumberOfFacesSpaced | tecplot/io.py:464-476 | the count of "ELEMENTS = n" is read back |
| Readers.NumberOfFacesUnspaced | tecplot/io.py:464-476 | "ELEMENTS=n" is read back too, because find's -1 puts the slice at index 9 |
| Readers.NumberOfZones | tecplot/io.py:432-445 | the occurrences of "ZONE T" in the joined lines, none exactly when it does not occur |
| Readers.ZipFrom | tecplot/io.py:341-354 | the rounds of `zip` over parsed coordinate columns |
| Readers.ZipAllParse | tecplot/io.py:341-354 | columns whose every token parses are zipped without raising |
| Readers.NodesOf | tecplot/io.py:341-354 | triples with a missing coordinate are skipped; io.py numbers the kept nodes from 1 |
| Readers.CollectNodes | tecplot/io.py:336-354 | the node loop equals NodesOf |
| Readers.Ints | tecplot/io.py:368 | one value per token when every token converts |
| Readers.IntsMeaning | tecplot/io.py:368 | int() of each token in order, None exactly when int() rejects one |
| Readers.DuplicateCheck | tecplot/io.py:375-377 | the short-circuit duplicate test, IndexError on a short list |
| Readers.ReadRow | tecplot/io.py:360-377 | one connectivity line as each reader treats it |
| Readers.IoRowRoundTrip | tecplot/io.py:360-377 | "a b c \n" is read back exactly when the ids are distinct, ValueError otherwise |
| Readers.GridRowRoundTrip | grid/tecplot.py:237-242 | grid/tecplot.py reads the line back, duplicates included |
| Readers.ReaderRowRoundTrip | tecplot/reader.py:167-175 | "a b c\n" is read back exactly when distinct, RuntimeError otherwise |
| Readers.OutcomeAt | tecplot/io.py:358-377 | outcome k is what connectivity line k gives |
| Readers.FacesFrom | tecplot/io.py:358-377 | an accepted face loop gives one face per row |
| Readers.FacesFromRows | tecplot/io.py:358-377 | face k of an accepted zone is its row's face |
| Readers.FacesFromFails | tecplot/io.py:358-377 | refused exactly when a row raises, with that row's exception |
| Readers.CollectFaces | tecplot/io.py:358-377 | the face loop equals FacesFrom |
| Readers.SetFieldsHolds | tecplot/reader.py:177-185 | with distinct fields each ends up with its column's value |
| Readers.FieldsFrom | tecplot/reader.py:177-185 | an accepted field loop gives one face per face it starts from |
| Readers.FieldsFromKeeps | tecplot/reader.py:177-185 | the field loop changes only the field values of each face |
| Readers.FieldAt | tecplot/reader.py:177-185 | face k holds column d's k-th value in column d's field |
| Readers.AssignFields | tecplot/io.py:379-382 | the field loop equals FieldsFrom |
| Readers.IoColumns | tecplot/io.py:330-334 | T, Hw and Hi from the lines before and at Hi's, with Python's negative indexing |
| Readers.ReaderColumns | tecplot/reader.py:143-150 | the eight field lines 3 to 10 |
| Readers.ZoneParts | tecplot/io.py:290-384 | an accepted zone keeps the node loop's nodes and the field loop's faces |
| Readers.ZoneFacesKeep | tecplot/io.py:290-384 | each face of an accepted zone is the face loop's face with only its field values changed |
| Readers.StrictNodes | tecplot/reader.py:156-161 | with float() every triple becomes a node at the k-th coordinates |
| Readers.IoZoneShape | tecplot/io.py:290-384 | node k has Id k + 1; one face per line with Id k and its row's ids, no duplicates |
| Readers.IoZoneRowRaises | tecplot/io.py:375-377 | a raising line makes the zone fail |
| Readers.IoZoneFields | tecplot/io.py:379-382 | face k holds the k-th T, Hw and Hi |
| Readers.ReaderZoneShape | tecplot/reader.py:122-187 | nodes at the k-th coordinates without Id; one face per line holding distinct ids |
| Readers.ReaderZoneFields | tecplot/reader.py:177-185 | face k holds the k-th value of each field line |
| Readers.GridZoneShape | grid/tecplot.py:198-244 | x and y from lines 0 and 1, z from line 3; faces hold their lines' ids unchecked |
| Readers.GridFieldsUntouched | grid/tecplot.py:198-244 | no field is assigned |
| Readers.ReadIoZone | tecplot/io.py:290-384 | parce_nodes_and_faces of io.py equals IoZone |
| Readers.ReadReaderZone | tecplot/reader.py:122-187 | parce_nodes_and_faces of reader.py equals ReaderZone |
| Readers.ReadGridZone | grid/tecplot.py:198-244 | parce_nodes_and_faces of grid/tecplot.py equals GridZone |
| Assembly.FirstMatch | grid/tecplot.py:261-270 | the first node matching a point, None when there is none |
| Assembly.ExactMatchIsThePoint | tecplot/io.py:423-429 | under exact matching of distinct points the match is the node at that point |
| Assembly.Merge | tecplot/io.py:423-429 | one entry per zone node after merging |
| Assembly.MergeGrows | tecplot/io.py:423-429 | merging keeps the grid's nodes and appends after them |
| Assembly.MergeAppendsZoneNodes | tecplot/io.py:425-427 | every appended node is a zone node whose entry refers to it |
| Assembly.MergeNoMatchBefore | tecplot/io.py:425-427 | no appended node matches an earlier one |
| Assembly.MergeRefAt | tecplot/io.py:423-429 | each entry refers to the first matching grid node, or keeps its own node only without rewriting |
| Assembly.MergeExactDistinct | tecplot/io.py:423-429 | exact merging keeps the grid free of repeated points |
| Assembly.MergeExactRefs | tecplot/io.py:423-429 | with rewriting, every zone entry becomes the grid node at its point |
| Assembly.RebindingKeepsDuplicate | tecplot/reader.py:215-221 | as written, a zone node whose point is in the grid stays in the zone list |
| Assembly.IndexesMiss | algorithms/avl_tree.py:48-55 | a point absent from the tree is at no grid node |
| Assembly.IndexesHit | algorithms/avl_tree.py:48-55 | a key in the tree names the grid node at its point |
| Assembly.MakeAvl | triangular_grid/grid.py:159-162 | every node inserted in turn; a point repeated exactly raises ValueError, and success means the points are distinct and indexed |
| Assembly.AddNodesToGrid | tecplot/io.py:409-429 | each zone node looked up in the tree under the exact order; new ones appended and inserted; the result is Merge with exact matching |
| Assembly.FindWithin | grid/tecplot.py:261-270 | the first grid node within EPS in x and y |
| Assembly.ComposeNodeList | grid/tecplot.py:247-273 | the nested loop equals Merge with EPS matching and rewriting |
| Assembly.MergeZones | tecplot/io.py:401-406 | the grid starts as zone 1's nodes and later zones are merged in order |
| Assembly.MergeZonesShape | tecplot/io.py:401-406 | the grid begins with zone 1's nodes and every zone list keeps its length |
| Assembly.MergeZonesAppended | tecplot/io.py:401-406 | every node after zone 1's comes from a later zone whose entry refers to it |
| Assembly.MergeZonesRefAt | tecplot/io.py:401-406 | each entry refers to a matching node, the first one in later zones |
| Assembly.MergeZonesDistinct | tecplot/io.py:401-406 | exact matching with zone 1 distinct never gives two nodes at one point |
| Assembly.SetNodesAvl | tecplot/io.py:387-406 | no zones is an IndexError, a point repeated exactly in zone 1 a ValueError; otherwise the outcome is MergeZones |
| Assembly.SetNodesWithin | grid/tecplot.py:129-140 | no zones is an IndexError; otherwise MergeZones with EPS matching |
| Assembly.FoundJoins | triangular_grid/grid.py:71-83 | an edge found from a's list joins a and b |
| Assembly.AbsentMeansNoJoin | triangular_grid/grid.py:71-83 | when the scan finds nothing, no edge joins a and b |
| Assembly.NewEdgeKeepsPairsUnique | tecplot/io.py:226-231 | a new edge for an unjoined pair keeps pairs unique |
| Assembly.LinkList | triangular_grid/grid.py:63-68 | the link list gains x, only when missing if checked |
| Assembly.LinkPair | tecplot/reader.py:91-99 | the found edge is linked to the face, or a new edge [a, b] linked to face, a and b and appended; errors exactly as the checked links raise them, and nothing changes then |
| Assembly.ResolveIds | tecplot/reader.py:81-83 | nodes[id - 1] for the first three ids with Python indexing, None when one is out of range or fewer than three |
| Assembly.ResolveIdsFromOne | tecplot/reader.py:81-83 | ids counted from 1 pick the nodes at those positions |
| Assembly.LinkFaceNodes | tecplot/reader.py:86-88 | three link_face_and_node calls; a checked face with nodes refuses them |
| Assembly.LinkSide | tecplot/reader.py:91-99 | afterwards the face lists an edge joining the side's ends |
| Assembly.LinkSides | tecplot/reader.py:91-119 | all three sides of the triangle have an edge on the face |
| Assembly.LinkFace | tecplot/reader.py:80-119 | an unresolvable id is an IndexError; otherwise the face ends with its three nodes and an edge per side |
| Assembly.SetFaces | tecplot/reader.py:67-119 | the faces from a position on, in order; every finished face a triangle, stopping at the first that raises |
| Assembly.MergeZonesInGrid | tecplot/io.py:423-429 | with rewriting every zone node becomes a grid node |
| Assembly.AppendFaces | tecplot/io.py:90 | grid.Faces += f, the mesh invariant kept |
| Assembly.AddZoneFaces | tecplot/io.py:88-90 | one zone's faces linked and added |
| Assembly.FaceCount | tecplot/io.py:88-90 | the number of faces of all zones |
| Assembly.SetAllFaces | tecplot/io.py:88-90 | every zone's faces linked and added; all faces are triangles |
| Assembly.LinkZones | tecplot/reader.py:62-64 | the faces of all zones linked zone by zone |
| Assembly.AssembleIo | tecplot/io.py:87-90 | no zones is an IndexError, a point repeated exactly in zone 1 a ValueError; on success the grid's nodes are the merged points, distinct, and all faces are triangles with unique edge pairs |
| Assembly.AssembleReader | tecplot/reader.py:60-64 | as AssembleIo, and success exactly when every face's ids resolve |
| Assembly.AssembleGrid | grid/tecplot.py:119-126 | no zones is an IndexError; success exactly when every face's ids resolve against the EPS-merged nodes, and then the nodes are the merged points, every face a triangle, edge pairs unique and every record numbered by position |
| Assembly.Renumber | grid/grid.py:71-82 | init_ids on a linked grid keeps triangles, unique pairs and points |
| Assembly.GeneratedIdsResolve | geom/geom_obj_generation.py:24-27 | a generated face's ids resolve to its row's nodes |
| Assembly.GenerateSurface | geom/geom_obj_generation.py:154-156 | an out-of-range row is an IndexError; otherwise one node per point, one face per row, all triangles with unique pairs |
| Assembly.LinkGenerated | geom/geom_obj_generation.py:11-58 | set_faces over the generated faces; a failure is an AssertionError |

## Left out

- File I/O, printing and the writers; zone titles, variable location lines and other metadata a reader only copies.
- `float()` text parsing: a parsed value is a given real, or an error.
- The mesh generators' numpy/matplotlib parts (`linspace`, `Triangulation`, `sin`): the points and the triangle rows are parameters of `Assembly.GenerateSurface`.
- The eigen-decomposition of the null-space smoother: `k` and the projection are a parameter of `Smoothing.NullSpaceShift`.
- Area weights, `Face.normal` normalisation, `Face.area` and `alpha_quality_measure`, which need a square root; the model states the squared quantities.
- scipy's KD-tree: the query is the first index of the minimum squared distance.
- Avl.AVLTree.Insert, Avl.AVLTree.Find, Avl.InsertInto, Avl.InsertIntoCorrect, Avl.FindInCorrect, Assembly.MakeAvl, Assembly.AddNodesToGrid, Assembly.SetNodesAvl, Assembly.AssembleIo, Assembly.AssembleReader: compare points with the exact lexicographic order. `is_node_less` treats components within 1e-17 as equal. With that tolerance, `find` returns a key that only nearly equals the query, and `insert` raises ValueError on a near but different point. Such near-equal coordinates are not modelled. The tolerant comparison is proved only irreflexive and asymmetric, because with it the order is not transitive.
- The `parent` field of the AVL tree nodes is not represented: the tree is a datatype, and a child's parent is the node that holds it.
- Meshes.Mesh.GetNumberOfComponents: requires every tagged node to be closed (for instance, no node tagged yet).
- Structured.Init: starts from a grid without elements, as `Grid()` gives it; a coordinate the source leaves as None is 0.0.
- Assembly.SetNodesAvl: the grid's edge and face lists must be empty, and make_avl starts from an empty tree.
- Assembly.SetAllFaces: requires as many node lists as face lists.
- Assembly.AssembleIo, Assembly.AssembleReader, Assembly.AssembleGrid: the zones must be as the parsers build them (no links yet). The zone faces are placed in the grid before `set_faces` runs. `set_faces` never reads `grid.Faces`, so the outcome on success is the same.
- Assembly.AssembleIo, Assembly.AssembleReader, Assembly.AssembleGrid: the state left after an exception part-way through is not described beyond the error kind.
- Assembly.GenerateSurface: the assertions E < 3N - 3 and F < 2N - 2 of geom/geom_obj_generation.py:108-109 and 169-170 are proved for structured grids only (`Structured.CountsBelowGeneratorBounds`). They depend on the Delaunay rows.
- Readers.ReadRow: in tecplot/io.py a line whose ids `int()` rejects keeps its ids as text, and set_faces later raises a TypeError on them. The model keeps the duplicate check on the text but gives the face no numeric ids, so set_faces reports an IndexError instead.
- Assembly.AssembleReader: links the zones as corrected in the last Findings row (each zone entry replaced by the grid node). The written code would link faces to zone nodes that never entered the grid, and that is not modelled.
- Assembly.AssembleGrid: links with the full-scan edge lookup of the third Findings row. The first-edge-only lookup is modelled (`Assembly.GridLinkerAsWritten`, `MeshSpec.FirstEdgeOnly`) but not carried through the driver.
- Zones (`init_zone`, the `Zone` records a reader appends to `grid.Zones`): the zone classes are not part of this model.
- Smoothing.NullSpaceShift: the area-weighted displacement `dv` and the null-space projector are given by a solver parameter, as is `k`.
- test/test.py's `find(..., return_nearest=True)` does not exist in the tree; no nearest mode is modelled.
- `find_n_neighbours_faces_of_node` and `vector_to_avg_of_centroids`: numpy shape quirks and area weights.
- Meshes.Mesh.SetNodesAndFaces, Meshes.Mesh.AddFaces: when a row entry is out of range, triangular_grid/grid.py:103-106 has already linked the new face to the nodes of the row's earlier entries before raising IndexError, although the face never enters `Faces`. The arena has no place for a face outside the face list, so those dangling links are not modelled: the failing row leaves the nodes as they were.
- Meshes.Mesh.DepthFirstTraversal, Meshes.Mesh.GetNumberOfComponents: Python's recursion limit is not modelled. `depth_first_traversal` recurses once per node along a path, so the source raises RecursionError on a path of about a thousand untagged nodes, where the model goes on.
- Text.ParseInt, Text.IsSpace: only ASCII whitespace and ASCII digits are modelled. Python's `int()` also strips the other Unicode whitespace, accepts `_` between digits and accepts non-ASCII decimal digits.
- Transfer.InterpolateNodes, Transfer.Interpolate, Transfer.FaceCenteredInterpolation: require two distinct grid objects. Python accepts the same grid twice; main.py:51 passes two different grids.
- Smoothing.Project: vectors are real triples (`Geom.Vec`) rather than the Vector class of geom/vector.py, which lacks the `make_unit`, `mul`, `dev`, `sum` and `subtract_vectors` that algorithms/smoothing.py and geom/basics.py call. Those operations are defined on the triples, and projecting on an edge of length zero, which has no unit vector, gives None.

## Findings

| source | as written | input that shows it | evidently intended | confidence | as-written member | corrected member |
|---|---|---|---|---|---|---|
| algorithms/smoothing.py:50-62 | the 'no_move' branch is a separate `if`, so the final `else` of the 'along_edge' test moves every node again | policy 'no_move', a free node and a non-zero shift: it moves twice; a fixed node moves once | 'no_move' keeps fixed nodes in place and moves free nodes once (an `elif`) | not executed | Smoothing.NoMoveAsWritten | Smoothing.MoveNode |
| triangular_grid/grid.py:186-187 | `sorted()` results are discarded, so degree lists are compared in node order | a path of two nodes listed as [leaf, middle] against [middle, leaf] | compare the sorted degree lists (equal multisets) | not executed | MeshSpec.AsWrittenRejectsRenumbering | MeshSpec.SortedIgnoresSwap |
| grid/grid.py:276-280 | both branches return in the first iteration, so only n1's first edge is inspected | node 0 with edges 0-1 then 0-2, looking for 0-2 | scan all of n1's edges | not executed | MeshSpec.FirstEdgeOnlyMissesSecondEdge | MeshSpec.FirstEdgeWithCorrect |
| tecplot/reader.py:220-221 | `n = found` rebinds the loop variable, so the zone list keeps its duplicate node | a second zone holding a node at a point of zone 1 | replace the entry, as tecplot/io.py:429 does with `nodes[i] = found` | not executed | Assembly.RebindingKeepsDuplicate | Assembly.MergeExactRefs |
