/** Vectors of three real coordinates and the helpers of the geometry module:
    dot and cross products, the vector along an edge, and componentwise
    arithmetic used by the smoothers and the centroid computations. */
module Geom {

  /** A point or a vector of 3-space; the source's Point and Vector classes
      both carry exactly these three coordinates. */
  datatype Vec = Vec(x: real, y: real, z: real)

  const Zero: Vec := Vec(0.0, 0.0, 0.0)

  function Add(a: Vec, b: Vec): Vec {
    Vec(a.x + b.x, a.y + b.y, a.z + b.z)
  }

  /** a - b, componentwise (Vector.subtract_vectors). */
  function Sub(a: Vec, b: Vec): Vec {
    Vec(a.x - b.x, a.y - b.y, a.z - b.z)
  }

  function Scale(k: real, a: Vec): Vec {
    Vec(k * a.x, k * a.y, k * a.z)
  }

  function Neg(a: Vec): Vec {
    Vec(-a.x, -a.y, -a.z)
  }

  /** dot_product */
  function Dot(a: Vec, b: Vec): real {
    a.x * b.x + a.y * b.y + a.z * b.z
  }

  /** cross_product */
  function Cross(a: Vec, b: Vec): Vec {
    Vec(a.y * b.z - a.z * b.y, a.z * b.x - a.x * b.z, a.x * b.y - a.y * b.x)
  }

  /** edge_to_vector for an edge whose node list is [p1, p2]: the vector from
      the first node to the second. */
  function EdgeVector(p1: Vec, p2: Vec): (v: Vec)
    ensures Add(p1, v) == p2
  {
    Sub(p2, p1)
  }

  /** The componentwise mean of three points (Face.centroid, compute_aux_nodes). */
  function Mean3(a: Vec, b: Vec, c: Vec): (m: Vec)
    ensures a == b == c ==> m == a
  {
    Vec((a.x + b.x + c.x) / 3.0, (a.y + b.y + c.y) / 3.0, (a.z + b.z + c.z) / 3.0)
  }

  /** The componentwise sum of a sequence of vectors, accumulated from the left
      as the source's `laplacian.sum(...)` loop does. */
  function SumAll(vs: seq<Vec>): Vec
    decreases |vs|
  {
    if vs == [] then Zero else Add(SumAll(vs[..|vs| - 1]), vs[|vs| - 1])
  }

  /** The componentwise mean of a non-empty sequence of vectors. */
  function MeanAll(vs: seq<Vec>): Vec
    requires |vs| > 0
  {
    Scale(1.0 / (|vs| as real), SumAll(vs))
  }

  lemma DotSymmetric(a: Vec, b: Vec)
    ensures Dot(a, b) == Dot(b, a)
  {
  }

  lemma DotSelfNonNegative(a: Vec)
    ensures Dot(a, a) >= 0.0
  {
    assert a.x * a.x >= 0.0 && a.y * a.y >= 0.0 && a.z * a.z >= 0.0;
  }

  /** The product of two equal reals is never negative, and positive when
      they are not zero. */
  lemma SameSign(r: real, s: real)
    requires r == s
    ensures r * s >= 0.0
    ensures r != 0.0 ==> r * s > 0.0
  {
    if r > 0.0 {
      assert s > 0.0;
    } else if r < 0.0 {
      assert s < 0.0;
    }
  }

  /** A sum of three reals none of which is negative is positive when its
      first term is. */
  lemma PositiveTerm(p: real, q: real, r: real)
    requires p > 0.0 && q >= 0.0 && r >= 0.0
    ensures p + q + r > 0.0
  {
  }

  /** The dot product of a vector with itself is never negative, and
      positive unless the vector is zero. */
  lemma DotSelf(d: Vec, e: Vec)
    requires d == e
    ensures Dot(d, e) >= 0.0
    ensures d != Zero ==> Dot(d, e) > 0.0
  {
    SameSign(d.x, e.x);
    SameSign(d.y, e.y);
    SameSign(d.z, e.z);
    if d.x != 0.0 {
      PositiveTerm(d.x * e.x, d.y * e.y, d.z * e.z);
    } else if d.y != 0.0 {
      PositiveTerm(d.y * e.y, d.x * e.x, d.z * e.z);
    } else if d.z != 0.0 {
      PositiveTerm(d.z * e.z, d.x * e.x, d.y * e.y);
    }
  }

  /** Scaling the left argument scales the dot product. */
  lemma DotScaleLeft(k: real, a: Vec, b: Vec)
    ensures Dot(Scale(k, a), b) == k * Dot(a, b)
  {
  }

  /** The dot product distributes over a difference on the left. */
  lemma DotSubLeft(a: Vec, b: Vec, c: Vec)
    ensures Dot(Sub(a, b), c) == Dot(a, c) - Dot(b, c)
  {
  }

  lemma CrossAntiCommutative(a: Vec, b: Vec)
    ensures Cross(a, b) == Neg(Cross(b, a))
  {
  }

  lemma CrossSelfIsZero(a: Vec)
    ensures Cross(a, a) == Zero
  {
  }

  /** The cross product is orthogonal to both of its arguments. */
  lemma CrossOrthogonal(a: Vec, b: Vec)
    ensures Dot(Cross(a, b), a) == 0.0
    ensures Dot(Cross(a, b), b) == 0.0
  {
  }

  /** Swapping the two nodes of an edge negates edge_to_vector. */
  lemma EdgeVectorSwap(p1: Vec, p2: Vec)
    ensures EdgeVector(p2, p1) == Neg(EdgeVector(p1, p2))
  {
  }

  /** The sum of n copies of one vector. */
  lemma {:induction false} SumAllUniform(vs: seq<Vec>, c: Vec)
    requires forall i :: 0 <= i < |vs| ==> vs[i] == c
    ensures SumAll(vs) == Scale(|vs| as real, c)
    decreases |vs|
  {
    if vs != [] {
      SumAllUniform(vs[..|vs| - 1], c);
    }
  }

  /** The mean of copies of one vector is that vector. */
  lemma MeanAllUniform(vs: seq<Vec>, c: Vec)
    requires |vs| > 0
    requires forall i :: 0 <= i < |vs| ==> vs[i] == c
    ensures MeanAll(vs) == c
  {
    SumAllUniform(vs, c);
    var n := |vs| as real;
    assert (1.0 / n) * (n * c.x) == c.x;
    assert (1.0 / n) * (n * c.y) == c.y;
    assert (1.0 / n) * (n * c.z) == c.z;
  }
}
