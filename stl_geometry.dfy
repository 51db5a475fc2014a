/** Points, triangles and facet normals of the heightmap mesh.
    Coordinates are exact reals; the square root is a parameter, because
    the platform's `Math.sqrt` is not part of this model. */
module StlGeometry {

  datatype Vec3 = Vec3(x: real, y: real, z: real)

  /** One STL facet: its three corners in emission order. */
  datatype Facet = Facet(a: Vec3, b: Vec3, c: Vec3)

  const Zero := Vec3(0.0, 0.0, 0.0)

  function Sub(p: Vec3, q: Vec3): Vec3
  {
    Vec3(p.x - q.x, p.y - q.y, p.z - q.z)
  }

  function Cross(u: Vec3, v: Vec3): Vec3
  {
    Vec3(u.y * v.z - u.z * v.y, u.z * v.x - u.x * v.z, u.x * v.y - u.y * v.x)
  }

  function Dot(u: Vec3, v: Vec3): real
  {
    u.x * v.x + u.y * v.y + u.z * v.z
  }

  /** The unnormalised normal (b - a) x (c - a). */
  function EdgeCross(a: Vec3, b: Vec3, c: Vec3): Vec3
  {
    Cross(Sub(b, a), Sub(c, a))
  }

  /** `sqrt` returns the true non-negative square root at `s`. */
  ghost predicate IsSqrtAt(sqrt: real -> real, s: real)
  {
    sqrt(s) >= 0.0 && sqrt(s) * sqrt(s) == s
  }

  /** The length the cross product is divided by: `Math.sqrt(..) || 1`.
      It is never zero, which is the divide-by-zero guard. */
  function GuardedLength(v: Vec3, sqrt: real -> real): (len: real)
    ensures len != 0.0
    ensures sqrt(Dot(v, v)) != 0.0 ==> len == sqrt(Dot(v, v))
    ensures sqrt(Dot(v, v)) == 0.0 ==> len == 1.0
  {
    var l := sqrt(Dot(v, v));
    if l == 0.0 then 1.0 else l
  }

  /** `v` divided by its guarded length. */
  function Normalize(v: Vec3, sqrt: real -> real): (n: Vec3)
    ensures v == Zero ==> n == Zero
  {
    var len := GuardedLength(v, sqrt);
    Vec3(v.x / len, v.y / len, v.z / len)
  }

  /** The facet normal of `normal(a, b, c)`: the edge cross product
      divided by its guarded length, so a degenerate facet gets the zero
      vector and no division by zero occurs. */
  function Normal(a: Vec3, b: Vec3, c: Vec3, sqrt: real -> real): (n: Vec3)
    ensures EdgeCross(a, b, c) == Zero ==> n == Zero
  {
    Normalize(EdgeCross(a, b, c), sqrt)
  }

  /** The unnormalised normal of a facet, (b - a) x (c - a). */
  function FacetCross(t: Facet): Vec3
  {
    EdgeCross(t.a, t.b, t.c)
  }

  /** The normal `facet(a, b, c)` computes for its corners. */
  function FacetNormal(t: Facet, sqrt: real -> real): Vec3
  {
    Normal(t.a, t.b, t.c, sqrt)
  }

  lemma DivMul(p: real, l: real)
    requires l != 0.0
    ensures (p / l) * l == p
  {
  }

  lemma QuotientSquare(p: real, l: real)
    requires l != 0.0
    ensures ((p / l) * (p / l)) * (l * l) == p * p
  {
    DivMul(p, l);
    assert ((p / l) * (p / l)) * (l * l) == ((p / l) * l) * ((p / l) * l);
  }

  lemma SumOfQuotients(a: real, b: real, c: real, x2: real, y2: real, z2: real, k: real)
    requires a * k == x2 && b * k == y2 && c * k == z2
    requires k == x2 + y2 + z2 && k != 0.0
    ensures a + b + c == 1.0
  {
    assert (a + b + c) * k == a * k + b * k + c * k;
    assert (a + b + c) * k / k == a + b + c;
  }

  /** With a true square root, every facet whose cross product has a
      positive squared length gets a normal of length 1. */
  lemma NormalIsUnit(a: Vec3, b: Vec3, c: Vec3, sqrt: real -> real)
    requires Dot(EdgeCross(a, b, c), EdgeCross(a, b, c)) > 0.0
    requires IsSqrtAt(sqrt, Dot(EdgeCross(a, b, c), EdgeCross(a, b, c)))
    ensures Dot(Normal(a, b, c, sqrt), Normal(a, b, c, sqrt)) == 1.0
  {
    var cr := EdgeCross(a, b, c);
    var s := Dot(cr, cr);
    assert sqrt(s) * sqrt(s) > 0.0;
    assert sqrt(s) != 0.0;
    var n := Normal(a, b, c, sqrt);
    assert n == Vec3(cr.x / sqrt(s), cr.y / sqrt(s), cr.z / sqrt(s));
    QuotientSquare(cr.x, sqrt(s));
    QuotientSquare(cr.y, sqrt(s));
    QuotientSquare(cr.z, sqrt(s));
    SumOfQuotients(n.x * n.x, n.y * n.y, n.z * n.z, cr.x * cr.x, cr.y * cr.y, cr.z * cr.z,
                   sqrt(s) * sqrt(s));
  }

  /** `sqrt` never returns a negative number for a non-negative argument,
      as `Math.sqrt` does not. */
  ghost predicate SqrtNonNegative(sqrt: real -> real)
  {
    forall r: real :: 0.0 <= r ==> 0.0 <= sqrt(r)
  }

  /** A squared length is never negative. */
  lemma DotSelfNonNegative(v: Vec3)
    ensures 0.0 <= Dot(v, v)
  {
    assert 0.0 <= v.x * v.x && 0.0 <= v.y * v.y && 0.0 <= v.z * v.z;
  }

  /** Dividing by the guarded length keeps the sign of every component of
      the cross product, for any square root that never returns a
      negative number. */
  lemma NormalKeepsSigns(a: Vec3, b: Vec3, c: Vec3, sqrt: real -> real)
    requires SqrtNonNegative(sqrt)
    ensures var cr, n := EdgeCross(a, b, c), Normal(a, b, c, sqrt);
            (cr.x == 0.0 ==> n.x == 0.0) && (cr.y == 0.0 ==> n.y == 0.0) && (cr.z == 0.0 ==> n.z == 0.0)
    ensures var cr, n := EdgeCross(a, b, c), Normal(a, b, c, sqrt);
            (cr.x < 0.0 ==> n.x < 0.0) && (cr.y < 0.0 ==> n.y < 0.0) && (cr.z < 0.0 ==> n.z < 0.0)
    ensures var cr, n := EdgeCross(a, b, c), Normal(a, b, c, sqrt);
            (cr.x > 0.0 ==> n.x > 0.0) && (cr.y > 0.0 ==> n.y > 0.0) && (cr.z > 0.0 ==> n.z > 0.0)
  {
    var cr := EdgeCross(a, b, c);
    DotSelfNonNegative(cr);
    var len := GuardedLength(cr, sqrt);
    assert len > 0.0;
    QuotientSign(cr.x, len);
    QuotientSign(cr.y, len);
    QuotientSign(cr.z, len);
  }

  lemma QuotientSign(p: real, l: real)
    requires l > 0.0
    ensures (p == 0.0 ==> p / l == 0.0) && (p < 0.0 ==> p / l < 0.0) && (p > 0.0 ==> p / l > 0.0)
  {
  }

  /** A non-negative number has one non-negative square root. */
  lemma SquareRootUnique(r: real, q: real)
    requires 0.0 <= r && 0.0 <= q && r * r == q * q
    ensures r == q
  {
    if r < q {
      SquareIncreasing(r, q);
    } else if q < r {
      SquareIncreasing(q, r);
    }
  }

  lemma SquareIncreasing(p: real, q: real)
    requires 0.0 <= p < q
    ensures p * p < q * q
  {
    var d := q - p;
    assert q * q == p * p + 2.0 * p * d + d * d;
    assert d * d > 0.0;
    assert p * d >= 0.0;
  }

  lemma SquarePositive(v: real)
    requires v != 0.0
    ensures v * v > 0.0
  {
    if v < 0.0 {
      assert v * v == (-v) * (-v);
    }
  }
}
