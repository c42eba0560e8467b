/**
 * Axis-aligned bounding areas and boxes and planes of math-euclidean.hpp.
 * Every float of the source is a real here.
 */
module Geometry {

  datatype Float2 = Float2(x: real, y: real)

  datatype Float3 = Float3(x: real, y: real, z: real) {
    function Plus(o: Float3): Float3 { Float3(x + o.x, y + o.y, z + o.z) }
    function Minus(o: Float3): Float3 { Float3(x - o.x, y - o.y, z - o.z) }
    function Scale(k: real): Float3 { Float3(x * k, y * k, z * k) }
    /** Component `i` (0, 1, 2 for x, y, z). */
    function At(i: nat): real requires i < 3 { if i == 0 then x else if i == 1 then y else z }
  }

  datatype Float4 = Float4(x: real, y: real, z: real, w: real) {
    /** Component `i` (0, 1, 2, 3 for x, y, z, w), as `float4::operator[]`. */
    function At(i: nat): real requires i < 4 { if i == 0 then x else if i == 1 then y else if i == 2 then z else w }
    function Xyz(): Float3 { Float3(x, y, z) }
  }

  function Dot(a: Float3, b: Float3): real { a.x * b.x + a.y * b.y + a.z * b.z }

  function Min(a: real, b: real): real { if a < b then a else b }
  function Max(a: real, b: real): real { if a < b then b else a }

  /** Component-wise minimum and maximum, as `linalg::min` and `linalg::max`. */
  function Min3(a: Float3, b: Float3): Float3 { Float3(Min(a.x, b.x), Min(a.y, b.y), Min(a.z, b.z)) }
  function Max3(a: Float3, b: Float3): Float3 { Float3(Max(a.x, b.x), Max(a.y, b.y), Max(a.z, b.z)) }

  /** Component-wise order. */
  predicate LessEq3(a: Float3, b: Float3) { a.x <= b.x && a.y <= b.y && a.z <= b.z }

  //////////////////////////////
  // Axis-aligned bounding area

  datatype Bounds2D = Bounds2D(lo: Float2, hi: Float2) {

    function Size(): (r: Float2)
      ensures lo.x + r.x == hi.x && lo.y + r.y == hi.y
    {
      Float2(hi.x - lo.x, hi.y - lo.y)
    }

    /** Positive for a non-empty area, zero when the area is flat on either axis. */
    function Area(): (r: real)
      ensures r == Width() * Height()
      ensures lo.x < hi.x && lo.y < hi.y ==> r > 0.0
      ensures lo.x == hi.x || lo.y == hi.y ==> r == 0.0
    {
      (hi.x - lo.x) * (hi.y - lo.y)
    }

    function Width(): (r: real)
      ensures lo.x + r == hi.x
    {
      hi.x - lo.x
    }

    function Height(): (r: real)
      ensures lo.y + r == hi.y
    {
      hi.y - lo.y
    }

    /** `center()` as written: its x coordinate averages `_min.x` with `_max.y`. */
    function CenterAsWritten(): Float2 {
      Float2((lo.x + hi.y) / 2.0, (lo.y + hi.y) / 2.0)
    }

    /** The midpoint of the area: as far from the low edge as from the high edge on both axes. */
    function Center(): (r: Float2)
      ensures r.x - lo.x == hi.x - r.x && r.y - lo.y == hi.y - r.y
      ensures lo.x < hi.x && lo.y < hi.y ==> Contains(r)
    {
      Float2((lo.x + hi.x) / 2.0, (lo.y + hi.y) / 2.0)
    }

    /** Half-open on each axis: the low edges are inside, the high edges are not. */
    predicate Contains(p: Float2) {
      p.x >= lo.x && p.y >= lo.y && p.x < hi.x && p.y < hi.y
    }

    /** Despite its name, true when `other` lies inside this area. */
    predicate Intersects(other: Bounds2D) {
      lo.x <= other.lo.x && hi.x >= other.hi.x && lo.y <= other.lo.y && hi.y >= other.hi.y
    }
  }

  /** The low corner is inside exactly when the area is not empty; the high corner never is. */
  lemma Bounds2DHalfOpen(b: Bounds2D)
    ensures b.Contains(b.lo) <==> b.lo.x < b.hi.x && b.lo.y < b.hi.y
    ensures !b.Contains(b.hi)
  {
  }

  /** The as-written center of the area from (0, 0) to (2, 4) lies outside it; the midpoint lies inside. */
  lemma CenterAsWrittenLeavesArea()
    ensures var b := Bounds2D(Float2(0.0, 0.0), Float2(2.0, 4.0));
      b.lo.x < b.hi.x && b.lo.y < b.hi.y && !b.Contains(b.CenterAsWritten()) && b.Contains(b.Center())
  {
  }

  /** The two centers agree only when the area's high corner has equal coordinates. */
  lemma CenterAsWrittenAgrees(b: Bounds2D)
    ensures b.CenterAsWritten() == b.Center() <==> b.hi.x == b.hi.y
  {
  }

  /** The area is positive exactly when the size is positive on both axes or negative on both. */
  lemma Bounds2DAreaSign(b: Bounds2D)
    ensures b.Area() > 0.0 <==> (b.Width() > 0.0 && b.Height() > 0.0) || (b.Width() < 0.0 && b.Height() < 0.0)
  {
    var w, h := b.Width(), b.Height();
    if w > 0.0 && h < 0.0 {
      assert w * h == -(w * -h);
      assert w * -h > 0.0;
    } else if w < 0.0 && h > 0.0 {
      assert w * h == -(-w * h);
      assert -w * h > 0.0;
    } else if w < 0.0 && h < 0.0 {
      assert w * h == -w * -h;
      assert -w * -h > 0.0;
    } else if w == 0.0 || h == 0.0 {
      assert w * h == 0.0;
    }
  }

  /** What `Intersects` means: every point of a non-empty `other` is a point of this area. */
  lemma {:induction false} Bounds2DIntersectsIsContainment(b: Bounds2D, other: Bounds2D)
    requires other.lo.x < other.hi.x && other.lo.y < other.hi.y
    ensures b.Intersects(other) <==> forall p :: other.Contains(p) ==> b.Contains(p)
  {
    if forall p :: other.Contains(p) ==> b.Contains(p) {
      assert other.Contains(other.lo);
      assert b.lo.x <= other.lo.x && b.lo.y <= other.lo.y;
      if b.hi.x < other.hi.x {
        var px := Max(b.hi.x, other.lo.x);
        assert other.Contains(Float2(px, other.lo.y));
        assert false;
      }
      if b.hi.y < other.hi.y {
        var py := Max(b.hi.y, other.lo.y);
        assert other.Contains(Float2(other.lo.x, py));
        assert false;
      }
    }
  }

  /////////////////////////////
  // Axis-aligned bounding box

  datatype Bounds3D = Bounds3D(lo: Float3, hi: Float3) {

    function Size(): (r: Float3)
      ensures lo.Plus(r) == hi
    {
      hi.Minus(lo)
    }

    /** The midpoint (`center()`), inside the box whenever `lo <= hi`. */
    function Center(): (r: Float3)
      ensures r.Minus(lo) == hi.Minus(r)
      ensures LessEq3(lo, hi) ==> Contains(r)
    {
      lo.Plus(hi).Scale(0.5)
    }

    /** The product of the three extents: never negative for a box with `lo <= hi`. */
    function Volume(): (r: real)
      ensures r == Size().x * Size().y * Size().z
      ensures LessEq3(lo, hi) ==> r >= 0.0
    {
      (hi.x - lo.x) * (hi.y - lo.y) * (hi.z - lo.z)
    }

    /** Closed on each axis: both corners of a box with `lo <= hi` are inside. */
    predicate Contains(p: Float3) {
      !(p.x < lo.x || p.x > hi.x) && !(p.y < lo.y || p.y > hi.y) && !(p.z < lo.z || p.z > hi.z)
    }

    /** Despite its name, true when `other` lies inside this box. */
    predicate Intersects(other: Bounds3D) {
      lo.x <= other.lo.x && hi.x >= other.hi.x &&
      lo.y <= other.lo.y && hi.y >= other.hi.y &&
      lo.z <= other.lo.z && hi.z >= other.hi.z
    }

    /** The corner of the box that `get_negative` picks: the high side on each axis where the normal is negative. */
    function GetNegative(n: Float3): (r: Float3)
      ensures Contains(r) <==> LessEq3(lo, hi)
      ensures r.x == (if n.x < 0.0 then hi.x else lo.x)
      ensures r.y == (if n.y < 0.0 then hi.y else lo.y)
      ensures r.z == (if n.z < 0.0 then hi.z else lo.z)
    {
      var s := Size();
      Float3(if n.x < 0.0 then lo.x + s.x else lo.x,
             if n.y < 0.0 then lo.y + s.y else lo.y,
             if n.z < 0.0 then lo.z + s.z else lo.z)
    }

    /** The corner of the box that `get_positive` picks: the high side on each axis where the normal is positive. */
    function GetPositive(n: Float3): (r: Float3)
      ensures Contains(r) <==> LessEq3(lo, hi)
      ensures r.x == (if n.x > 0.0 then hi.x else lo.x)
      ensures r.y == (if n.y > 0.0 then hi.y else lo.y)
      ensures r.z == (if n.z > 0.0 then hi.z else lo.z)
    {
      var s := Size();
      Float3(if n.x > 0.0 then lo.x + s.x else lo.x,
             if n.y > 0.0 then lo.y + s.y else lo.y,
             if n.z > 0.0 then lo.z + s.z else lo.z)
    }

    /** The box grown to take in `p` (`surround(const float3 &)`). */
    function SurroundPoint(p: Float3): (r: Bounds3D)
      ensures r.Contains(p) && LessEq3(r.lo, r.hi)
      ensures forall q :: Contains(q) ==> r.Contains(q)
    {
      Bounds3D(Min3(lo, p), Max3(hi, p))
    }

    /** The box grown to take in `other` (`surround(const Bounds3D &)`). */
    function SurroundBox(other: Bounds3D): (r: Bounds3D)
      ensures r.Intersects(this) && r.Intersects(other)
    {
      Bounds3D(Min3(lo, other.lo), Max3(hi, other.hi))
    }

    /** Extent along axis `i`. */
    function Extent(i: nat): real requires i < 3 { Size().At(i) }

    /** The axis of greatest extent; among equal extents the one with the highest index wins. */
    function MaximumExtent(): (r: nat)
      ensures r < 3
      ensures forall i :: 0 <= i < 3 ==> Extent(i) <= Extent(r)
      ensures forall i :: r < i < 3 ==> Extent(i) < Extent(r)
    {
      var d := Size();
      if d.x > d.y && d.x > d.z then 0
      else if d.y > d.z then 1
      else 2
    }

    /** The smallest box holding this one and `other`, as a new value (`add`). */
    function Add(other: Bounds3D): (r: Bounds3D)
      ensures r.Intersects(this) && r.Intersects(other)
      ensures forall b: Bounds3D :: b.Intersects(this) && b.Intersects(other) ==> b.Intersects(r)
    {
      Bounds3D(Min3(lo, other.lo), Max3(hi, other.hi))
    }
  }

  /** Closed on both ends: the two corners of a box with `lo <= hi` are inside it. */
  lemma Bounds3DCornersInside(b: Bounds3D)
    ensures b.Contains(b.lo) <==> LessEq3(b.lo, b.hi)
    ensures b.Contains(b.hi) <==> LessEq3(b.lo, b.hi)
  {
  }

  /** What `Intersects` means: every point of a box `other` with `lo <= hi` is a point of `b`. */
  lemma Bounds3DIntersectsIsContainment(b: Bounds3D, other: Bounds3D)
    requires LessEq3(other.lo, other.hi)
    ensures b.Intersects(other) <==> forall p :: other.Contains(p) ==> b.Contains(p)
  {
    if forall p :: other.Contains(p) ==> b.Contains(p) {
      assert other.Contains(other.lo) && other.Contains(other.hi);
    }
  }

  lemma Bounds3DIntersectsReflexive(b: Bounds3D)
    ensures b.Intersects(b)
  {
  }

  lemma Bounds3DIntersectsTransitive(a: Bounds3D, b: Bounds3D, c: Bounds3D)
    requires a.Intersects(b) && b.Intersects(c)
    ensures a.Intersects(c)
  {
  }

  /** `Intersects` is not symmetric: a unit box holds a point-sized box, not the other way round. */
  lemma Bounds3DIntersectsNotSymmetric()
    ensures exists a: Bounds3D, b: Bounds3D :: a.Intersects(b) && !b.Intersects(a)
  {
    var a := Bounds3D(Float3(0.0, 0.0, 0.0), Float3(1.0, 1.0, 1.0));
    var b := Bounds3D(Float3(0.0, 0.0, 0.0), Float3(0.0, 0.0, 0.0));
    assert a.Intersects(b) && !b.Intersects(a);
  }

  /** `a.add(b)` does not depend on the order of its arguments and equals `a` after `a.surround(b)`. */
  lemma Bounds3DAddCommutes(a: Bounds3D, b: Bounds3D)
    ensures a.Add(b) == b.Add(a)
    ensures a.Add(b) == a.SurroundBox(b)
  {
  }

  /** Surrounding a box takes in every point of both boxes. */
  lemma Bounds3DSurroundBoxContains(a: Bounds3D, b: Bounds3D, p: Float3)
    requires a.Contains(p) || b.Contains(p)
    ensures a.SurroundBox(b).Contains(p)
  {
  }

  lemma MulLeft(k: real, u: real, v: real)
    requires u <= v
    ensures k >= 0.0 ==> k * u <= k * v
    ensures k <= 0.0 ==> k * v <= k * u
  {
    if k >= 0.0 { assert k * v - k * u == k * (v - u); }
    else { assert k * u - k * v == k * (u - v); }
  }

  lemma SumOrder(a: real, b: real, c: real, a': real, b': real, c': real)
    requires a <= a' && b <= b' && c <= c'
    ensures a + b + c <= a' + b' + c'
  {
  }

  /** On one axis, the coordinate `get_positive` picks gives the largest product with the normal. */
  lemma AxisPositive(n: real, lo: real, hi: real, x: real)
    requires lo <= x <= hi
    ensures n * x <= n * (if n > 0.0 then hi else lo)
  {
    if n > 0.0 { MulLeft(n, x, hi); } else { MulLeft(n, lo, x); }
  }

  /** On one axis, the coordinate `get_negative` picks gives the smallest product with the normal. */
  lemma AxisNegative(n: real, lo: real, hi: real, x: real)
    requires lo <= x <= hi
    ensures n * (if n < 0.0 then hi else lo) <= n * x
  {
    if n < 0.0 { MulLeft(n, x, hi); } else { MulLeft(n, lo, x); }
  }

  /** `get_positive(n)` is a point of the box maximising `dot(n, x)` over the box. */
  lemma {:induction false} GetPositiveMaximises(b: Bounds3D, n: Float3, x: Float3)
    requires b.Contains(x)
    ensures b.Contains(b.GetPositive(n))
    ensures Dot(n, x) <= Dot(n, b.GetPositive(n))
  {
    AxisPositive(n.x, b.lo.x, b.hi.x, x.x);
    AxisPositive(n.y, b.lo.y, b.hi.y, x.y);
    AxisPositive(n.z, b.lo.z, b.hi.z, x.z);
    var g := b.GetPositive(n);
    SumOrder(n.x * x.x, n.y * x.y, n.z * x.z, n.x * g.x, n.y * g.y, n.z * g.z);
  }

  /** `get_negative(n)` is a point of the box minimising `dot(n, x)` over the box. */
  lemma {:induction false} GetNegativeMinimises(b: Bounds3D, n: Float3, x: Float3)
    requires b.Contains(x)
    ensures b.Contains(b.GetNegative(n))
    ensures Dot(n, b.GetNegative(n)) <= Dot(n, x)
  {
    AxisNegative(n.x, b.lo.x, b.hi.x, x.x);
    AxisNegative(n.y, b.lo.y, b.hi.y, x.y);
    AxisNegative(n.z, b.lo.z, b.hi.z, x.z);
    var g := b.GetNegative(n);
    SumOrder(n.x * g.x, n.y * g.y, n.z * g.z, n.x * x.x, n.y * x.y, n.z * x.z);
  }

  ///////////
  // Plane

  /** Tolerance of `Plane::contains` and of the frustum point test. */
  const PLANE_EPSILON: real := 0.0001

  /** The equation `(a, b, c, d)` of the points `x` with `dot((a, b, c), x) + d == 0`. */
  datatype Plane = Plane(equation: Float4) {

    function Normal(): Float3 { equation.Xyz() }
    function Distance(): real { equation.w }

    /** Signed distance up to the length of the normal: positive on the side the normal points to. */
    function DistanceTo(p: Float3): real { Dot(Normal(), p) + equation.w }

    /** As written: compares against `w` where `DistanceTo` adds it. */
    predicate IsNegativeHalfSpace(p: Float3) { Dot(Normal(), p) < equation.w }
    predicate IsPositiveHalfSpace(p: Float3) { Dot(Normal(), p) > equation.w }

    /** The intended half-space tests: the sign of `DistanceTo`. */
    predicate OnNegativeSide(p: Float3) { DistanceTo(p) < 0.0 }
    predicate OnPositiveSide(p: Float3) { DistanceTo(p) > 0.0 }

    predicate Contains(p: Float3) {
      var d := DistanceTo(p);
      (if d < 0.0 then -d else d) < PLANE_EPSILON
    }

    function ReflectCoord(c: Float3): Float3 { Normal().Scale(DistanceTo(c)).Scale(-2.0).Plus(c) }
    function ReflectVector(v: Float3): Float3 { Normal().Scale(Dot(Normal(), v)).Scale(2.0).Minus(v) }
  }

  /** `Plane(normal, distance)`. */
  function PlaneFromNormalDistance(n: Float3, d: real): (r: Plane)
    ensures r.Normal() == n && r.Distance() == d
    ensures forall p :: r.DistanceTo(p) == Dot(n, p) + d
  {
    Plane(Float4(n.x, n.y, n.z, d))
  }

  /** `Plane(normal, point)`: the plane through `q` with normal `n`. */
  function PlaneFromNormalPoint(n: Float3, q: Float3): (r: Plane)
    ensures r.Normal() == n
    ensures r.DistanceTo(q) == 0.0 && r.Contains(q)
    ensures forall p :: r.DistanceTo(p) == Dot(n, p.Minus(q))
  {
    Plane(Float4(n.x, n.y, n.z, -Dot(n, q)))
  }

  /** The two half-space tests measure against `2 * w`, not against the plane itself. */
  lemma HalfSpaceTestsAsWritten(pl: Plane, p: Float3)
    ensures pl.IsNegativeHalfSpace(p) <==> pl.DistanceTo(p) < 2.0 * pl.equation.w
    ensures pl.IsPositiveHalfSpace(p) <==> pl.DistanceTo(p) > 2.0 * pl.equation.w
  {
  }

  /**
   * For every plane with `w > 0` the origin is at distance `w` on the positive side, yet the
   * as-written `is_negative_half_space` places it on the negative side (for instance the
   * plane x = -1, with normal (1, 0, 0) and `w` = 1).
   */
  lemma HalfSpaceAsWrittenMisplacesOrigin(pl: Plane)
    requires pl.equation.w > 0.0
    ensures pl.DistanceTo(Float3(0.0, 0.0, 0.0)) == pl.equation.w
    ensures pl.OnPositiveSide(Float3(0.0, 0.0, 0.0))
    ensures pl.IsNegativeHalfSpace(Float3(0.0, 0.0, 0.0)) && !pl.IsPositiveHalfSpace(Float3(0.0, 0.0, 0.0))
  {
  }

  /** The corrected tests split space into the negative side, the positive side and the plane itself. */
  lemma HalfSpacesPartition(pl: Plane, p: Float3)
    ensures pl.OnNegativeSide(p) || pl.OnPositiveSide(p) || pl.DistanceTo(p) == 0.0
    ensures !(pl.OnNegativeSide(p) && pl.OnPositiveSide(p))
    ensures pl.DistanceTo(p) == 0.0 ==> pl.Contains(p) && !pl.OnNegativeSide(p) && !pl.OnPositiveSide(p)
  {
  }

  /** A plane made from a normal and a point: the positive side is where the normal points away from the point. */
  lemma HalfSpacesOfNormalPoint(n: Float3, q: Float3, p: Float3)
    ensures PlaneFromNormalPoint(n, q).OnPositiveSide(p) <==> Dot(n, p.Minus(q)) > 0.0
    ensures PlaneFromNormalPoint(n, q).OnNegativeSide(p) <==> Dot(n, p.Minus(q)) < 0.0
  {
  }

  predicate UnitNormal(pl: Plane) { Dot(pl.Normal(), pl.Normal()) == 1.0 }

  /** With a unit normal, reflecting a point flips the sign of its distance to the plane. */
  lemma {:induction false} ReflectCoordDistance(pl: Plane, c: Float3)
    requires UnitNormal(pl)
    ensures pl.DistanceTo(pl.ReflectCoord(c)) == -pl.DistanceTo(c)
  {
    var n, d := pl.Normal(), pl.DistanceTo(c);
    var r := pl.ReflectCoord(c);
    assert r == Float3(n.x * d * -2.0 + c.x, n.y * d * -2.0 + c.y, n.z * d * -2.0 + c.z);
    calc {
      Dot(n, r);
      n.x * (n.x * d * -2.0 + c.x) + n.y * (n.y * d * -2.0 + c.y) + n.z * (n.z * d * -2.0 + c.z);
      -2.0 * d * (n.x * n.x + n.y * n.y + n.z * n.z) + Dot(n, c);
      -2.0 * d + Dot(n, c);
    }
  }

  /** With a unit normal, `reflect_coord` is an involution. */
  lemma {:induction false} ReflectCoordInvolution(pl: Plane, c: Float3)
    requires UnitNormal(pl)
    ensures pl.ReflectCoord(pl.ReflectCoord(c)) == c
  {
    var n, d := pl.Normal(), pl.DistanceTo(c);
    ReflectCoordDistance(pl, c);
    var r := pl.ReflectCoord(c);
    assert r == Float3(n.x * d * -2.0 + c.x, n.y * d * -2.0 + c.y, n.z * d * -2.0 + c.z);
    assert pl.ReflectCoord(r) == Float3(n.x * -d * -2.0 + r.x, n.y * -d * -2.0 + r.y, n.z * -d * -2.0 + r.z);
  }

  /** With a unit normal, reflecting a vector keeps its component along the normal. */
  lemma {:induction false} ReflectVectorAlongNormal(pl: Plane, v: Float3)
    requires UnitNormal(pl)
    ensures Dot(pl.Normal(), pl.ReflectVector(v)) == Dot(pl.Normal(), v)
  {
    var n, k := pl.Normal(), Dot(pl.Normal(), v);
    var r := pl.ReflectVector(v);
    assert r == Float3(n.x * k * 2.0 - v.x, n.y * k * 2.0 - v.y, n.z * k * 2.0 - v.z);
    calc {
      Dot(n, r);
      n.x * (n.x * k * 2.0 - v.x) + n.y * (n.y * k * 2.0 - v.y) + n.z * (n.z * k * 2.0 - v.z);
      2.0 * k * (n.x * n.x + n.y * n.y + n.z * n.z) - k;
      k;
    }
  }

  /** With a unit normal, `reflect_vector` is an involution. */
  lemma {:induction false} ReflectVectorInvolution(pl: Plane, v: Float3)
    requires UnitNormal(pl)
    ensures pl.ReflectVector(pl.ReflectVector(v)) == v
  {
    var n, k := pl.Normal(), Dot(pl.Normal(), v);
    ReflectVectorAlongNormal(pl, v);
    var r := pl.ReflectVector(v);
    assert r == Float3(n.x * k * 2.0 - v.x, n.y * k * 2.0 - v.y, n.z * k * 2.0 - v.z);
    assert pl.ReflectVector(r) == Float3(n.x * k * 2.0 - r.x, n.y * k * 2.0 - r.y, n.z * k * 2.0 - r.z);
  }
}
