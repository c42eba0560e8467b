/**
 * The view frustum of math-euclidean.hpp: six planes whose normals point inward,
 * extracted from a view-projection matrix, and the point, sphere and box tests.
 */
module Frustum {
  import opened Geometry

  /** Indices of `FrustumPlane`. */
  const RIGHT: nat := 0
  const LEFT: nat := 1
  const BOTTOM: nat := 2
  const TOP: nat := 3
  const NEAR: nat := 4
  const FAR: nat := 5

  /** A column-major 4x4 matrix: `Entry(i, j)` is `m[i][j]`, row `j` of column `i`. */
  datatype Mat4 = Mat4(c0: Float4, c1: Float4, c2: Float4, c3: Float4) {
    function Col(i: nat): Float4 requires i < 4 { if i == 0 then c0 else if i == 1 then c1 else if i == 2 then c2 else c3 }
    function Entry(i: nat, j: nat): real requires i < 4 && j < 4 { Col(i).At(j) }
  }

  /** Row `j` of `m * (p, 1)`: the clip-space coordinates of `p`. */
  function ClipAt(m: Mat4, p: Float3, j: nat): real
    requires j < 4
  {
    m.c0.At(j) * p.x + m.c1.At(j) * p.y + m.c2.At(j) * p.z + m.c3.At(j)
  }

  function Combine(a: real, b: real, minus: bool): real { if minus then a - b else a + b }

  /**
   * The Gribb-Hartmann plane whose coefficient `i` is `m[i][3] - m[i][axis]` (`minus`)
   * or `m[i][3] + m[i][axis]`.
   */
  function GribbHartmann(m: Mat4, axis: nat, minus: bool): (pl: Plane)
    requires axis < 3
  {
    Plane(Float4(Combine(m.Entry(0, 3), m.Entry(0, axis), minus),
                 Combine(m.Entry(1, 3), m.Entry(1, axis), minus),
                 Combine(m.Entry(2, 3), m.Entry(2, axis), minus),
                 Combine(m.Entry(3, 3), m.Entry(3, axis), minus)))
  }

  /** The distance of `p` to a Gribb-Hartmann plane is `w + x`, `w - x`, ... of its clip coordinates. */
  lemma {:induction false} GribbHartmannClip(m: Mat4, axis: nat, minus: bool, p: Float3)
    requires axis < 3
    ensures GribbHartmann(m, axis, minus).DistanceTo(p) == Combine(ClipAt(m, p, 3), ClipAt(m, p, axis), minus)
  {
    var e := GribbHartmann(m, axis, minus).equation;
    var a0, a1, a2, a3 := m.c0.At(axis), m.c1.At(axis), m.c2.At(axis), m.c3.At(axis);
    if minus {
      assert e == Float4(m.c0.w - a0, m.c1.w - a1, m.c2.w - a2, m.c3.w - a3);
      calc {
        (m.c0.w - a0) * p.x + (m.c1.w - a1) * p.y + (m.c2.w - a2) * p.z + (m.c3.w - a3);
        (m.c0.w * p.x + m.c1.w * p.y + m.c2.w * p.z + m.c3.w) - (a0 * p.x + a1 * p.y + a2 * p.z + a3);
      }
    } else {
      assert e == Float4(m.c0.w + a0, m.c1.w + a1, m.c2.w + a2, m.c3.w + a3);
      calc {
        (m.c0.w + a0) * p.x + (m.c1.w + a1) * p.y + (m.c2.w + a2) * p.z + (m.c3.w + a3);
        (m.c0.w * p.x + m.c1.w * p.y + m.c2.w * p.z + m.c3.w) + (a0 * p.x + a1 * p.y + a2 * p.z + a3);
      }
    }
  }

  datatype Frustum = Frustum(planes: seq<Plane>) {
    predicate Valid() { |planes| == 6 }
  }

  /** `Frustum()`: the planes of the cube `[-1, 1]^3`, each at distance 1 from the origin. */
  function DefaultFrustum(): (f: Frustum)
    ensures f.Valid()
  {
    Frustum([PlaneFromNormalDistance(Float3(-1.0, 0.0, 0.0), 1.0),
             PlaneFromNormalDistance(Float3(1.0, 0.0, 0.0), 1.0),
             PlaneFromNormalDistance(Float3(0.0, 1.0, 0.0), 1.0),
             PlaneFromNormalDistance(Float3(0.0, -1.0, 0.0), 1.0),
             PlaneFromNormalDistance(Float3(0.0, 0.0, 1.0), 1.0),
             PlaneFromNormalDistance(Float3(0.0, 0.0, -1.0), 1.0)])
  }

  /** The planes of `Frustum(viewProj)` before normalisation, in the order RIGHT, LEFT, BOTTOM, TOP, NEAR, FAR. */
  function ViewProjFrustum(m: Mat4): (f: Frustum)
    ensures f.Valid()
  {
    Frustum([GribbHartmann(m, 0, true), GribbHartmann(m, 0, false),
             GribbHartmann(m, 1, false), GribbHartmann(m, 1, true),
             GribbHartmann(m, 2, false), GribbHartmann(m, 2, true)])
  }

  /** One `for (int i = 0; i < 4; ++i) planes[P].equation[i] = ...` loop of `Frustum(viewProj)`. */
  method ExtractPlane(m: Mat4, axis: nat, minus: bool) returns (pl: Plane)
    requires axis < 3
    ensures pl == GribbHartmann(m, axis, minus)
  {
    var eq: seq<real> := [];
    for i := 0 to 4
      invariant |eq| == i
      invariant forall k :: 0 <= k < i ==> eq[k] == Combine(m.Entry(k, 3), m.Entry(k, axis), minus)
    {
      eq := eq + [Combine(m.Entry(i, 3), m.Entry(i, axis), minus)];
    }
    pl := Plane(Float4(eq[0], eq[1], eq[2], eq[3]));
  }

  /** `Frustum(viewProj)` up to the final normalisation of each plane. */
  method FromViewProj(m: Mat4) returns (f: Frustum)
    ensures f.Valid() && f == ViewProjFrustum(m)
  {
    var right := ExtractPlane(m, 0, true);
    var left := ExtractPlane(m, 0, false);
    var bottom := ExtractPlane(m, 1, false);
    var top := ExtractPlane(m, 1, true);
    var near := ExtractPlane(m, 2, false);
    var far := ExtractPlane(m, 2, true);
    f := Frustum([right, left, bottom, top, near, far]);
  }

  ////////////////////////////
  // What each test promises

  /** In front of every plane by more than `PLANE_EPSILON`. */
  ghost predicate PointInside(f: Frustum, p: Float3)
    requires f.Valid()
  {
    forall i :: 0 <= i < 6 ==> f.planes[i].DistanceTo(p) > PLANE_EPSILON
  }

  ghost predicate SphereInside(f: Frustum, c: Float3, radius: real)
    requires f.Valid()
  {
    forall i :: 0 <= i < 6 ==> f.planes[i].DistanceTo(c) >= radius
  }

  ghost predicate SphereTouches(f: Frustum, c: Float3, radius: real)
    requires f.Valid()
  {
    forall i :: 0 <= i < 6 ==> f.planes[i].DistanceTo(c) > -radius
  }

  /** The box of the box tests: centre `c`, extent `size`. */
  function BoxOf(c: Float3, size: Float3): (b: Bounds3D)
    ensures b.lo.Plus(size) == b.hi
  {
    var half := size.Scale(0.5);
    Bounds3D(c.Minus(half), c.Plus(half))
  }

  ghost predicate BoxInside(f: Frustum, c: Float3, size: Float3)
    requires f.Valid()
  {
    var b := BoxOf(c, size);
    forall i :: 0 <= i < 6 ==>
      f.planes[i].DistanceTo(b.GetPositive(f.planes[i].Normal())) >= 0.0 &&
      f.planes[i].DistanceTo(b.GetNegative(f.planes[i].Normal())) >= 0.0
  }

  ghost predicate BoxTouches(f: Frustum, c: Float3, size: Float3)
    requires f.Valid()
  {
    var b := BoxOf(c, size);
    forall i :: 0 <= i < 6 ==> f.planes[i].DistanceTo(b.GetPositive(f.planes[i].Normal())) >= 0.0
  }

  ///////////////////////////////////
  // The tests: loops over the planes

  method ContainsPoint(f: Frustum, p: Float3) returns (r: bool)
    requires f.Valid()
    ensures r == PointInside(f, p)
  {
    for i := 0 to 6
      invariant forall k :: 0 <= k < i ==> f.planes[k].DistanceTo(p) > PLANE_EPSILON
    {
      if f.planes[i].DistanceTo(p) <= PLANE_EPSILON { return false; }
    }
    return true;
  }

  method ContainsSphere(f: Frustum, c: Float3, radius: real) returns (r: bool)
    requires f.Valid()
    ensures r == SphereInside(f, c, radius)
  {
    for i := 0 to 6
      invariant forall k :: 0 <= k < i ==> f.planes[k].DistanceTo(c) >= radius
    {
      if f.planes[i].DistanceTo(c) < radius { return false; }
    }
    return true;
  }

  method IntersectsSphere(f: Frustum, c: Float3, radius: real) returns (r: bool)
    requires f.Valid()
    ensures r == SphereTouches(f, c, radius)
  {
    for i := 0 to 6
      invariant forall k :: 0 <= k < i ==> f.planes[k].DistanceTo(c) > -radius
    {
      if f.planes[i].DistanceTo(c) <= -radius { return false; }
    }
    return true;
  }

  method ContainsBox(f: Frustum, c: Float3, size: Float3) returns (r: bool)
    requires f.Valid()
    ensures r == BoxInside(f, c, size)
  {
    var box := BoxOf(c, size);
    for i := 0 to 6
      invariant forall k :: 0 <= k < i ==>
        f.planes[k].DistanceTo(box.GetPositive(f.planes[k].Normal())) >= 0.0 &&
        f.planes[k].DistanceTo(box.GetNegative(f.planes[k].Normal())) >= 0.0
    {
      var pl := f.planes[i];
      if pl.DistanceTo(box.GetPositive(pl.Normal())) < 0.0 { return false; }
      else if pl.DistanceTo(box.GetNegative(pl.Normal())) < 0.0 { return false; }
    }
    return true;
  }

  method IntersectsBox(f: Frustum, c: Float3, size: Float3) returns (r: bool)
    requires f.Valid()
    ensures r == BoxTouches(f, c, size)
  {
    var box := BoxOf(c, size);
    for i := 0 to 6
      invariant forall k :: 0 <= k < i ==> f.planes[k].DistanceTo(box.GetPositive(f.planes[k].Normal())) >= 0.0
    {
      var pl := f.planes[i];
      if pl.DistanceTo(box.GetPositive(pl.Normal())) < 0.0 { return false; }
    }
    return true;
  }

  ///////////////
  // Properties

  /** A box fully contained is also intersecting. */
  lemma BoxContainsImpliesIntersects(f: Frustum, c: Float3, size: Float3)
    requires f.Valid() && BoxInside(f, c, size)
    ensures BoxTouches(f, c, size)
  {
  }

  /** A sphere of positive radius fully contained is also intersecting. */
  lemma SphereContainsImpliesIntersects(f: Frustum, c: Float3, radius: real)
    requires f.Valid() && radius > 0.0 && SphereInside(f, c, radius)
    ensures SphereTouches(f, c, radius)
  {
  }

  /** At radius 0 a centre lying on a plane passes `contains` and fails `intersects`. */
  lemma SphereZeroRadiusOnPlane()
    ensures SphereInside(DefaultFrustum(), Float3(1.0, 0.0, 0.0), 0.0)
    ensures !SphereTouches(DefaultFrustum(), Float3(1.0, 0.0, 0.0), 0.0)
  {
    var f, c := DefaultFrustum(), Float3(1.0, 0.0, 0.0);
    assert f.planes[RIGHT].DistanceTo(c) == 0.0;
  }

  /** Every point of the box `b` is on the inner side of the plane (or on it). */
  ghost predicate PlaneHoldsBox(pl: Plane, b: Bounds3D) {
    forall x :: b.Contains(x) ==> pl.DistanceTo(x) >= 0.0
  }

  /** Some point of the box `b` is on the inner side of the plane (or on it). */
  ghost predicate PlaneMeetsBox(pl: Plane, b: Bounds3D) {
    exists x :: b.Contains(x) && pl.DistanceTo(x) >= 0.0
  }

  lemma BoxNotEmpty(c: Float3, size: Float3)
    requires LessEq3(Float3(0.0, 0.0, 0.0), size)
    ensures LessEq3(BoxOf(c, size).lo, BoxOf(c, size).hi)
  {
  }

  /** For a box of non-negative size, `contains` holds exactly when the whole box is inside every plane. */
  lemma {:induction false} BoxInsideMeaning(f: Frustum, c: Float3, size: Float3)
    requires f.Valid() && LessEq3(Float3(0.0, 0.0, 0.0), size)
    ensures BoxInside(f, c, size) <==> forall i :: 0 <= i < 6 ==> PlaneHoldsBox(f.planes[i], BoxOf(c, size))
  {
    var b := BoxOf(c, size);
    BoxNotEmpty(c, size);
    if BoxInside(f, c, size) {
      forall i, x | 0 <= i < 6 && b.Contains(x) ensures f.planes[i].DistanceTo(x) >= 0.0 {
        GetNegativeMinimises(b, f.planes[i].Normal(), x);
      }
    }
    if forall i :: 0 <= i < 6 ==> PlaneHoldsBox(f.planes[i], b) {
      forall i | 0 <= i < 6
        ensures f.planes[i].DistanceTo(b.GetPositive(f.planes[i].Normal())) >= 0.0
        ensures f.planes[i].DistanceTo(b.GetNegative(f.planes[i].Normal())) >= 0.0
      {
        assert PlaneHoldsBox(f.planes[i], b);
        assert b.Contains(b.GetPositive(f.planes[i].Normal()));
        assert b.Contains(b.GetNegative(f.planes[i].Normal()));
      }
    }
  }

  /**
   * For a box of non-negative size, `intersects` holds exactly when every plane has some point
   * of the box on its inner side; so a box it rejects lies wholly outside one plane.
   */
  lemma {:induction false} BoxTouchesMeaning(f: Frustum, c: Float3, size: Float3)
    requires f.Valid() && LessEq3(Float3(0.0, 0.0, 0.0), size)
    ensures BoxTouches(f, c, size) <==> forall i :: 0 <= i < 6 ==> PlaneMeetsBox(f.planes[i], BoxOf(c, size))
  {
    var b := BoxOf(c, size);
    BoxNotEmpty(c, size);
    if BoxTouches(f, c, size) {
      forall i | 0 <= i < 6 ensures PlaneMeetsBox(f.planes[i], b) {
        var g := b.GetPositive(f.planes[i].Normal());
        assert b.Contains(g) && f.planes[i].DistanceTo(g) >= 0.0;
      }
    }
    if forall i :: 0 <= i < 6 ==> PlaneMeetsBox(f.planes[i], b) {
      forall i | 0 <= i < 6 ensures f.planes[i].DistanceTo(b.GetPositive(f.planes[i].Normal())) >= 0.0 {
        assert PlaneMeetsBox(f.planes[i], b);
        var x :| b.Contains(x) && f.planes[i].DistanceTo(x) >= 0.0;
        GetPositiveMaximises(b, f.planes[i].Normal(), x);
      }
    }
  }

  /** The default frustum holds exactly the points of the open cube `(-1 + eps, 1 - eps)^3`. */
  lemma DefaultFrustumPoints(p: Float3)
    ensures PointInside(DefaultFrustum(), p) <==>
      -1.0 + PLANE_EPSILON < p.x < 1.0 - PLANE_EPSILON &&
      -1.0 + PLANE_EPSILON < p.y < 1.0 - PLANE_EPSILON &&
      -1.0 + PLANE_EPSILON < p.z < 1.0 - PLANE_EPSILON
  {
    var f := DefaultFrustum();
    assert f.planes[RIGHT].DistanceTo(p) == -p.x + 1.0;
    assert f.planes[LEFT].DistanceTo(p) == p.x + 1.0;
    assert f.planes[BOTTOM].DistanceTo(p) == p.y + 1.0;
    assert f.planes[TOP].DistanceTo(p) == -p.y + 1.0;
    assert f.planes[NEAR].DistanceTo(p) == p.z + 1.0;
    assert f.planes[FAR].DistanceTo(p) == -p.z + 1.0;
  }

  /**
   * A point is inside the extracted frustum exactly when its clip coordinates `(x, y, z, w)`
   * satisfy `-w < x < w`, `-w < y < w`, `-w < z < w`, each with margin `PLANE_EPSILON`.
   */
  lemma {:induction false} ViewProjFrustumPoints(m: Mat4, p: Float3)
    ensures PointInside(ViewProjFrustum(m), p) <==>
      var x, y, z, w := ClipAt(m, p, 0), ClipAt(m, p, 1), ClipAt(m, p, 2), ClipAt(m, p, 3);
      w - x > PLANE_EPSILON && w + x > PLANE_EPSILON &&
      w + y > PLANE_EPSILON && w - y > PLANE_EPSILON &&
      w + z > PLANE_EPSILON && w - z > PLANE_EPSILON
  {
    var f := ViewProjFrustum(m);
    GribbHartmannClip(m, 0, true, p);
    GribbHartmannClip(m, 0, false, p);
    GribbHartmannClip(m, 1, false, p);
    GribbHartmannClip(m, 1, true, p);
    GribbHartmannClip(m, 2, false, p);
    GribbHartmannClip(m, 2, true, p);
    assert f.planes[RIGHT] == GribbHartmann(m, 0, true);
    assert f.planes[LEFT] == GribbHartmann(m, 0, false);
    assert f.planes[BOTTOM] == GribbHartmann(m, 1, false);
    assert f.planes[TOP] == GribbHartmann(m, 1, true);
    assert f.planes[NEAR] == GribbHartmann(m, 2, false);
    assert f.planes[FAR] == GribbHartmann(m, 2, true);
  }
}
