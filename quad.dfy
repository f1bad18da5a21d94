/** Ray/parallelogram intersection (src/quad.h). */
module Quads {
  import opened Geometry
  import opened Hittable
  import Bounds

  /** The geometry a quad caches at construction: the corner `q`, the edges
      `u` and `v`, the vector `w = n / (n.n)` with `n = u x v`, the unit
      normal and the plane constant `d`. */
  datatype QuadShape = QuadShape(q: Vec3, u: Vec3, v: Vec3, w: Vec3, normal: Vec3, d: real)

  /** The relations the constructor establishes between the cached fields
      (the normal itself depends on the square root and is not constrained). */
  predicate Cached(s: QuadShape) {
    var n := Cross(s.u, s.v);
    Dot(n, n) != 0.0 && s.w == Scale(n, 1.0 / Dot(n, n)) && s.d == Dot(s.normal, s.q)
  }

  /** `|dot(normal, dir)|` below this is treated as a ray parallel to the plane. */
  const ParallelEpsilon: real := 0.00000001

  function Abs(x: real): real { if x < 0.0 then -x else x }

  /** The two formulas for the first planar coordinate: quad.h computes
      `w . (p x w)`; the formula that recovers the coordinate along `u` is `w . (p x v)`. */
  datatype AlphaRule = AsWritten | Intended

  function Alpha(rule: AlphaRule, s: QuadShape, hitvec: Vec3): real {
    match rule
    case AsWritten => Dot(s.w, Cross(hitvec, s.w))
    case Intended => Dot(s.w, Cross(hitvec, s.v))
  }

  function Beta(s: QuadShape, hitvec: Vec3): real { Dot(s.w, Cross(s.u, hitvec)) }

  /** quad::is_interior's test: both coordinates in the closed unit interval. */
  predicate Interior(alpha: real, beta: real) {
    Contains(Interval(0.0, 1.0), alpha) && Contains(Interval(0.0, 1.0), beta)
  }

  /** The ray parameter where `r` meets the plane `dot(normal, p) == d`. */
  function PlaneParameter(s: QuadShape, r: Ray): real
    requires Dot(s.normal, r.direction) != 0.0
  {
    (s.d - Dot(s.normal, r.origin)) / Dot(s.normal, r.direction)
  }

  /** What quad::hit accepts: the parameter, the point and the planar coordinates. */
  datatype QuadHit = QuadHit(t: real, p: Vec3, alpha: real, beta: real)

  /** The decision of quad::hit with the given alpha formula: a ray almost
      parallel to the plane is rejected, then a plane parameter outside the
      closed window, then a point whose coordinates are not both in `[0, 1]`. */
  function Intersect(rule: AlphaRule, s: QuadShape, r: Ray, rayT: Interval): (res: Option<QuadHit>)
    ensures Abs(Dot(s.normal, r.direction)) < ParallelEpsilon ==> res == None
    ensures res.Some? <==>
      && Abs(Dot(s.normal, r.direction)) >= ParallelEpsilon
      && Contains(rayT, PlaneParameter(s, r))
      && var p := At(r, PlaneParameter(s, r));
         Interior(Alpha(rule, s, Sub(p, s.q)), Beta(s, Sub(p, s.q)))
    ensures res.Some? ==>
      && res.value.t == PlaneParameter(s, r) && Contains(rayT, res.value.t)
      && res.value.p == At(r, res.value.t)
      && res.value.alpha == Alpha(rule, s, Sub(res.value.p, s.q))
      && res.value.beta == Beta(s, Sub(res.value.p, s.q))
      && 0.0 <= res.value.alpha <= 1.0 && 0.0 <= res.value.beta <= 1.0
  {
    var denom := Dot(s.normal, r.direction);
    if Abs(denom) < ParallelEpsilon then None
    else
      var t := PlaneParameter(s, r);
      if !Contains(rayT, t) then None
      else
        var p := At(r, t);
        var alpha := Alpha(rule, s, Sub(p, s.q));
        var beta := Beta(s, Sub(p, s.q));
        if !Interior(alpha, beta) then None
        else Some(QuadHit(t, p, alpha, beta))
  }

  /** quad: a parallelogram with corner `q` and edges `u`, `v`. */
  class Quad {
    var q: Vec3
    var u: Vec3
    var v: Vec3
    var w: Vec3
    var mat: MaterialRef
    var bbox: Bounds.Aabb
    var normal: Vec3
    var d: real

    function Shape(): QuadShape
      reads this
    {
      QuadShape(q, u, v, w, normal, d)
    }

    /** quad(Q, u, v, mat): caches `normal = unit_vector(n)` (with `sqrt`
        standing for the square root unit_vector takes), `D = normal . Q`,
        `w = n / (n.n)` and the bounding box, where `n = u x v`. */
    constructor (q0: Vec3, u0: Vec3, v0: Vec3, m: MaterialRef, sqrt: real -> real)
      requires LengthSquared(Cross(u0, v0)) != 0.0 && sqrt(LengthSquared(Cross(u0, v0))) != 0.0
      ensures q == q0 && u == u0 && v == v0 && mat == m
      ensures normal == Scale(Cross(u0, v0), 1.0 / sqrt(LengthSquared(Cross(u0, v0))))
      ensures d == Dot(normal, q0)
      ensures w == Scale(Cross(u0, v0), 1.0 / Dot(Cross(u0, v0), Cross(u0, v0)))
      ensures Cached(Shape())
      ensures bbox == CornerBox(q0, u0, v0)
    {
      q, u, v, mat := q0, u0, v0, m;
      var n := Cross(u0, v0);
      var unit := Scale(n, 1.0 / sqrt(LengthSquared(n)));
      normal := unit;
      d := Dot(unit, q0);
      w := Scale(n, 1.0 / Dot(n, n));
      new;
      SetBoundingBox();
    }

    /** quad::set_bounding_box: the union of the boxes spanned by the two
        diagonals. Nothing else changes. */
    method SetBoundingBox()
      modifies this
      ensures bbox == CornerBox(q, u, v)
      ensures Shape() == old(Shape()) && mat == old(mat)
    {
      var diagonal1 := Bounds.FromPoints(q, Add(Add(q, u), v));
      var diagonal2 := Bounds.FromPoints(Add(q, u), Add(q, v));
      bbox := Bounds.Enclose(diagonal1, diagonal2);
    }

    /** quad::is_interior: accepts exactly when both coordinates lie in the
        closed unit interval, and then records them as the texture
        coordinates; a rejection leaves the record untouched. */
    method IsInterior(alpha: real, beta: real, rec: HitRecord) returns (inside: bool)
      modifies rec
      ensures inside == Interior(alpha, beta)
      ensures inside ==> rec.Data() == old(rec.Data()).(u := alpha, v := beta)
      ensures !inside ==> rec.Data() == old(rec.Data())
    {
      var unitInterval := Interval(0.0, 1.0);
      if !Contains(unitInterval, alpha) || !Contains(unitInterval, beta) {
        return false;
      }
      rec.u := alpha;
      rec.v := beta;
      return true;
    }

    /** quad::hit: accepts exactly what `Intersect(AsWritten, ...)` accepts,
        and then stores the parameter, the point, the planar coordinates, the
        material and the normal oriented against the ray; any rejection
        leaves the record untouched. */
    method Hit(r: Ray, rayT: Interval, rec: HitRecord) returns (hit: bool)
      modifies rec
      ensures var res := Intersect(AsWritten, Shape(), r, rayT);
        hit == res.Some? &&
        (hit ==> rec.Data() == HitData(res.value.p, FacingNormal(r.direction, normal), res.value.t,
                                        Dot(r.direction, normal) < 0.0,
                                        res.value.alpha, res.value.beta, mat))
      ensures !hit ==> rec.Data() == old(rec.Data())
    {
      var denom := Dot(normal, r.direction);
      if Abs(denom) < ParallelEpsilon {
        return false;
      }

      var t := (d - Dot(normal, r.origin)) / denom;
      assert t == PlaneParameter(Shape(), r);

      if !Contains(rayT, t) {
        return false;
      }

      var intersection := At(r, t);
      var planarHitptVector := Sub(intersection, q);
      var alpha := Dot(w, Cross(planarHitptVector, w));
      var beta := Dot(w, Cross(u, planarHitptVector));

      hit := IsInterior(alpha, beta, rec);
      if !hit {
        return false;
      }

      rec.t := t;
      rec.p := intersection;
      rec.mat := mat;

      rec.SetFaceNormal(r, normal);
      return true;
    }
  }

  /** The box of set_bounding_box: the union of the boxes spanned by the
      diagonals `q .. q+u+v` and `q+u .. q+v` (the union constructor itself
      is not shown; `Bounds.Enclose` stands for it). */
  function CornerBox(q: Vec3, u: Vec3, v: Vec3): (box: Bounds.Aabb)
    ensures Bounds.InBox(box, q) && Bounds.InBox(box, Add(Add(q, u), v))
    ensures Bounds.InBox(box, Add(q, u)) && Bounds.InBox(box, Add(q, v))
  {
    var diagonal1 := Bounds.FromPoints(q, Add(Add(q, u), v));
    var diagonal2 := Bounds.FromPoints(Add(q, u), Add(q, v));
    Bounds.FromPointsContainsCorners(q, Add(Add(q, u), v));
    Bounds.FromPointsContainsCorners(Add(q, u), Add(q, v));
    Bounds.Enclose(diagonal1, diagonal2)
  }

  /** `n . (o + t*dir) == n . o + t * (n . dir)`. */
  lemma DotAt(n: Vec3, r: Ray, t: real)
    ensures Dot(n, At(r, t)) == Dot(n, r.origin) + t * Dot(n, r.direction)
  {
    var o, e := r.origin, r.direction;
    assert n.x * (o.x + t * e.x) == n.x * o.x + t * (n.x * e.x);
    assert n.y * (o.y + t * e.y) == n.y * o.y + t * (n.y * e.y);
    assert n.z * (o.z + t * e.z) == n.z * o.z + t * (n.z * e.z);
  }

  lemma QuotientTimesDivisor(x: real, y: real)
    requires y != 0.0
    ensures (x / y) * y == x
  {
  }

  /** The accepted point lies on the quad's plane: `normal . p == D`, so
      `p - Q` is orthogonal to the normal. */
  lemma HitOnPlane(rule: AlphaRule, s: QuadShape, r: Ray, rayT: Interval)
    requires Cached(s)
    requires Intersect(rule, s, r, rayT).Some?
    ensures Dot(s.normal, Intersect(rule, s, r, rayT).value.p) == s.d
    ensures Dot(s.normal, Sub(Intersect(rule, s, r, rayT).value.p, s.q)) == 0.0
  {
    var p := Intersect(rule, s, r, rayT).value.p;
    PlanePoint(s, r);
    DotSub(s.normal, p, s.q);
  }

  /** The point at the plane parameter lies on the plane `normal . p == d`. */
  lemma PlanePoint(s: QuadShape, r: Ray)
    requires Dot(s.normal, r.direction) != 0.0
    ensures Dot(s.normal, At(r, PlaneParameter(s, r))) == s.d
  {
    QuotientTimesDivisor(s.d - Dot(s.normal, r.origin), Dot(s.normal, r.direction));
    DotAt(s.normal, r, PlaneParameter(s, r));
  }

  /** `n . (p - q) == n . p - n . q`. */
  lemma DotSub(n: Vec3, p: Vec3, q: Vec3)
    ensures Dot(n, Sub(p, q)) == Dot(n, p) - Dot(n, q)
  {
    assert n.x * (p.x - q.x) == n.x * p.x - n.x * q.x;
    assert n.y * (p.y - q.y) == n.y * p.y - n.y * q.y;
    assert n.z * (p.z - q.z) == n.z * p.z - n.z * q.z;
  }

  /** The as-written alpha `w . (p x w)` is zero for every shape and point. */
  lemma AsWrittenAlphaZero(s: QuadShape, hitvec: Vec3)
    ensures Alpha(AsWritten, s, hitvec) == 0.0
  {
    CrossOrthogonalSecond(hitvec, s.w);
  }

  /** Hence the as-written interior test only checks `beta`: quad::hit
      accepts whenever the ray is not parallel, the plane parameter is in the
      window and `beta` is in `[0, 1]`, wherever the point lies along `u`. */
  lemma AsWrittenIgnoresAlpha(s: QuadShape, r: Ray, rayT: Interval)
    ensures Intersect(AsWritten, s, r, rayT).Some? <==>
      && Abs(Dot(s.normal, r.direction)) >= ParallelEpsilon
      && Contains(rayT, PlaneParameter(s, r))
      && 0.0 <= Beta(s, Sub(At(r, PlaneParameter(s, r)), s.q)) <= 1.0
    ensures Intersect(AsWritten, s, r, rayT).Some? ==> Intersect(AsWritten, s, r, rayT).value.alpha == 0.0
  {
    if Dot(s.normal, r.direction) != 0.0 {
      AsWrittenAlphaZero(s, Sub(At(r, PlaneParameter(s, r)), s.q));
    }
  }

  /** For any quad whose fields are those its constructor caches, a ray
      that meets the plane inside the window at `Q + a*u + b*v` with `b` in
      `[0, 1]` is accepted as written, with `alpha == 0` and `beta == b`,
      whatever `a` is; with the intended alpha it is accepted exactly when
      `a` is in `[0, 1]` as well. So as written every point of the strip
      along `u` through the quad is reported as a hit. */
  lemma AsWrittenAcceptsStrip(s: QuadShape, r: Ray, rayT: Interval, a: real, b: real)
    requires Cached(s)
    requires Abs(Dot(s.normal, r.direction)) >= ParallelEpsilon
    requires Contains(rayT, PlaneParameter(s, r))
    requires Sub(At(r, PlaneParameter(s, r)), s.q) == Add(Scale(s.u, a), Scale(s.v, b))
    requires 0.0 <= b <= 1.0
    ensures Intersect(AsWritten, s, r, rayT).Some?
    ensures Intersect(AsWritten, s, r, rayT).value.alpha == 0.0
    ensures Intersect(AsWritten, s, r, rayT).value.beta == b
    ensures Intersect(Intended, s, r, rayT).Some? <==> 0.0 <= a <= 1.0
  {
    var hitvec := Sub(At(r, PlaneParameter(s, r)), s.q);
    AsWrittenAlphaZero(s, hitvec);
    IntendedCoordinates(s, a, b);
  }

  /** The unit square `Q = 0`, `u = x`, `v = y`, with the unit normal, `D`
      and `w` its constructor caches. */
  const UnitSquare: QuadShape := QuadShape(Vec3(0.0, 0.0, 0.0), Vec3(1.0, 0.0, 0.0), Vec3(0.0, 1.0, 0.0),
                                           Vec3(0.0, 0.0, 1.0), Vec3(0.0, 0.0, 1.0), 0.0)

  /** The ray from `(a, b, 1)` straight down onto the unit square's plane. */
  function DownRay(a: real, b: real): Ray { Ray(Vec3(a, b, 1.0), Vec3(0.0, 0.0, -1.0)) }

  /** The unit square's fields are those its constructor caches, with an
      exact square root. */
  lemma UnitSquareCached()
    ensures Cached(UnitSquare) && UnitSquare.normal == Cross(UnitSquare.u, UnitSquare.v)
  {
    UnitSquareCross();
    UnitSquareUnitW();
    UnitCrossCached(UnitSquare);
  }

  /** `x x y == z`, the unit square's cached `w` and normal. */
  lemma UnitSquareCross()
    ensures Cross(UnitSquare.u, UnitSquare.v) == UnitSquare.w == UnitSquare.normal
  {
  }

  /** The unit square's `w` is a unit vector and its `D` is `normal . Q`. */
  lemma UnitSquareUnitW()
    ensures Dot(UnitSquare.w, UnitSquare.w) == 1.0 && UnitSquare.d == Dot(UnitSquare.normal, UnitSquare.q)
  {
  }

  /** A shape whose `u x v` is a unit vector stored as both `w` and the
      normal is cached, whatever the particular vectors. */
  lemma UnitCrossCached(s: QuadShape)
    requires Cross(s.u, s.v) == s.w == s.normal && Dot(s.w, s.w) == 1.0 && s.d == Dot(s.normal, s.q)
    ensures Cached(s)
  {
    assert Scale(s.w, 1.0 / 1.0) == s.w;
  }

  /** The ray from `(a, b, 1)` meets the unit square's plane at `t = 1`, at
      planar coordinates `(a, b)`. With `a = 1.5` and `b = 0.5` (and the
      window `[0, 10]`) this meets every requirement of `AsWrittenAcceptsStrip`:
      the point `(1.5, 0.5, 0)`, outside the square, is reported as a hit as
      written and rejected with the intended alpha. */
  lemma DownRayMeetsPlane(a: real, b: real)
    ensures Dot(UnitSquare.normal, DownRay(a, b).direction) == -1.0
    ensures PlaneParameter(UnitSquare, DownRay(a, b)) == 1.0
    ensures Sub(At(DownRay(a, b), 1.0), UnitSquare.q)
              == Add(Scale(UnitSquare.u, a), Scale(UnitSquare.v, b))
  {
  }

  /** `(a*u + b*v) x v == a * (u x v)`. */
  lemma CrossFirstCoordinate(u: Vec3, v: Vec3, a: real, b: real)
    ensures Cross(Add(Scale(u, a), Scale(v, b)), v) == Scale(Cross(u, v), a)
  {
    CrossAddLeft(Scale(u, a), Scale(v, b), v);
    CrossScaleLeft(u, a, v);
    CrossScaleLeft(v, b, v);
    CrossSelf(v);
  }

  /** `u x (a*u + b*v) == b * (u x v)`. */
  lemma CrossSecondCoordinate(u: Vec3, v: Vec3, a: real, b: real)
    ensures Cross(u, Add(Scale(u, a), Scale(v, b))) == Scale(Cross(u, v), b)
  {
    CrossAddRight(u, Scale(u, a), Scale(v, b));
    CrossScaleRight(u, u, a);
    CrossScaleRight(u, v, b);
    CrossSelf(u);
  }

  lemma CrossAddLeft(p: Vec3, q: Vec3, v: Vec3)
    ensures Cross(Add(p, q), v) == Add(Cross(p, v), Cross(q, v))
  {
  }

  lemma CrossAddRight(u: Vec3, p: Vec3, q: Vec3)
    ensures Cross(u, Add(p, q)) == Add(Cross(u, p), Cross(u, q))
  {
  }

  lemma CrossScaleLeft(u: Vec3, a: real, v: Vec3)
    ensures Cross(Scale(u, a), v) == Scale(Cross(u, v), a)
  {
    ScaledCrossLeft(u, a, v);
  }

  lemma CrossScaleRight(u: Vec3, v: Vec3, b: real)
    ensures Cross(u, Scale(v, b)) == Scale(Cross(u, v), b)
  {
    ScaledCrossRight(u, v, b);
  }

  /** CrossScaleLeft coordinate by coordinate. */
  lemma ScaledCrossLeft(u: Vec3, a: real, v: Vec3)
    ensures Cross(Scale(u, a), v).x == a * Cross(u, v).x
    ensures Cross(Scale(u, a), v).y == a * Cross(u, v).y
    ensures Cross(Scale(u, a), v).z == a * Cross(u, v).z
  {
    ScaledDifferenceLeft(a, u.y, v.z, u.z, v.y);
    ScaledDifferenceLeft(a, u.z, v.x, u.x, v.z);
    ScaledDifferenceLeft(a, u.x, v.y, u.y, v.x);
  }

  /** CrossScaleRight coordinate by coordinate. */
  lemma ScaledCrossRight(u: Vec3, v: Vec3, b: real)
    ensures Cross(u, Scale(v, b)).x == b * Cross(u, v).x
    ensures Cross(u, Scale(v, b)).y == b * Cross(u, v).y
    ensures Cross(u, Scale(v, b)).z == b * Cross(u, v).z
  {
    ScaledDifferenceRight(b, u.y, v.z, u.z, v.y);
    ScaledDifferenceRight(b, u.z, v.x, u.x, v.z);
    ScaledDifferenceRight(b, u.x, v.y, u.y, v.x);
  }

  /** One coordinate of CrossScaleLeft: `(k*p)*q - (k*r)*s == k*(p*q - r*s)`. */
  lemma ScaledDifferenceLeft(k: real, p: real, q: real, r: real, s: real)
    ensures (k * p) * q - (k * r) * s == k * (p * q - r * s)
  {
  }

  /** One coordinate of CrossScaleRight: `p*(k*q) - r*(k*s) == k*(p*q - r*s)`. */
  lemma ScaledDifferenceRight(k: real, p: real, q: real, r: real, s: real)
    ensures p * (k * q) - r * (k * s) == k * (p * q - r * s)
  {
  }

  lemma CrossSelf(v: Vec3)
    ensures Cross(v, v) == Vec3(0.0, 0.0, 0.0)
  {
  }

  /** `(n / (n.n)) . (c * n) == c` for a nonzero `n`. */
  lemma ProjectScaled(n: Vec3, c: real)
    requires Dot(n, n) != 0.0
    ensures Dot(Scale(n, 1.0 / Dot(n, n)), Scale(n, c)) == c
  {
    var k := 1.0 / Dot(n, n);
    assert Dot(Scale(n, k), Scale(n, c)) == k * c * Dot(n, n);
    assert k * Dot(n, n) == 1.0;
  }

  /** With the cached `w`, the intended alpha and beta recover the planar
      coordinates: for `p - Q == a*u + b*v` they are `a` and `b`. */
  lemma IntendedCoordinates(s: QuadShape, a: real, b: real)
    requires Cached(s)
    ensures var hitvec := Add(Scale(s.u, a), Scale(s.v, b));
      Alpha(Intended, s, hitvec) == a && Beta(s, hitvec) == b
  {
    var n := Cross(s.u, s.v);
    CrossFirstCoordinate(s.u, s.v, a, b);
    CrossSecondCoordinate(s.u, s.v, a, b);
    ProjectScaled(n, a);
    ProjectScaled(n, b);
  }

  /** With the intended alpha, a point `Q + a*u + b*v` of the plane passes the
      interior test exactly when it lies in the parallelogram. */
  lemma IntendedInteriorIsParallelogram(s: QuadShape, a: real, b: real)
    requires Cached(s)
    ensures var hitvec := Add(Scale(s.u, a), Scale(s.v, b));
      Interior(Alpha(Intended, s, hitvec), Beta(s, hitvec)) <==> 0.0 <= a <= 1.0 && 0.0 <= b <= 1.0
  {
    IntendedCoordinates(s, a, b);
  }
}
