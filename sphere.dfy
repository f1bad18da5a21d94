/** Ray/sphere intersection (src/sphere.h). */
module Spheres {
  import opened Geometry
  import opened Hittable

  datatype Sphere = Sphere(center: Vec3, radius: real)

  /** sphere(center, radius): the stored radius is `std::fmax(0, radius)`. */
  function MakeSphere(center: Vec3, radius: real): (s: Sphere)
    ensures s.center == center && s.radius >= 0.0
    ensures radius >= 0.0 ==> s.radius == radius
    ensures radius < 0.0 ==> s.radius == 0.0
  {
    Sphere(center, Max(0.0, radius))
  }

  /** The coefficients of `a*t*t - 2*h*t + c == 0` (the half-b form), whose
      roots are the parameters where `r` meets the surface of `s`. */
  datatype Quadratic = Quadratic(a: real, h: real, c: real)

  function Coefficients(s: Sphere, r: Ray): Quadratic {
    var oc := Sub(s.center, r.origin);
    Quadratic(LengthSquared(r.direction), Dot(r.direction, oc), LengthSquared(oc) - s.radius * s.radius)
  }

  function Discriminant(q: Quadratic): real { q.h * q.h - q.a * q.c }

  /** The near root `(h - sqrtd) / a` and the far root `(h + sqrtd) / a`. */
  function NearRoot(q: Quadratic, sqrtd: real): real requires q.a != 0.0 { (q.h - sqrtd) / q.a }

  function FarRoot(q: Quadratic, sqrtd: real): real requires q.a != 0.0 { (q.h + sqrtd) / q.a }

  /** The root sphere::hit accepts, if any, given the value `sqrt` returns for
      the discriminant: no root for a negative discriminant; otherwise the
      near root when it lies strictly inside `(tMin, tMax)`, else the far root
      when that does, else none. */
  function SelectRoot(s: Sphere, r: Ray, tMin: real, tMax: real, sqrt: real -> real): (root: Option<real>)
    requires LengthSquared(r.direction) != 0.0
    ensures var q := Coefficients(s, r); Discriminant(q) < 0.0 ==> root == None
    ensures var q := Coefficients(s, r); var near := NearRoot(q, sqrt(Discriminant(q)));
      Discriminant(q) >= 0.0 && tMin < near < tMax ==> root == Some(near)
    ensures var q := Coefficients(s, r); var near := NearRoot(q, sqrt(Discriminant(q)));
      var far := FarRoot(q, sqrt(Discriminant(q)));
      Discriminant(q) >= 0.0 && !(tMin < near < tMax) ==>
        root == (if tMin < far < tMax then Some(far) else None)
    ensures root.Some? ==> tMin < root.value < tMax
  {
    var q := Coefficients(s, r);
    var discriminant := Discriminant(q);
    if discriminant < 0.0 then None
    else
      var sqrtd := sqrt(discriminant);
      var near := NearRoot(q, sqrtd);
      if near <= tMin || tMax <= near then
        var far := FarRoot(q, sqrtd);
        if far <= tMin || tMax <= far then None else Some(far)
      else Some(near)
  }

  /** The outward normal `(p - center) / radius` at the point `p`. */
  function OutwardNormal(s: Sphere, p: Vec3): Vec3
    requires s.radius > 0.0
  {
    Scale(Sub(p, s.center), 1.0 / s.radius)
  }

  /** sphere::hit. On success the record holds the accepted root, the point
      of the ray there and the outward normal oriented against the ray; on
      any false return the record is untouched. */
  method Hit(s: Sphere, r: Ray, rayTMin: real, rayTMax: real, sqrt: real -> real, rec: HitRecord)
    returns (hit: bool)
    requires LengthSquared(r.direction) != 0.0 && s.radius > 0.0
    modifies rec
    ensures var root := SelectRoot(s, r, rayTMin, rayTMax, sqrt);
      hit == root.Some? &&
      (hit ==> && rec.t == root.value
               && rec.p == At(r, root.value)
               && rec.frontFace == (Dot(r.direction, OutwardNormal(s, rec.p)) < 0.0)
               && rec.normal == FacingNormal(r.direction, OutwardNormal(s, rec.p))
               && rec.u == old(rec.u) && rec.v == old(rec.v) && rec.mat == old(rec.mat))
    ensures !hit ==> rec.Data() == old(rec.Data())
  {
    var oc := Sub(s.center, r.origin);
    var a := LengthSquared(r.direction);
    var h := Dot(r.direction, oc);
    var c := LengthSquared(oc) - s.radius * s.radius;
    ghost var q := Quadratic(a, h, c);
    assert q == Coefficients(s, r);
    var discriminant := h * h - a * c;
    assert discriminant == Discriminant(q);
    if discriminant < 0.0 {
      return false;
    }
    var sqrtd := sqrt(discriminant);

    var root := (h - sqrtd) / a;
    assert root == NearRoot(q, sqrtd);
    if root <= rayTMin || rayTMax <= root {
      root := (h + sqrtd) / a;
      assert root == FarRoot(q, sqrtd);
      if root <= rayTMin || rayTMax <= root {
        return false;
      }
    }
    assert SelectRoot(s, r, rayTMin, rayTMax, sqrt) == Some(root);
    rec.t := root;
    rec.p := At(r, rec.t);
    var outwardNormal := Scale(Sub(rec.p, s.center), 1.0 / s.radius);
    rec.SetFaceNormal(r, outwardNormal);
    return true;
  }

  /** With an exact square root, an accepted root is a parameter where the
      ray meets the surface, `|O + tD - C|^2 == radius^2`, and the outward
      normal there has unit length. */
  lemma AcceptedRootOnSphere(s: Sphere, r: Ray, tMin: real, tMax: real, sqrt: real -> real)
    requires LengthSquared(r.direction) != 0.0
    requires var d := Discriminant(Coefficients(s, r)); d >= 0.0 ==> sqrt(d) * sqrt(d) == d
    requires SelectRoot(s, r, tMin, tMax, sqrt).Some?
    ensures var t := SelectRoot(s, r, tMin, tMax, sqrt).value;
      LengthSquared(Sub(At(r, t), s.center)) == s.radius * s.radius
    ensures var t := SelectRoot(s, r, tMin, tMax, sqrt).value;
      s.radius > 0.0 ==> LengthSquared(OutwardNormal(s, At(r, t))) == 1.0
  {
    var q := Coefficients(s, r);
    var d := Discriminant(q);
    var t := SelectRoot(s, r, tMin, tMax, sqrt).value;
    assert d >= 0.0;
    assert t == NearRoot(q, sqrt(d)) || t == FarRoot(q, sqrt(d));
    RootOnSphere(s, r, sqrt(d), t);
    if s.radius > 0.0 {
      UnitOutwardNormal(s, At(r, t));
    }
  }

  /** With a non-negative square root, the accepted root is the nearest of
      the two roots that lie strictly inside the window. */
  lemma AcceptedRootIsNearest(s: Sphere, r: Ray, tMin: real, tMax: real, sqrt: real -> real)
    requires LengthSquared(r.direction) > 0.0
    requires var d := Discriminant(Coefficients(s, r)); d >= 0.0 ==> sqrt(d) >= 0.0
    requires SelectRoot(s, r, tMin, tMax, sqrt).Some?
    ensures var q := Coefficients(s, r); var sqrtd := sqrt(Discriminant(q));
      var t := SelectRoot(s, r, tMin, tMax, sqrt).value;
      && (t == NearRoot(q, sqrtd) || t == FarRoot(q, sqrtd))
      && (tMin < NearRoot(q, sqrtd) < tMax ==> t <= NearRoot(q, sqrtd))
      && (tMin < FarRoot(q, sqrtd) < tMax ==> t <= FarRoot(q, sqrtd))
  {
    var q := Coefficients(s, r);
    var sqrtd := sqrt(Discriminant(q));
    QuotientMonotone(q.h - sqrtd, q.h + sqrtd, q.a);
  }

  lemma QuotientMonotone(x: real, y: real, a: real)
    requires a > 0.0 && x <= y
    ensures x / a <= y / a
  {
    assert y / a - x / a == (y - x) / a;
  }

  /** Either root of the quadratic, with `sqrtd` an exact square root of the
      discriminant, is a parameter where the ray meets the surface. */
  lemma RootOnSphere(s: Sphere, r: Ray, sqrtd: real, t: real)
    requires Coefficients(s, r).a != 0.0
    requires sqrtd * sqrtd == Discriminant(Coefficients(s, r))
    requires t == NearRoot(Coefficients(s, r), sqrtd) || t == FarRoot(Coefficients(s, r), sqrtd)
    ensures LengthSquared(Sub(At(r, t), s.center)) == s.radius * s.radius
  {
    var q := Coefficients(s, r);
    EitherRootSatisfies(q.a, q.h, q.c, sqrtd, t);
    DistanceExpansion(s, r, q, t);
  }

  /** A point at distance `radius` from the centre has a unit outward normal. */
  lemma UnitOutwardNormal(s: Sphere, p: Vec3)
    requires s.radius > 0.0
    requires LengthSquared(Sub(p, s.center)) == s.radius * s.radius
    ensures LengthSquared(OutwardNormal(s, p)) == 1.0
  {
    var k := 1.0 / s.radius;
    ScaleLengthSquared(Sub(p, s.center), k);
    assert k * s.radius == 1.0;
    assert k * k * (s.radius * s.radius) == (k * s.radius) * (k * s.radius);
  }

  /** `|O + tD - C|^2 == a*t*t - 2*h*t + c + radius^2` for the coefficients
      `a`, `h`, `c` of the sphere and the ray. */
  lemma DistanceExpansion(s: Sphere, r: Ray, q: Quadratic, t: real)
    requires q == Coefficients(s, r)
    ensures LengthSquared(Sub(At(r, t), s.center)) == q.a * t * t - 2.0 * q.h * t + q.c + s.radius * s.radius
  {
    var d, oc := r.direction, Sub(s.center, r.origin);
    var v := Vec3(t * d.x - oc.x, t * d.y - oc.y, t * d.z - oc.z);
    assert Sub(At(r, t), s.center) == v by { OffsetOfPoint(r, t, s.center, d, oc); }
    assert LengthSquared(v) == q.a * t * t - 2.0 * q.h * t + q.c + s.radius * s.radius by {
      OffsetExpansion(t, d, oc, q.a, q.h, q.c, s.radius * s.radius);
    }
  }

  /** `O + tD - C == tD - (C - O)`, coordinate by coordinate. */
  lemma OffsetOfPoint(r: Ray, t: real, center: Vec3, d: Vec3, oc: Vec3)
    requires d == r.direction && oc == Sub(center, r.origin)
    ensures Sub(At(r, t), center) == Vec3(t * d.x - oc.x, t * d.y - oc.y, t * d.z - oc.z)
  {
  }

  /** The expansion of DistanceExpansion, coordinate by coordinate, with
      `a = d.d`, `h = d.o` and `c = o.o - rr`. */
  lemma OffsetExpansion(t: real, d: Vec3, o: Vec3, a: real, h: real, c: real, rr: real)
    requires a == LengthSquared(d) && h == Dot(d, o) && c == LengthSquared(o) - rr
    ensures LengthSquared(Vec3(t * d.x - o.x, t * d.y - o.y, t * d.z - o.z)) == a * t * t - 2.0 * h * t + c + rr
  {
    SquaredOffset(t, d.x, o.x);
    SquaredOffset(t, d.y, o.y);
    SquaredOffset(t, d.z, o.z);
    SumTimes(d.x * d.x, d.y * d.y, d.z * d.z, t);
    SumTimes(d.x * d.x * t, d.y * d.y * t, d.z * d.z * t, t);
    SumTimes(d.x * o.x, d.y * o.y, d.z * o.z, t);
  }

  /** `(p + q + s) * k == p*k + q*k + s*k`. */
  lemma SumTimes(p: real, q: real, s: real, k: real)
    ensures (p + q + s) * k == p * k + q * k + s * k
  {
  }

  /** `(t*d - o)^2 == d*d*t*t - 2*(d*o)*t + o*o`. */
  lemma SquaredOffset(t: real, d: real, o: real)
    ensures (t * d - o) * (t * d - o) == d * d * t * t - 2.0 * (d * o) * t + o * o
  {
  }

  /** Both `(h - sqrtd)/a` and `(h + sqrtd)/a`, with `sqrtd*sqrtd` the
      discriminant, solve `a*t*t - 2*h*t + c == 0`. */
  lemma EitherRootSatisfies(a: real, h: real, c: real, sqrtd: real, t: real)
    requires a != 0.0 && sqrtd * sqrtd == h * h - a * c
    requires t == (h - sqrtd) / a || t == (h + sqrtd) / a
    ensures a * t * t - 2.0 * h * t == -c
  {
    if t == (h - sqrtd) / a {
      assert (-sqrtd) * (-sqrtd) == sqrtd * sqrtd;
      RootSatisfies(a, h, c, -sqrtd, t);
    } else {
      RootSatisfies(a, h, c, sqrtd, t);
    }
  }

  /** A root `t` with `t*a == h + e` and `e*e == h*h - a*c` satisfies `a*t*t - 2*h*t == -c`. */
  lemma RootSatisfies(a: real, h: real, c: real, e: real, t: real)
    requires a != 0.0 && e * e == h * h - a * c
    requires t == (h + e) / a
    ensures a * t * t - 2.0 * h * t == -c
  {
    var ta := t * a;
    assert ta == h + e;
    assert a * (a * t * t - 2.0 * h * t) == ta * ta - 2.0 * h * ta;
    assert ta * ta - 2.0 * h * ta == e * e - h * h;
    assert a * (a * t * t - 2.0 * h * t) == a * -c;
  }

  /** Scaling by `k` scales the squared length by `k*k`. */
  lemma ScaleLengthSquared(v: Vec3, k: real)
    ensures LengthSquared(Scale(v, k)) == k * k * LengthSquared(v)
  {
  }

  /** A ray fired along an axis through the centre of a sphere of radius `rad`
      at the origin, from distance `d > rad`, is accepted at `d - rad` when the
      window is `(0, d + rad + 1)`: the near root wins over the far root `d + rad`. */
  lemma ThroughCentreTakesNearRoot(rad: real, d: real, sqrt: real -> real)
    requires 0.0 < rad < d
    requires sqrt(rad * rad) == rad
    ensures SelectRoot(Sphere(Vec3(0.0, 0.0, 0.0), rad), Ray(Vec3(0.0, 0.0, d), Vec3(0.0, 0.0, -1.0)),
                       0.0, d + rad + 1.0, sqrt) == Some(d - rad)
  {
    var s := Sphere(Vec3(0.0, 0.0, 0.0), rad);
    var r := Ray(Vec3(0.0, 0.0, d), Vec3(0.0, 0.0, -1.0));
    var q := Coefficients(s, r);
    assert q == Quadratic(1.0, d, d * d - rad * rad);
    assert Discriminant(q) == rad * rad;
    assert NearRoot(q, rad) == d - rad;
  }
}
