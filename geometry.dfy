/** Exact-arithmetic stand-ins for the vector, ray and interval types the
    renderer includes from vec3.h, ray.h and interval.h (not part of this model).
    `double` becomes `real`; only the operations the intersection code uses are given. */
module Geometry {

  datatype Vec3 = Vec3(x: real, y: real, z: real)

  /** Component access `v[n]`, as vec3::operator[] gives it for n in 0..2. */
  function Component(v: Vec3, n: int): real
    requires 0 <= n < 3
  {
    if n == 0 then v.x else if n == 1 then v.y else v.z
  }

  function Add(a: Vec3, b: Vec3): Vec3 { Vec3(a.x + b.x, a.y + b.y, a.z + b.z) }

  function Sub(a: Vec3, b: Vec3): Vec3 { Vec3(a.x - b.x, a.y - b.y, a.z - b.z) }

  function Neg(a: Vec3): Vec3 { Vec3(-a.x, -a.y, -a.z) }

  function Scale(a: Vec3, k: real): Vec3 { Vec3(k * a.x, k * a.y, k * a.z) }

  function Dot(a: Vec3, b: Vec3): real { a.x * b.x + a.y * b.y + a.z * b.z }

  function Cross(a: Vec3, b: Vec3): Vec3 {
    Vec3(a.y * b.z - a.z * b.y, a.z * b.x - a.x * b.z, a.x * b.y - a.y * b.x)
  }

  function LengthSquared(a: Vec3): real { Dot(a, a) }

  /** A ray `origin + t * direction`. */
  datatype Ray = Ray(origin: Vec3, direction: Vec3)

  /** ray::at */
  function At(r: Ray, t: real): Vec3 { Add(r.origin, Scale(r.direction, t)) }

  /** An optional value: a hit, a root, or nothing. */
  datatype Option<T> = None | Some(value: T)

  /** A window of ray parameters `[min, max]`; it may be empty. */
  datatype Interval = Interval(min: real, max: real)

  /** interval::contains, closed at both ends. */
  predicate Contains(i: Interval, x: real) { i.min <= x <= i.max }

  /** interval::surrounds, open at both ends. */
  predicate Surrounds(i: Interval, x: real) { i.min < x < i.max }

  function Min(a: real, b: real): real { if a <= b then a else b }

  function Max(a: real, b: real): real { if a <= b then b else a }

  /** A cross product is orthogonal to its second factor. */
  lemma CrossOrthogonalSecond(a: Vec3, b: Vec3)
    ensures Dot(b, Cross(a, b)) == 0.0
  {
    calc {
      Dot(b, Cross(a, b));
      b.x * (a.y * b.z - a.z * b.y) + b.y * (a.z * b.x - a.x * b.z) + b.z * (a.x * b.y - a.y * b.x);
      (b.x * a.y * b.z - b.z * a.y * b.x) + (b.y * a.z * b.x - b.x * a.z * b.y) + (b.z * a.x * b.y - b.y * a.x * b.z);
      0.0;
    }
  }
}
