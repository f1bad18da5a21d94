/** The hit record and its face-normal orientation (src/hittable.h). */
module Hittable {
  import opened Geometry

  /** An opaque reference to a material; the intersection code only copies it. */
  type MaterialRef = nat

  /** The fields of a hit record as a value, for copying `rec = temp_rec`. */
  datatype HitData = HitData(p: Vec3, normal: Vec3, t: real, frontFace: bool,
                             u: real, v: real, mat: MaterialRef)

  /** The normal stored for a ray travelling along `dir` that meets a surface
      whose outward normal is `outward`: `outward` itself when the ray comes
      from outside, its negation otherwise. */
  function FacingNormal(dir: Vec3, outward: Vec3): (n: Vec3)
    ensures Dot(dir, outward) < 0.0 ==> n == outward
    ensures Dot(dir, outward) >= 0.0 ==> n == Neg(outward)
    ensures Dot(dir, n) <= 0.0
    ensures LengthSquared(n) == LengthSquared(outward)
  {
    if Dot(dir, outward) < 0.0 then outward else Neg(outward)
  }

  /** hit_record. `u`, `v` and `mat` are not declared in hittable.h but
      quad.h writes them, so they are part of the record here. */
  class HitRecord {
    var p: Vec3
    var normal: Vec3
    var t: real
    var frontFace: bool
    var u: real
    var v: real
    var mat: MaterialRef

    /** All fields as one value. */
    function Data(): HitData
      reads this
    {
      HitData(p, normal, t, frontFace, u, v, mat)
    }

    /** hit_record::set_face_normal: `frontFace` records whether the ray meets
        the outward side, and the stored normal opposes the ray. Nothing else changes. */
    method SetFaceNormal(r: Ray, outwardNormal: Vec3)
      modifies this
      ensures frontFace == (Dot(r.direction, outwardNormal) < 0.0)
      ensures normal == FacingNormal(r.direction, outwardNormal)
      ensures p == old(p) && t == old(t) && u == old(u) && v == old(v) && mat == old(mat)
    {
      frontFace := Dot(r.direction, outwardNormal) < 0.0;
      normal := if frontFace then outwardNormal else Neg(outwardNormal);
    }

    /** The assignment `rec = temp_rec`: every field takes the copied value. */
    method Assign(d: HitData)
      modifies this
      ensures Data() == d
    {
      p, normal, t, frontFace, u, v, mat := d.p, d.normal, d.t, d.frontFace, d.u, d.v, d.mat;
    }
  }
}
