/** Rays (src/ray.rs). */
module Rays {
  import opened Vectors

  /** The direction is not normalised; `time` is the motion-blur sample. */
  datatype Ray = Ray(origin: Vec3, direction: Vec3, time: real)

  function PointAtParameter(r: Ray, t: real): Vec3 {
    Add(r.origin, Scale(r.direction, t))
  }

  lemma PointAtZero(r: Ray)
    ensures PointAtParameter(r, 0.0) == r.origin
  {
  }

  lemma PointOffset(r: Ray, t: real)
    ensures Sub(PointAtParameter(r, t), r.origin) == Scale(r.direction, t)
  {
  }

  lemma PointAdditive(r: Ray, s: real, t: real)
    ensures PointAtParameter(r, s + t) == Add(PointAtParameter(r, s), Scale(r.direction, t))
  {
  }

  lemma PointIgnoresTime(r: Ray, time: real, t: real)
    ensures PointAtParameter(r.(time := time), t) == PointAtParameter(r, t)
  {
  }
}
