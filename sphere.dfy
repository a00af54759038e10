/** The older, material-less sphere of src/sphere.rs: the same quadratic as
    `hit_sphere`, written with `b * b` under the square root. */
module OldSpheres {
  import opened Wrappers
  import opened Vectors
  import opened Rays
  import opened Reals
  import opened Hitables

  datatype OldRecord = OldRecord(t: real, point: Vec3, normal: Vec3)

  datatype OldSphere = OldSphere(center: Vec3, radius: real)

  /** The record at parameter `t`: the point on the ray and
      `(point - center) / radius`. */
  function OldRecordAt(s: OldSphere, r: Ray, t: real): OldRecord
    requires s.radius != 0.0
  {
    var point := PointAtParameter(r, t);
    OldRecord(t, point, DivScalar(Sub(point, s.center), s.radius))
  }

  /** `Sphere::hit` of src/sphere.rs. Its `b * b - a * c` under the square
      root is the discriminant of `hit_sphere`, so its two candidates are the
      roots `Root1` and `Root2`. */
  function OldSphereHit(s: OldSphere, r: Ray, tmin: real, tmax: real, sqrt: real -> real): (rec: Option<OldRecord>)
    ensures rec.Some? ==> tmin < rec.value.t < tmax
    ensures rec.Some? ==> rec.value.point == PointAtParameter(r, rec.value.t)
    ensures Discriminant(s.center, s.radius, r) <= 0.0 ==> rec.None?
  {
    if Discriminant(s.center, s.radius, r) > 0.0 then
      PositiveDiscriminantDivisors(s.center, s.radius, r);
      var t1 := Root1(s.center, s.radius, r, sqrt);
      if t1 < tmax && t1 > tmin then
        Some(OldRecordAt(s, r, t1))
      else
        var t2 := Root2(s.center, s.radius, r, sqrt);
        if t2 < tmax && t2 > tmin then
          Some(OldRecordAt(s, r, t2))
        else
          None
    else
      None
  }

  /** Over exact arithmetic the older sphere and `hit_sphere` agree: the same
      hit or miss, at the same parameter, point and normal. */
  lemma OldSphereMatchesHitSphere(s: OldSphere, mat: MaterialRef, r: Ray, tmin: real, tmax: real, sqrt: real -> real)
    ensures var o, rec := OldSphereHit(s, r, tmin, tmax, sqrt), HitSphere(s.center, s.radius, mat, r, tmin, tmax, sqrt);
      (o.None? <==> rec.None?) &&
      (o.Some? ==> o.value.t == rec.value.t && o.value.point == rec.value.point && o.value.normal == rec.value.normal)
  {
    if Discriminant(s.center, s.radius, r) > 0.0 {
      PositiveDiscriminantDivisors(s.center, s.radius, r);
    }
  }

  /** The smaller root is kept whenever it is inside `(tmin, tmax)`; the larger
      one is reported only when the smaller one is not. */
  lemma OldSphereRootChoice(s: OldSphere, r: Ray, tmin: real, tmax: real, sqrt: real -> real)
    requires Discriminant(s.center, s.radius, r) > 0.0
    ensures var o := OldSphereHit(s, r, tmin, tmax, sqrt);
      var t1, t2 := Root1(s.center, s.radius, r, sqrt), Root2(s.center, s.radius, r, sqrt);
      (tmin < t1 < tmax ==> o.Some? && o.value.t == t1) &&
      (o.Some? && o.value.t != t1 ==> !(tmin < t1 < tmax) && o.value.t == t2) &&
      (o.None? <==> !(tmin < t1 < tmax) && !(tmin < t2 < tmax))
  {
    PositiveDiscriminantDivisors(s.center, s.radius, r);
  }

  /** A hit of the older sphere is the nearest point of its surface on the
      ray inside the interval, with a unit normal. */
  lemma OldSphereNearest(s: OldSphere, r: Ray, tmin: real, tmax: real, sqrt: real -> real)
    requires IsSqrt(sqrt)
    requires OldSphereHit(s, r, tmin, tmax, sqrt).Some?
    ensures var o := OldSphereHit(s, r, tmin, tmax, sqrt).value;
      OnSphere(s.center, s.radius, r, o.t) &&
      (forall t :: tmin < t < o.t ==> !OnSphere(s.center, s.radius, r, t)) &&
      SquaredLength(o.normal) == 1.0
  {
    OldSphereMatchesHitSphere(s, 0, r, tmin, tmax, sqrt);
    HitSphereNearest(s.center, s.radius, 0, r, tmin, tmax, sqrt);
    HitSphereNormalIsUnit(s.center, s.radius, 0, r, tmin, tmax, sqrt);
  }
}
