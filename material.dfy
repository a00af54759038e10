/** Lambertian scattering (src/material.rs). The random draws of
    `random_point_in_unit_sphere` are parameters: one draw for the code as
    written, a stream of draws for the corrected sampler. */
module Materials {
  import opened Wrappers
  import opened Vectors
  import opened Rays
  import opened Reals
  import opened Hitables

  datatype MaterialRecord = MaterialRecord(scattered: Ray, attenuation: Vec3)

  datatype Lambertian = Lambertian(albedo: Vec3)

  // ---------------------------------------------------------------------
  // random_point_in_unit_sphere

  /** The sampler as written: `x`, `y`, `z` are drawn once, before the
      loop, and every pass rebuilds the same point. The loop is run for at
      most `fuel` passes; `None` means it is still looping after them. */
  method RandomPointAsWritten(draw: Vec3, sqrt: real -> real, fuel: nat) returns (point: Option<Vec3>)
    ensures point == (if fuel > 0 && Length(draw, sqrt) < 1.0 then Some(draw) else None)
  {
    point := None;
    var pass := 0;
    while pass < fuel
      invariant pass <= fuel
      invariant point == None
      invariant pass > 0 ==> Length(draw, sqrt) >= 1.0
    {
      var p := draw;
      if Length(p, sqrt) < 1.0 {
        point := Some(p);
        break;
      }
      pass := pass + 1;
    }
  }

  /** A first draw in `[0, 1)^3` can lie outside the unit sphere; the
      sampler as written then loops forever, however much fuel it gets. */
  lemma FirstDrawOutside(sqrt: real -> real)
    requires IsSqrt(sqrt)
    ensures Length(Vec3(0.9, 0.9, 0.9), sqrt) >= 1.0
  {
    var l := Length(Vec3(0.9, 0.9, 0.9), sqrt);
    assert SquaredLength(Vec3(0.9, 0.9, 0.9)) == 2.43;
    assert l >= 0.0 && l * l == 2.43;
    if l < 1.0 {
      MulMonotone(l, 1.0, l);
    }
  }

  /** The sampler as intended: a fresh draw on every pass, until one lies
      inside the unit sphere. It returns that point and its position `n` in
      the stream; every earlier draw was rejected. */
  method RandomPointInUnitSphere(draws: nat -> Vec3, sqrt: real -> real) returns (point: Vec3, n: nat)
    requires exists k: nat :: Length(draws(k), sqrt) < 1.0
    ensures point == draws(n) && Length(point, sqrt) < 1.0
    ensures forall m :: 0 <= m < n ==> Length(draws(m), sqrt) >= 1.0
  {
    ghost var k: nat :| Length(draws(k), sqrt) < 1.0;
    n := 0;
    point := draws(0);
    while Length(point, sqrt) >= 1.0
      invariant n <= k && point == draws(n)
      invariant forall m :: 0 <= m < n ==> Length(draws(m), sqrt) >= 1.0
      decreases k - n
    {
      n := n + 1;
      point := draws(n);
    }
  }

  /** Under an exact square root, "length below 1" is "squared length below 1". */
  lemma InsideUnitSphere(v: Vec3, sqrt: real -> real)
    requires IsSqrt(sqrt)
    ensures Length(v, sqrt) < 1.0 <==> SquaredLength(v) < 1.0
  {
    SquaredLengthNonNegative(v);
    var s := SquaredLength(v);
    var l := Length(v, sqrt);
    assert l >= 0.0 && l * l == s;
    if l < 1.0 {
      MulMonotone(l, 1.0, l);
    } else {
      MulMonotone(1.0, l, l);
    }
  }

  // ---------------------------------------------------------------------
  // Lambertian::scatter

  /** The point the diffuse bounce aims at: one unit along the normal from
      the hit point, displaced by the sample. */
  function Target(rec: HitRecord, sample: Vec3): Vec3 {
    Add(Add(rec.point, rec.normal), sample)
  }

  /** `Lambertian::scatter` as written: the direction is the target point
      itself, not the offset from the hit point to it. The source builds
      the ray without its `time` field; the model puts 0. */
  function ScatterAsWritten(m: Lambertian, r: Ray, rec: HitRecord, sample: Vec3): (o: Option<MaterialRecord>)
    ensures o.Some?
    ensures o.value.scattered.origin == rec.point && o.value.attenuation == m.albedo
  {
    Some(MaterialRecord(Ray(rec.point, Target(rec, sample), 0.0), m.albedo))
  }

  /** The written direction reaches the target at parameter 1 only for a
      hit at the origin. */
  lemma AsWrittenMissesTarget(m: Lambertian, r: Ray, rec: HitRecord, sample: Vec3)
    ensures PointAtParameter(ScatterAsWritten(m, r, rec, sample).value.scattered, 1.0) == Target(rec, sample)
      <==> rec.point == Zero()
  {
  }

  /** A hit at (-10, 0, 0) with normal (1, 0, 0) and a zero sample sends the
      written ray back into the surface. */
  lemma AsWrittenEntersSurface(m: Lambertian, r: Ray)
    ensures var rec := HitRecord(1.0, Vec3(-10.0, 0.0, 0.0), Vec3(1.0, 0.0, 0.0), 0);
      Dot(ScatterAsWritten(m, r, rec, Zero()).value.scattered.direction, rec.normal) < 0.0
  {
  }

  /** `Lambertian::scatter` as intended: never absorbs, leaves from the hit
      point towards the target, carries the albedo. */
  function Scatter(m: Lambertian, r: Ray, rec: HitRecord, sample: Vec3): (o: Option<MaterialRecord>)
    ensures o.Some?
    ensures o.value.scattered.origin == rec.point && o.value.attenuation == m.albedo
    ensures PointAtParameter(o.value.scattered, 1.0) == Target(rec, sample)
  {
    Some(MaterialRecord(Ray(rec.point, Sub(Target(rec, sample), rec.point), 0.0), m.albedo))
  }

  /** Neither version looks at the incoming ray. */
  lemma ScatterIgnoresIncoming(m: Lambertian, r1: Ray, r2: Ray, rec: HitRecord, sample: Vec3)
    ensures Scatter(m, r1, rec, sample) == Scatter(m, r2, rec, sample)
    ensures ScatterAsWritten(m, r1, rec, sample) == ScatterAsWritten(m, r2, rec, sample)
  {
  }

  /** With a unit normal and a sample inside the unit sphere, the intended
      ray leaves on the normal's side of the surface. */
  lemma ScatterLeavesSurface(m: Lambertian, r: Ray, rec: HitRecord, sample: Vec3)
    requires SquaredLength(rec.normal) == 1.0 && SquaredLength(sample) < 1.0
    ensures Dot(Scatter(m, r, rec, sample).value.scattered.direction, rec.normal) > 0.0
  {
    var n, s := rec.normal, sample;
    var d := Dot(s, n);
    CauchySchwarz(s, n);
    assert Dot(s, s) == SquaredLength(s) && Dot(n, n) == 1.0;
    var dd := d * d;
    assert dd <= SquaredLength(s);
    SquareBound(d, 1.0, dd, 1.0);
    assert Scatter(m, r, rec, sample).value.scattered.direction == Add(n, s);
    assert Dot(Add(n, s), n) == Dot(n, n) + d;
  }
}
