/** Scene objects and ray queries (src/hitable.rs). The source's `Hitable`
    trait objects form a closed family here: spheres, moving spheres, lists
    and BVH nodes. */
module Hitables {
  import opened Wrappers
  import opened Vectors
  import opened Rays
  import opened Reals
  import opened Boxes

  /** Materials are shared by reference; the model names them by index. */
  type MaterialRef = nat

  datatype HitRecord = HitRecord(t: real, point: Vec3, normal: Vec3, material: MaterialRef)

  datatype Hitable =
    | Sphere(center: Vec3, radius: real, material: MaterialRef)
    | MovingSphere(center0: Vec3, center1: Vec3, time0: real, time1: real, radius: real, material: MaterialRef)
    | List(items: seq<Hitable>)
    | BvhNode(left: Hitable, right: Hitable, box: Aabb)

  /** `MovingSphere::center` divides by `time1 - time0`: every moving sphere
      needs two distinct key times. */
  predicate WellFormed(h: Hitable) {
    match h
    case Sphere(_, _, _) => true
    case MovingSphere(_, _, time0, time1, _, _) => time0 != time1
    case List(items) => forall i :: 0 <= i < |items| ==> WellFormed(items[i])
    case BvhNode(left, right, _) => WellFormed(left) && WellFormed(right)
  }

  predicate ContainsBvh(h: Hitable) {
    match h
    case Sphere(_, _, _) => false
    case MovingSphere(_, _, _, _, _, _) => false
    case List(items) => exists i :: 0 <= i < |items| && ContainsBvh(items[i])
    case BvhNode(_, _, _) => true
  }

  /** What `hit` needs: well-formed objects, and a slab-testable ray wherever a
      BVH node is met. */
  predicate Queryable(h: Hitable, r: Ray) {
    WellFormed(h) && (ContainsBvh(h) ==> Testable(r))
  }

  // ---------------------------------------------------------------------
  // Spheres

  /** `MovingSphere::center`: linear motion from `center0` at `time0` to
      `center1` at `time1`, extrapolated outside that range. */
  function Center(c0: Vec3, c1: Vec3, time0: real, time1: real, time: real): Vec3
    requires time0 != time1
  {
    Lerp(c0, c1, Fraction(time0, time1, time))
  }

  /** `c0 + k * (c1 - c0)`, one component at a time. */
  function Lerp(c0: Vec3, c1: Vec3, k: real): (v: Vec3)
    ensures v == Add(c0, ScalarMul(k, Sub(c1, c0)))
  {
    Vec3(LerpScalar(c0.x, c1.x, k), LerpScalar(c0.y, c1.y, k), LerpScalar(c0.z, c1.z, k))
  }

  /** The coefficients of the quadratic `a t^2 + 2 b t + c` in `hit_sphere`. */
  function QuadA(ray: Ray): real {
    Dot(ray.direction, ray.direction)
  }

  function QuadB(center: Vec3, ray: Ray): real {
    Dot(Sub(ray.origin, center), ray.direction)
  }

  function QuadC(center: Vec3, radius: real, ray: Ray): real {
    var oc := Sub(ray.origin, center);
    Dot(oc, oc) - radius * radius
  }

  function Discriminant(center: Vec3, radius: real, ray: Ray): real {
    var b := QuadB(center, ray);
    b * b - QuadA(ray) * QuadC(center, radius, ray)
  }

  /** A positive discriminant forces a non-degenerate direction and a non-zero
      radius, so both divisions of `hit_sphere` are defined. */
  lemma PositiveDiscriminantDivisors(center: Vec3, radius: real, ray: Ray)
    requires Discriminant(center, radius, ray) > 0.0
    ensures QuadA(ray) > 0.0 && radius != 0.0
  {
    var oc := Sub(ray.origin, center);
    var a, b, cc := QuadA(ray), QuadB(center, ray), Dot(oc, oc);
    var rr := radius * radius;
    CauchySchwarz(oc, ray.direction);
    DotSymmetric(oc, ray.direction);
    assert b * b <= cc * a;
    assert b * b - a * (cc - rr) > 0.0;
    assert a * rr > 0.0;
    SquaredLengthNonNegative(ray.direction);
  }

  /** The record for a hit at parameter `t`: the point on the ray and the
      outward normal `(point - center) / radius`. */
  function SphereRecord(center: Vec3, radius: real, mat: MaterialRef, ray: Ray, t: real): (rec: HitRecord)
    requires radius != 0.0
    ensures rec.t == t && rec.point == PointAtParameter(ray, t) && rec.material == mat
    ensures Scale(rec.normal, radius) == Sub(rec.point, center)
  {
    var point := PointAtParameter(ray, t);
    var n := DivScalar(Sub(point, center), radius);
    assert Scale(n, radius) == Sub(point, center) by {
      DivCancel(point.x - center.x, radius);
      DivCancel(point.y - center.y, radius);
      DivCancel(point.z - center.z, radius);
    }
    HitRecord(t, point, n, mat)
  }

  /** The smaller and the larger root of the quadratic. */
  function Root1(center: Vec3, radius: real, ray: Ray, sqrt: real -> real): real
    requires Discriminant(center, radius, ray) > 0.0
  {
    PositiveDiscriminantDivisors(center, radius, ray);
    (-QuadB(center, ray) - sqrt(Discriminant(center, radius, ray))) / QuadA(ray)
  }

  function Root2(center: Vec3, radius: real, ray: Ray, sqrt: real -> real): real
    requires Discriminant(center, radius, ray) > 0.0
  {
    PositiveDiscriminantDivisors(center, radius, ray);
    (-QuadB(center, ray) + sqrt(Discriminant(center, radius, ray))) / QuadA(ray)
  }

  /** `hit_sphere`: the smaller root if it lies strictly inside `(tmin, tmax)`,
      else the larger one if it does, else no hit. */
  function HitSphere(center: Vec3, radius: real, mat: MaterialRef, ray: Ray,
                     tmin: real, tmax: real, sqrt: real -> real): (rec: Option<HitRecord>)
    ensures rec.Some? ==> tmin < rec.value.t < tmax && rec.value.material == mat
    ensures rec.Some? ==> rec.value.point == PointAtParameter(ray, rec.value.t)
    ensures rec.Some? ==> Scale(rec.value.normal, radius) == Sub(rec.value.point, center)
    ensures Discriminant(center, radius, ray) <= 0.0 ==> rec.None?
  {
    if Discriminant(center, radius, ray) > 0.0 then
      PositiveDiscriminantDivisors(center, radius, ray);
      var t1 := Root1(center, radius, ray, sqrt);
      if t1 < tmax && t1 > tmin then
        Some(SphereRecord(center, radius, mat, ray, t1))
      else
        var t2 := Root2(center, radius, ray, sqrt);
        if t2 < tmax && t2 > tmin then
          Some(SphereRecord(center, radius, mat, ray, t2))
        else
          None
    else
      None
  }

  /** The box of a sphere: `center -/+ (radius, radius, radius)`. */
  function SphereBox(center: Vec3, radius: real): Aabb {
    Aabb(Sub(center, FromF(radius)), Add(center, FromF(radius)))
  }

  // ---------------------------------------------------------------------
  // Queries

  /** The tie-break of the list fold: a later record replaces the accumulated
      one only when strictly nearer. */
  function KeepNearer(acc: Option<HitRecord>, next: Option<HitRecord>): (r: Option<HitRecord>)
    ensures r.None? <==> acc.None? && next.None?
    ensures r.Some? ==> r == acc || r == next
    ensures acc.Some? && next.Some? ==> r.value.t <= acc.value.t && r.value.t <= next.value.t
    ensures acc.Some? && next.Some? && next.value.t == acc.value.t ==> r == acc
  {
    match (acc, next)
    case (None, None) => None
    case (Some(a), None) => Some(a)
    case (None, Some(n)) => Some(n)
    case (Some(a), Some(n)) => Some(if n.t < a.t then n else a)
  }

  /** The combination in `BvhNode::hit`: the left record only when strictly
      nearer, so ties go right. */
  function NearerChild(left: Option<HitRecord>, right: Option<HitRecord>): (r: Option<HitRecord>)
    ensures r.None? <==> left.None? && right.None?
    ensures r.Some? ==> r == left || r == right
    ensures left.Some? && right.Some? ==> r.value.t <= left.value.t && r.value.t <= right.value.t
    ensures left.Some? && right.Some? && left.value.t == right.value.t ==> r == right
  {
    match (left, right)
    case (Some(l), Some(rr)) => Some(if l.t < rr.t then l else rr)
    case (Some(l), None) => Some(l)
    case (None, Some(rr)) => Some(rr)
    case (None, None) => None
  }

  /** `Hitable::hit` for every kind of object. */
  function Hit(h: Hitable, r: Ray, tmin: real, tmax: real, sqrt: real -> real): Option<HitRecord>
    requires Queryable(h, r)
    decreases h
  {
    match h
    case Sphere(center, radius, mat) => HitSphere(center, radius, mat, r, tmin, tmax, sqrt)
    case MovingSphere(c0, c1, time0, time1, radius, mat) =>
      HitSphere(Center(c0, c1, time0, time1, r.time), radius, mat, r, tmin, tmax, sqrt)
    case List(items) => ListHit(items, r, tmin, tmax, sqrt)
    case BvhNode(left, right, box) =>
      if SlabHit(box, r, tmin, tmax) then
        NearerChild(Hit(left, r, tmin, tmax, sqrt), Hit(right, r, tmin, tmax, sqrt))
      else
        None
  }

  /** The nearest-hit fold of `HitableList::hit`, from the first item to the last. */
  function ListHit(items: seq<Hitable>, r: Ray, tmin: real, tmax: real, sqrt: real -> real): Option<HitRecord>
    requires forall i :: 0 <= i < |items| ==> Queryable(items[i], r)
    decreases items, 0
  {
    if |items| == 0 then None
    else KeepNearer(ListHit(items[..|items| - 1], r, tmin, tmax, sqrt),
                    Hit(items[|items| - 1], r, tmin, tmax, sqrt))
  }

  /** Combination of two boxes in the list fold. */
  function AddBox(acc: Option<Aabb>, next: Option<Aabb>): Option<Aabb> {
    match (acc, next)
    case (None, None) => None
    case (Some(b1), Some(b2)) => Some(SurroundingBox(b1, b2))
    case (None, Some(b)) => Some(b)
    case (Some(b), None) => Some(b)
  }

  /** `Hitable::bounding_box`; only a list without any boxed item has none. */
  function BoundingBox(h: Hitable, t0: real, t1: real): Option<Aabb>
    requires WellFormed(h)
    decreases h
  {
    match h
    case Sphere(center, radius, _) => Some(SphereBox(center, radius))
    case MovingSphere(c0, c1, time0, time1, radius, _) =>
      Some(SurroundingBox(SphereBox(Center(c0, c1, time0, time1, t0), radius),
                          SphereBox(Center(c0, c1, time0, time1, t1), radius)))
    case List(items) => ListBox(items, t0, t1)
    case BvhNode(_, _, box) => Some(box)
  }

  function ListBox(items: seq<Hitable>, t0: real, t1: real): Option<Aabb>
    requires forall i :: 0 <= i < |items| ==> WellFormed(items[i])
    decreases items, 0
  {
    if |items| == 0 then None
    else AddBox(ListBox(items[..|items| - 1], t0, t1), BoundingBox(items[|items| - 1], t0, t1))
  }

  // ---------------------------------------------------------------------
  // Geometry of `hit_sphere`

  /** The ray meets the sphere's surface at parameter `t`. */
  predicate OnSphere(center: Vec3, radius: real, ray: Ray, t: real) {
    SquaredLength(Sub(PointAtParameter(ray, t), center)) == radius * radius
  }

  /** `|P(t) - center|^2 - radius^2` is the quadratic whose coefficients
      `hit_sphere` computes. */
  lemma QuadraticForm(center: Vec3, radius: real, ray: Ray, t: real)
    ensures SquaredLength(Sub(PointAtParameter(ray, t), center)) - radius * radius
         == Quadratic(QuadA(ray), QuadB(center, ray), QuadC(center, radius, ray), t)
  {
  }

  /** With a true square root the two candidate parameters are the two roots. */
  lemma SphereRoots(center: Vec3, radius: real, ray: Ray, sqrt: real -> real)
    requires IsSqrt(sqrt) && Discriminant(center, radius, ray) > 0.0
    ensures RootsOf(QuadA(ray), QuadB(center, ray), QuadC(center, radius, ray),
                    sqrt(Discriminant(center, radius, ray)),
                    Root1(center, radius, ray, sqrt), Root2(center, radius, ray, sqrt))
    ensures Root1(center, radius, ray, sqrt) < Root2(center, radius, ray, sqrt)
    ensures OnSphere(center, radius, ray, Root1(center, radius, ray, sqrt))
    ensures OnSphere(center, radius, ray, Root2(center, radius, ray, sqrt))
  {
    PositiveDiscriminantDivisors(center, radius, ray);
    var a, b, c := QuadA(ray), QuadB(center, ray), QuadC(center, radius, ray);
    var d := Discriminant(center, radius, ray);
    var sq := sqrt(d);
    assert sq >= 0.0 && sq * sq == d;
    DivCancel(-b - sq, a);
    DivCancel(-b + sq, a);
    var t1, t2 := Root1(center, radius, ray, sqrt), Root2(center, radius, ray, sqrt);
    QuadraticRoots(a, b, c, sq, t1, t2);
    QuadraticForm(center, radius, ray, t1);
    QuadraticForm(center, radius, ray, t2);
  }

  /** `hit_sphere` reports the nearest intersection with the sphere inside
      `(tmin, tmax)`; it misses only when there is none, or when the ray is
      tangent (zero discriminant). */
  lemma HitSphereNearest(center: Vec3, radius: real, mat: MaterialRef, ray: Ray,
                         tmin: real, tmax: real, sqrt: real -> real)
    requires IsSqrt(sqrt)
    ensures var rec := HitSphere(center, radius, mat, ray, tmin, tmax, sqrt);
      rec.Some? ==> (OnSphere(center, radius, ray, rec.value.t) &&
                     forall t :: tmin < t < rec.value.t ==> !OnSphere(center, radius, ray, t))
    ensures (HitSphere(center, radius, mat, ray, tmin, tmax, sqrt).None? &&
             Discriminant(center, radius, ray) != 0.0) ==>
      forall t :: tmin < t < tmax ==> !OnSphere(center, radius, ray, t)
  {
    var a, b, c := QuadA(ray), QuadB(center, ray), QuadC(center, radius, ray);
    var d := Discriminant(center, radius, ray);
    if d > 0.0 {
      SphereRoots(center, radius, ray, sqrt);
      var sq := sqrt(d);
      var t1, t2 := Root1(center, radius, ray, sqrt), Root2(center, radius, ray, sqrt);
      forall t | tmin < t < tmax && OnSphere(center, radius, ray, t)
        ensures t == t1 || t == t2
      {
        QuadraticForm(center, radius, ray, t);
        QuadraticOnlyRoots(a, b, c, sq, t1, t2, t);
      }
    } else if d < 0.0 {
      forall t ensures !OnSphere(center, radius, ray, t) {
        SquaredLengthNonNegative(ray.direction);
        DotSymmetric(ray.direction, ray.direction);
        QuadraticNoRoots(a, b, c, t);
        QuadraticForm(center, radius, ray, t);
      }
    }
  }

  lemma ScaleSquaredLength(v: Vec3, k: real, kk: real)
    requires kk == k * k
    ensures SquaredLength(Scale(v, k)) == kk * SquaredLength(v)
  {
  }

  /** The normal of a sphere hit has unit length. */
  lemma HitSphereNormalIsUnit(center: Vec3, radius: real, mat: MaterialRef, ray: Ray,
                              tmin: real, tmax: real, sqrt: real -> real)
    requires IsSqrt(sqrt)
    requires HitSphere(center, radius, mat, ray, tmin, tmax, sqrt).Some?
    ensures SquaredLength(HitSphere(center, radius, mat, ray, tmin, tmax, sqrt).value.normal) == 1.0
  {
    var rec := HitSphere(center, radius, mat, ray, tmin, tmax, sqrt).value;
    HitSphereNearest(center, radius, mat, ray, tmin, tmax, sqrt);
    PositiveDiscriminantDivisors(center, radius, ray);
    var m := Sub(rec.point, center);
    assert Scale(rec.normal, radius) == m;
    assert OnSphere(center, radius, ray, rec.t);
    var a := SquaredLength(m);
    SquareIsNonNegative(a, radius);
    SquareIsNonZero(a, radius);
    ScaleSquaredLength(rec.normal, radius, a);
    CancelPositive(a, SquaredLength(rec.normal), SquaredLength(Scale(rec.normal, radius)));
  }

  /** A point strictly inside the sphere is strictly inside its box. */
  lemma InsideSphereInsideBox(center: Vec3, radius: real, p: Vec3)
    requires radius >= 0.0
    requires SquaredLength(Sub(p, center)) < radius * radius
    ensures Inside(SphereBox(center, radius), p)
  {
    var dx, dy, dz := p.x - center.x, p.y - center.y, p.z - center.z;
    var rr := radius * radius;
    SquareNonNegative(dx);
    SquareNonNegative(dy);
    SquareNonNegative(dz);
    SquareBound(dx, radius, dx * dx, rr);
    SquareBound(dy, radius, dy * dy, rr);
    SquareBound(dz, radius, dz * dz, rr);
  }

  /** A sphere hit inside `(tmin, tmax)` means the ray passes strictly inside
      the sphere's box at some parameter of that interval. */
  lemma HitSphereEntersBox(center: Vec3, radius: real, mat: MaterialRef, ray: Ray,
                           tmin: real, tmax: real, sqrt: real -> real)
    requires IsSqrt(sqrt) && radius >= 0.0
    requires HitSphere(center, radius, mat, ray, tmin, tmax, sqrt).Some?
    ensures exists s :: tmin < s < tmax && Inside(SphereBox(center, radius), PointAtParameter(ray, s))
  {
    SphereRoots(center, radius, ray, sqrt);
    var a, b, c := QuadA(ray), QuadB(center, ray), QuadC(center, radius, ray);
    var sq := sqrt(Discriminant(center, radius, ray));
    var t1, t2 := Root1(center, radius, ray, sqrt), Root2(center, radius, ray, sqrt);
    var s;
    if tmin < t1 < tmax {
      s := (t1 + FFMin(t2, tmax)) / 2.0;
    } else {
      s := (FFMax(t1, tmin) + t2) / 2.0;
    }
    QuadraticNegativeBetween(a, b, c, sq, t1, t2, s);
    QuadraticForm(center, radius, ray, s);
    InsideSphereInsideBox(center, radius, PointAtParameter(ray, s));
  }

  // ---------------------------------------------------------------------
  // Boxes of spheres

  lemma CenterAtKeyTimes(c0: Vec3, c1: Vec3, time0: real, time1: real)
    requires time0 != time1
    ensures Center(c0, c1, time0, time1, time0) == c0
    ensures Center(c0, c1, time0, time1, time1) == c1
  {
    assert (time1 - time0) / (time1 - time0) == 1.0;
  }

  /** The sphere's box ignores the time arguments and is exactly
      `[center - radius, center + radius]`. */
  lemma SphereBoxExact(center: Vec3, radius: real, mat: MaterialRef, t0: real, t1: real, t2: real, t3: real)
    ensures BoundingBox(Sphere(center, radius, mat), t0, t1) == BoundingBox(Sphere(center, radius, mat), t2, t3)
    ensures var b := BoundingBox(Sphere(center, radius, mat), t0, t1).value;
      b.min == Vec3(center.x - radius, center.y - radius, center.z - radius) &&
      b.max == Vec3(center.x + radius, center.y + radius, center.z + radius)
  {
  }

  /** Componentwise `Within`. */
  predicate VecWithin(a: Vec3, b: Vec3, m: Vec3) {
    Within(a.x, b.x, m.x) && Within(a.y, b.y, m.y) && Within(a.z, b.z, m.z)
  }

  /** Between two key times the moving centre stays, on every axis, between
      its positions at those times. */
  lemma MovingCenterBetween(c0: Vec3, c1: Vec3, s0: real, s1: real, t0: real, t1: real, time: real)
    requires s0 != s1 && t0 <= time <= t1
    ensures VecWithin(Center(c0, c1, s0, s1, t0), Center(c0, c1, s0, s1, t1), Center(c0, c1, s0, s1, time))
  {
    FractionBetween(s0, s1, t0, t1, time);
    LerpWithin(c0, c1, Fraction(s0, s1, t0), Fraction(s0, s1, t1), Fraction(s0, s1, time));
  }

  /** Interpolating with a factor between two others gives a point between
      the two interpolated points. */
  lemma LerpWithin(c0: Vec3, c1: Vec3, k0: real, k1: real, k: real)
    requires Within(k0, k1, k)
    ensures VecWithin(Lerp(c0, c1, k0), Lerp(c0, c1, k1), Lerp(c0, c1, k))
  {
    LerpBetween(c0.x, c1.x, k0, k1, k);
    LerpBetween(c0.y, c1.y, k0, k1, k);
    LerpBetween(c0.z, c1.z, k0, k1, k);
  }

  /** ... so the box at any such time lies within the surrounding box of the
      boxes at the two key times. */
  lemma MovingBoxEncloses(c0: Vec3, c1: Vec3, s0: real, s1: real, r: real, t0: real, t1: real, time: real)
    requires s0 != s1 && t0 <= time <= t1
    ensures Encloses(SurroundingBox(SphereBox(Center(c0, c1, s0, s1, t0), r), SphereBox(Center(c0, c1, s0, s1, t1), r)),
                     SphereBox(Center(c0, c1, s0, s1, time), r))
  {
    MovingCenterBetween(c0, c1, s0, s1, t0, t1, time);
  }

  /** Over `[t0, t1]` the moving sphere stays inside its box for `(t0, t1)`. */
  lemma MovingSphereBoxEncloses(s: Hitable, t0: real, t1: real, time: real)
    requires s.MovingSphere? && WellFormed(s) && t0 <= time <= t1
    ensures Encloses(BoundingBox(s, t0, t1).value,
                     SphereBox(Center(s.center0, s.center1, s.time0, s.time1, time), s.radius))
  {
    MovingBoxEncloses(s.center0, s.center1, s.time0, s.time1, s.radius, t0, t1, time);
  }

  // ---------------------------------------------------------------------
  // The list folds

  predicate AllQueryable(items: seq<Hitable>, r: Ray) {
    forall i :: 0 <= i < |items| ==> Queryable(items[i], r)
  }

  predicate AllWellFormed(items: seq<Hitable>) {
    forall i :: 0 <= i < |items| ==> WellFormed(items[i])
  }

  /** `Some` record `i` is no farther than any record of `hs`, and strictly
      nearer than every record before it. */
  predicate FirstNearestIn(hs: seq<Option<HitRecord>>, i: int) {
    0 <= i < |hs| && hs[i].Some? &&
    (forall j :: 0 <= j < |hs| && hs[j].Some? ==> hs[i].value.t <= hs[j].value.t) &&
    (forall j :: 0 <= j < i && hs[j].Some? ==> hs[i].value.t < hs[j].value.t)
  }

  /** The nearest-hit fold over already computed item results. */
  function FoldNearest(hs: seq<Option<HitRecord>>): Option<HitRecord> {
    if |hs| == 0 then None else KeepNearer(FoldNearest(hs[..|hs| - 1]), hs[|hs| - 1])
  }

  lemma {:induction false} FoldNearestFirst(hs: seq<Option<HitRecord>>)
    ensures FoldNearest(hs).None? <==> forall i :: 0 <= i < |hs| ==> hs[i].None?
    ensures FoldNearest(hs).Some? ==> exists i :: FirstNearestIn(hs, i) && FoldNearest(hs) == hs[i]
  {
    if |hs| > 0 {
      var n := |hs| - 1;
      var pre := hs[..n];
      assert forall j :: 0 <= j < n ==> pre[j] == hs[j];
      FoldNearestFirst(pre);
      var acc, last := FoldNearest(pre), hs[n];
      if acc.Some? {
        var i :| FirstNearestIn(pre, i) && acc == pre[i];
        if last.Some? && last.value.t < acc.value.t {
          assert FirstNearestIn(hs, n);
        } else {
          assert FirstNearestIn(hs, i);
        }
      } else if last.Some? {
        assert FirstNearestIn(hs, n);
      }
    }
  }

  /** Each item's own answer to the query. */
  function Hits(items: seq<Hitable>, r: Ray, tmin: real, tmax: real, sqrt: real -> real): (hs: seq<Option<HitRecord>>)
    requires AllQueryable(items, r)
    ensures |hs| == |items|
    ensures forall j :: 0 <= j < |items| ==> hs[j] == Hit(items[j], r, tmin, tmax, sqrt)
  {
    if |items| == 0 then []
    else Hits(items[..|items| - 1], r, tmin, tmax, sqrt) + [Hit(items[|items| - 1], r, tmin, tmax, sqrt)]
  }

  lemma {:induction false} ListHitIsFold(items: seq<Hitable>, r: Ray, tmin: real, tmax: real, sqrt: real -> real)
    requires AllQueryable(items, r)
    ensures ListHit(items, r, tmin, tmax, sqrt) == FoldNearest(Hits(items, r, tmin, tmax, sqrt))
  {
    if |items| > 0 {
      var n := |items| - 1;
      ListHitIsFold(items[..n], r, tmin, tmax, sqrt);
      var hs := Hits(items, r, tmin, tmax, sqrt);
      assert hs[..n] == Hits(items[..n], r, tmin, tmax, sqrt);
    }
  }

  /** Item `i` hits no farther than any item, and strictly nearer than every
      hitting item before it. */
  predicate FirstNearest(items: seq<Hitable>, r: Ray, tmin: real, tmax: real, sqrt: real -> real, i: int)
    requires AllQueryable(items, r)
  {
    FirstNearestIn(Hits(items, r, tmin, tmax, sqrt), i)
  }

  /** The list reports no hit exactly when every item misses; otherwise the
      record of the first item at the smallest `t`. */
  lemma ListHitNearest(items: seq<Hitable>, r: Ray, tmin: real, tmax: real, sqrt: real -> real)
    requires AllQueryable(items, r)
    ensures ListHit(items, r, tmin, tmax, sqrt).None? <==>
      forall i :: 0 <= i < |items| ==> Hit(items[i], r, tmin, tmax, sqrt).None?
    ensures ListHit(items, r, tmin, tmax, sqrt).Some? ==>
      exists i :: 0 <= i < |items| && FirstNearest(items, r, tmin, tmax, sqrt, i) &&
        ListHit(items, r, tmin, tmax, sqrt) == Hit(items[i], r, tmin, tmax, sqrt)
  {
    ListHitIsFold(items, r, tmin, tmax, sqrt);
    FoldNearestFirst(Hits(items, r, tmin, tmax, sqrt));
  }

  /** The list's box is missing exactly when every item's box is, and it
      encloses every item box that exists. */
  lemma {:induction false} ListBoxEncloses(items: seq<Hitable>, t0: real, t1: real)
    requires AllWellFormed(items)
    ensures ListBox(items, t0, t1).None? <==>
      forall i :: 0 <= i < |items| ==> BoundingBox(items[i], t0, t1).None?
    ensures forall i :: 0 <= i < |items| && BoundingBox(items[i], t0, t1).Some? ==>
      Encloses(ListBox(items, t0, t1).value, BoundingBox(items[i], t0, t1).value)
  {
    if |items| > 0 {
      var n := |items| - 1;
      var pre := items[..n];
      assert forall j :: 0 <= j < n ==> pre[j] == items[j];
      ListBoxEncloses(pre, t0, t1);
      var acc, last := ListBox(pre, t0, t1), BoundingBox(items[n], t0, t1);
      forall i | 0 <= i < |items| && BoundingBox(items[i], t0, t1).Some?
        ensures Encloses(ListBox(items, t0, t1).value, BoundingBox(items[i], t0, t1).value)
      {
        if i < n && last.Some? {
          EnclosesTransitive(ListBox(items, t0, t1).value, acc.value, BoundingBox(items[i], t0, t1).value);
        }
      }
    }
  }

  /** Whether an object has a box does not depend on the time arguments. */
  lemma {:induction false} BoxExistenceTimeFree(h: Hitable, t0: real, t1: real, t2: real, t3: real)
    requires WellFormed(h)
    ensures BoundingBox(h, t0, t1).Some? <==> BoundingBox(h, t2, t3).Some?
    decreases h
  {
    if h.List? {
      forall i | 0 <= i < |h.items|
        ensures BoundingBox(h.items[i], t0, t1).Some? <==> BoundingBox(h.items[i], t2, t3).Some?
      {
        BoxExistenceTimeFree(h.items[i], t0, t1, t2, t3);
      }
      ListBoxEncloses(h.items, t0, t1);
      ListBoxEncloses(h.items, t2, t3);
    }
  }

  /** Spheres of non-negative radius and BVH nodes with proper boxes: objects
      whose box really contains them. */
  predicate ProperlyBoxed(h: Hitable) {
    match h
    case Sphere(_, radius, _) => radius >= 0.0
    case MovingSphere(_, _, _, _, radius, _) => radius >= 0.0
    case List(items) => forall i :: 0 <= i < |items| ==> ProperlyBoxed(items[i])
    case BvhNode(_, _, box) => Proper(box)
  }

  /** A hit inside `(tmin, tmax)` means the ray passes strictly inside the
      object's box for `(t0, t1)` at some parameter of that interval, when the
      ray's time lies in `[t0, t1]`. */
  lemma {:induction false} HitEntersBox(h: Hitable, r: Ray, tmin: real, tmax: real, sqrt: real -> real, t0: real, t1: real)
    requires Queryable(h, r) && ProperlyBoxed(h) && IsSqrt(sqrt) && t0 <= r.time <= t1
    requires Hit(h, r, tmin, tmax, sqrt).Some?
    ensures BoundingBox(h, t0, t1).Some?
    ensures exists s :: tmin < s < tmax && Inside(BoundingBox(h, t0, t1).value, PointAtParameter(r, s))
    decreases h
  {
    match h
    case Sphere(center, radius, mat) =>
      HitSphereEntersBox(center, radius, mat, r, tmin, tmax, sqrt);
    case MovingSphere(c0, c1, time0, time1, radius, mat) =>
      var cm := Center(c0, c1, time0, time1, r.time);
      HitSphereEntersBox(cm, radius, mat, r, tmin, tmax, sqrt);
      var s :| tmin < s < tmax && Inside(SphereBox(cm, radius), PointAtParameter(r, s));
      MovingSphereBoxEncloses(h, t0, t1, r.time);
      InsideEnclosed(BoundingBox(h, t0, t1).value, SphereBox(cm, radius), PointAtParameter(r, s));
    case List(items) =>
      ListHitNearest(items, r, tmin, tmax, sqrt);
      var i :| 0 <= i < |items| && FirstNearest(items, r, tmin, tmax, sqrt, i);
      assert Queryable(items[i], r) by {
        if ContainsBvh(items[i]) { assert ContainsBvh(h); }
      }
      HitEntersBox(items[i], r, tmin, tmax, sqrt, t0, t1);
      ListBoxEncloses(items, t0, t1);
      var s :| tmin < s < tmax && Inside(BoundingBox(items[i], t0, t1).value, PointAtParameter(r, s));
      InsideEnclosed(BoundingBox(h, t0, t1).value, BoundingBox(items[i], t0, t1).value, PointAtParameter(r, s));
    case BvhNode(_, _, box) =>
      SlabHitIffPointBetweenFaces(box, r, tmin, tmax);
      var s :| tmin < s < tmax && BetweenFaces(box, PointAtParameter(r, s));
      BetweenFacesOfProperBox(box, PointAtParameter(r, s));
  }
}
