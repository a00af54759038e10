/** Axis-aligned bounding boxes and the slab test (src/aabb.rs). */
module Boxes {
  import opened Wrappers
  import opened Vectors
  import opened Rays
  import opened Reals

  datatype Aabb = Aabb(min: Vec3, max: Vec3)

  type Axis = a: nat | a < 3

  /** `ffmax`: the larger argument, the second one on a tie. */
  function FFMax(a: real, b: real): (r: real)
    ensures r >= a && r >= b
    ensures r == a || r == b
  {
    if a > b then a else b
  }

  /** `ffmin`: the smaller argument, the second one on a tie. */
  function FFMin(a: real, b: real): (r: real)
    ensures r <= a && r <= b
    ensures r == a || r == b
  {
    if a < b then a else b
  }

  /** Componentwise `a <= b`. */
  predicate LessEq(a: Vec3, b: Vec3) {
    a.x <= b.x && a.y <= b.y && a.z <= b.z
  }

  /** A box whose minimum corner is below its maximum corner on every axis. */
  predicate Proper(b: Aabb) {
    LessEq(b.min, b.max)
  }

  /** `outer` contains `inner`. */
  predicate Encloses(outer: Aabb, inner: Aabb) {
    LessEq(outer.min, inner.min) && LessEq(inner.max, outer.max)
  }

  /** `surrounding_box`: componentwise minimum of the minima and maximum of
      the maxima (`f64::min`/`f64::max` agree with FFMin/FFMax on reals). */
  function SurroundingBox(b1: Aabb, b2: Aabb): (r: Aabb)
    ensures Encloses(r, b1) && Encloses(r, b2)
  {
    Aabb(Vec3(FFMin(b1.min.x, b2.min.x), FFMin(b1.min.y, b2.min.y), FFMin(b1.min.z, b2.min.z)),
         Vec3(FFMax(b1.max.x, b2.max.x), FFMax(b1.max.y, b2.max.y), FFMax(b1.max.z, b2.max.z)))
  }

  /** `optional_surrounding_box`: a missing box is ignored. */
  function OptionalSurroundingBox(b0: Option<Aabb>, b1: Option<Aabb>): (r: Option<Aabb>)
    ensures r.None? <==> b0.None? && b1.None?
    ensures b0.Some? ==> Encloses(r.value, b0.value)
    ensures b1.Some? ==> Encloses(r.value, b1.value)
  {
    match (b0, b1)
    case (Some(x), Some(y)) => Some(SurroundingBox(x, y))
    case (Some(x), None) => Some(x)
    case (None, Some(y)) => Some(y)
    case (None, None) => None
  }

  // ---------------------------------------------------------------------
  // The slab test

  /** The slab test divides by every direction component; with exact reals a
      zero component has no IEEE infinity to stand for. */
  predicate Testable(r: Ray) {
    NonZeroComponents(r.direction)
  }

  /** Ray parameter where the ray crosses the two faces of the box on axis `a`. */
  function MinT(b: Aabb, r: Ray, a: Axis): real
    requires Testable(r)
  {
    (Index(b.min, a) - Index(r.origin, a)) / Index(r.direction, a)
  }

  function MaxT(b: Aabb, r: Ray, a: Axis): real
    requires Testable(r)
  {
    (Index(b.max, a) - Index(r.origin, a)) / Index(r.direction, a)
  }

  /** Entry and exit parameters of the slab on axis `a`. */
  function SlabT0(b: Aabb, r: Ray, a: Axis): real
    requires Testable(r)
  {
    FFMin(MinT(b, r, a), MaxT(b, r, a))
  }

  function SlabT1(b: Aabb, r: Ray, a: Axis): real
    requires Testable(r)
  {
    FFMax(MinT(b, r, a), MaxT(b, r, a))
  }

  /** Each slab's entry comes no later than its exit; both are face crossings. */
  lemma SlabOrdered(b: Aabb, r: Ray, a: Axis)
    requires Testable(r)
    ensures SlabT0(b, r, a) <= SlabT1(b, r, a)
    ensures {SlabT0(b, r, a), SlabT1(b, r, a)} == {MinT(b, r, a), MaxT(b, r, a)}
  {
  }

  /** The interval `(tmin, tmax)` after the loop has processed axes `0..n`. */
  function Narrowed(b: Aabb, r: Ray, tmin: real, tmax: real, n: nat): (real, real)
    requires Testable(r) && n <= 3
  {
    if n == 0 then (tmin, tmax)
    else
      var (lo, hi) := Narrowed(b, r, tmin, tmax, n - 1);
      (FFMax(SlabT0(b, r, n - 1), lo), FFMin(SlabT1(b, r, n - 1), hi))
  }

  /** The verdict of `Aabb::hit`: the interval left after all three axes is non-empty. */
  predicate SlabHit(b: Aabb, r: Ray, tmin: real, tmax: real)
    requires Testable(r)
  {
    Narrowed(b, r, tmin, tmax, 3).0 < Narrowed(b, r, tmin, tmax, 3).1
  }

  /** `Aabb::hit`: narrows `(tmin, tmax)` axis by axis and gives up as soon as
      the interval is empty. */
  method Hit(b: Aabb, r: Ray, tmin0: real, tmax0: real) returns (hit: bool)
    requires Testable(r)
    ensures hit == SlabHit(b, r, tmin0, tmax0)
  {
    var tmin, tmax := tmin0, tmax0;
    for a := 0 to 3
      invariant (tmin, tmax) == Narrowed(b, r, tmin0, tmax0, a)
      invariant a > 0 ==> tmin < tmax
    {
      var minT := (Index(b.min, a) - Index(r.origin, a)) / Index(r.direction, a);
      var maxT := (Index(b.max, a) - Index(r.origin, a)) / Index(r.direction, a);
      assert minT == MinT(b, r, a) && maxT == MaxT(b, r, a);
      var t0 := FFMin(minT, maxT);
      var t1 := FFMax(minT, maxT);
      tmin := FFMax(t0, tmin);
      tmax := FFMin(t1, tmax);
      assert (tmin, tmax) == Narrowed(b, r, tmin0, tmax0, a + 1);
      if tmax <= tmin {
        NarrowedMonotone(b, r, tmin0, tmax0, a + 1, 3);
        return false;
      }
    }
    return true;
  }

  // ---------------------------------------------------------------------
  // What the slab test decides

  /** Later axes only shrink the interval. */
  lemma {:induction false} NarrowedMonotone(b: Aabb, r: Ray, tmin: real, tmax: real, n: nat, m: nat)
    requires Testable(r) && n <= m <= 3
    ensures Narrowed(b, r, tmin, tmax, m).0 >= Narrowed(b, r, tmin, tmax, n).0
    ensures Narrowed(b, r, tmin, tmax, m).1 <= Narrowed(b, r, tmin, tmax, n).1
  {
    if n < m {
      NarrowedMonotone(b, r, tmin, tmax, n, m - 1);
    }
  }

  /** The ray parameter `s` lies strictly inside the slab of axis `a`. */
  predicate InSlab(b: Aabb, r: Ray, a: Axis, s: real)
    requires Testable(r)
  {
    SlabT0(b, r, a) < s < SlabT1(b, r, a)
  }

  predicate InAllSlabs(b: Aabb, r: Ray, s: real)
    requires Testable(r)
  {
    InSlab(b, r, 0, s) && InSlab(b, r, 1, s) && InSlab(b, r, 2, s)
  }

  /** The interval after `n` axes lies within the incoming one and within each
      slab processed so far. */
  lemma {:induction false} NarrowedBounds(b: Aabb, r: Ray, tmin: real, tmax: real, n: nat)
    requires Testable(r) && n <= 3
    ensures Narrowed(b, r, tmin, tmax, n).0 >= tmin && Narrowed(b, r, tmin, tmax, n).1 <= tmax
    ensures forall a: Axis :: a < n ==>
      Narrowed(b, r, tmin, tmax, n).0 >= SlabT0(b, r, a) && Narrowed(b, r, tmin, tmax, n).1 <= SlabT1(b, r, a)
  {
    if n > 0 {
      NarrowedBounds(b, r, tmin, tmax, n - 1);
      NarrowedMonotone(b, r, tmin, tmax, n - 1, n);
    }
  }

  /** A parameter inside the incoming interval and inside the first `n` slabs
      stays inside the narrowed interval. */
  lemma {:induction false} NarrowedKeeps(b: Aabb, r: Ray, tmin: real, tmax: real, n: nat, s: real)
    requires Testable(r) && n <= 3
    requires tmin < s < tmax
    requires forall a: Axis :: a < n ==> InSlab(b, r, a, s)
    ensures Narrowed(b, r, tmin, tmax, n).0 < s < Narrowed(b, r, tmin, tmax, n).1
  {
    if n > 0 {
      NarrowedKeeps(b, r, tmin, tmax, n - 1, s);
      assert InSlab(b, r, n - 1, s);
    }
  }

  /** The slab test succeeds exactly when some parameter in `(tmin, tmax)`
      lies inside all three slabs. */
  lemma SlabHitIffCommonParameter(b: Aabb, r: Ray, tmin: real, tmax: real)
    requires Testable(r)
    ensures SlabHit(b, r, tmin, tmax) <==> exists s :: tmin < s < tmax && InAllSlabs(b, r, s)
  {
    if SlabHit(b, r, tmin, tmax) {
      var (lo, hi) := Narrowed(b, r, tmin, tmax, 3);
      NarrowedBounds(b, r, tmin, tmax, 3);
      var s := (lo + hi) / 2.0;
      assert InSlab(b, r, 0, s) && InSlab(b, r, 1, s) && InSlab(b, r, 2, s);
      assert tmin < s < tmax && InAllSlabs(b, r, s);
    }
    if s :| tmin < s < tmax && InAllSlabs(b, r, s) {
      NarrowedKeeps(b, r, tmin, tmax, 3, s);
    }
  }

  /** An already empty interval is never hit. */
  lemma EmptyIntervalMisses(b: Aabb, r: Ray, tmin: real, tmax: real)
    requires Testable(r) && tmax <= tmin
    ensures !SlabHit(b, r, tmin, tmax)
  {
    NarrowedBounds(b, r, tmin, tmax, 3);
  }

  /** `p` lies strictly between `lo` and `hi`, whichever way round they are. */
  predicate Between(p: real, lo: real, hi: real) {
    lo < p < hi || hi < p < lo
  }

  /** The point lies strictly between the two faces on every axis. */
  predicate BetweenFaces(b: Aabb, p: Vec3) {
    Between(p.x, b.min.x, b.max.x) && Between(p.y, b.min.y, b.max.y) && Between(p.z, b.min.z, b.max.z)
  }

  /** The point lies strictly inside the box. */
  predicate Inside(b: Aabb, p: Vec3) {
    b.min.x < p.x < b.max.x && b.min.y < p.y < b.max.y && b.min.z < p.z < b.max.z
  }

  /** One axis of the slab test: the parameter is inside the slab iff the
      point at that parameter is between the two faces. */
  lemma AxisSlab(b: Aabb, r: Ray, a: Axis, s: real)
    requires Testable(r)
    ensures InSlab(b, r, a, s) <==>
      Between(Index(r.origin, a) + Index(r.direction, a) * s, Index(b.min, a), Index(b.max, a))
  {
    var lo, hi, o, d := Index(b.min, a), Index(b.max, a), Index(r.origin, a), Index(r.direction, a);
    DivCompare(lo - o, s, d);
    DivCompare(hi - o, s, d);
    assert s * d == d * s;
  }

  lemma InSlabIffBetween(b: Aabb, r: Ray, a: Axis, s: real)
    requires Testable(r)
    ensures InSlab(b, r, a, s) <==>
      Between(Index(PointAtParameter(r, s), a), Index(b.min, a), Index(b.max, a))
  {
    IndexPointAt(r, s, a);
    AxisSlab(b, r, a, s);
  }

  /** Axis `a` of the point at parameter `s`. */
  lemma IndexPointAt(r: Ray, s: real, a: Axis)
    ensures Index(PointAtParameter(r, s), a) == Index(r.origin, a) + Index(r.direction, a) * s
  {
  }

  lemma InAllSlabsIffBetweenFaces(b: Aabb, r: Ray, s: real)
    requires Testable(r)
    ensures InAllSlabs(b, r, s) <==> BetweenFaces(b, PointAtParameter(r, s))
  {
    InSlabIffBetween(b, r, 0, s);
    InSlabIffBetween(b, r, 1, s);
    InSlabIffBetween(b, r, 2, s);
  }

  /** The slab test reports a hit exactly when the ray meets the region between
      the faces at some parameter strictly inside `(tmin, tmax)`. */
  lemma SlabHitIffPointBetweenFaces(b: Aabb, r: Ray, tmin: real, tmax: real)
    requires Testable(r)
    ensures SlabHit(b, r, tmin, tmax) <==>
      exists s :: tmin < s < tmax && BetweenFaces(b, PointAtParameter(r, s))
  {
    SlabHitIffCommonParameter(b, r, tmin, tmax);
    forall s | tmin < s < tmax
      ensures InAllSlabs(b, r, s) <==> BetweenFaces(b, PointAtParameter(r, s))
    {
      InAllSlabsIffBetweenFaces(b, r, s);
    }
  }

  /** For a proper box, being between the faces is being strictly inside. */
  lemma BetweenFacesOfProperBox(b: Aabb, p: Vec3)
    requires Proper(b)
    ensures BetweenFaces(b, p) <==> Inside(b, p)
  {
  }

  /** A ray that passes strictly inside a box during `(tmin, tmax)` passes
      the slab test of that box. */
  lemma InsideMeansSlabHit(b: Aabb, r: Ray, tmin: real, tmax: real, s: real)
    requires Testable(r) && tmin < s < tmax && Inside(b, PointAtParameter(r, s))
    ensures SlabHit(b, r, tmin, tmax)
  {
    SlabHitIffPointBetweenFaces(b, r, tmin, tmax);
  }

  /** Points strictly inside a box are strictly inside every box enclosing it. */
  lemma InsideEnclosed(outer: Aabb, inner: Aabb, p: Vec3)
    requires Encloses(outer, inner) && Inside(inner, p)
    ensures Inside(outer, p)
  {
  }

  // ---------------------------------------------------------------------
  // Laws of the surrounding box

  /** No smaller box encloses both: the surrounding box is their least upper bound. */
  lemma SurroundingBoxLeast(b1: Aabb, b2: Aabb, o: Aabb)
    requires Encloses(o, b1) && Encloses(o, b2)
    ensures Encloses(o, SurroundingBox(b1, b2))
  {
  }

  lemma SurroundingBoxLaws(b1: Aabb, b2: Aabb, b3: Aabb)
    ensures SurroundingBox(b1, b2) == SurroundingBox(b2, b1)
    ensures SurroundingBox(b1, b1) == b1
    ensures SurroundingBox(SurroundingBox(b1, b2), b3) == SurroundingBox(b1, SurroundingBox(b2, b3))
    ensures Proper(b1) ==> Proper(SurroundingBox(b1, b2))
  {
  }

  lemma EnclosesTransitive(a: Aabb, b: Aabb, c: Aabb)
    requires Encloses(a, b) && Encloses(b, c)
    ensures Encloses(a, c)
  {
  }

  /** `optional_surrounding_box` treats a missing box as the neutral element. */
  lemma OptionalSurroundingBoxCases(b0: Option<Aabb>, b1: Option<Aabb>)
    ensures b0.Some? && b1.Some? ==> OptionalSurroundingBox(b0, b1) == Some(SurroundingBox(b0.value, b1.value))
    ensures b1.None? ==> OptionalSurroundingBox(b0, b1) == b0
    ensures b0.None? ==> OptionalSurroundingBox(b0, b1) == b1
  {
  }
}
