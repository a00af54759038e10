/** Bounding volume hierarchy (src/bvh_node.rs): construction by sorting on
    a randomly drawn axis and splitting in halves, and the pruned query. */
module Bvh {
  import opened Wrappers
  import opened Vectors
  import opened Rays
  import opened Boxes
  import opened Hitables

  datatype Ordering = Less | Equal | Greater

  /** The comparators ask for the box at times (0, 0), whatever times the
      tree is built for. */
  predicate HasBox(h: Hitable)
    requires WellFormed(h)
  {
    BoundingBox(h, 0.0, 0.0).Some?
  }

  predicate AllBoxed(s: seq<Hitable>) {
    forall i :: 0 <= i < |s| ==> WellFormed(s[i]) && HasBox(s[i])
  }

  /** The sort key on `axis`: the minimum corner of the box at (0, 0). */
  function Key(h: Hitable, axis: Axis): real
    requires WellFormed(h) && HasBox(h)
  {
    Index(BoundingBox(h, 0.0, 0.0).value.min, axis)
  }

  /** `box_x_compare`, `box_y_compare`, `box_z_compare`; `None` where the
      source panics with "Can't compare". */
  function BoxCompare(a: Hitable, b: Hitable, axis: Axis): (r: Option<Ordering>)
    requires WellFormed(a) && WellFormed(b)
    ensures r.None? <==> !HasBox(a) || !HasBox(b)
    ensures r == Some(Less) <==> HasBox(a) && HasBox(b) && Key(a, axis) < Key(b, axis)
    ensures r == Some(Equal) <==> HasBox(a) && HasBox(b) && Key(a, axis) == Key(b, axis)
    ensures r == Some(Greater) <==> HasBox(a) && HasBox(b) && Key(a, axis) > Key(b, axis)
  {
    match (BoundingBox(a, 0.0, 0.0), BoundingBox(b, 0.0, 0.0))
    case (Some(box0), Some(box1)) =>
      var k0, k1 := Index(box0.min, axis), Index(box1.min, axis);
      Some(if k0 < k1 then Less else if k0 == k1 then Equal else Greater)
    case _ => None
  }

  predicate SortedBy(s: seq<Hitable>, axis: Axis) {
    AllBoxed(s) && forall i, j :: 0 <= i < j < |s| ==> Key(s[i], axis) <= Key(s[j], axis)
  }

  /** `list.sort_by(box_*_compare)` on a list whose boxes all exist: the array
      ends up ordered by key and holds the same objects. */
  method SortByAxis(a: array<Hitable>, axis: Axis)
    requires AllBoxed(a[..])
    modifies a
    ensures SortedBy(a[..], axis)
    ensures multiset(a[..]) == multiset(old(a[..]))
  {
    var i := 0;
    while i < a.Length
      invariant 0 <= i <= a.Length
      invariant AllBoxed(a[..])
      invariant forall p, q :: 0 <= p < q < i ==> Key(a[p], axis) <= Key(a[q], axis)
      invariant multiset(a[..]) == multiset(old(a[..]))
    {
      InsertLast(a, i, axis);
      i := i + 1;
    }
  }

  /** One pass of the insertion sort: moves `a[i]` down past every larger key
      so that the prefix `a[..i + 1]` is ordered. */
  method InsertLast(a: array<Hitable>, i: int, axis: Axis)
    requires 0 <= i < a.Length && AllBoxed(a[..])
    requires forall p, q :: 0 <= p < q < i ==> Key(a[p], axis) <= Key(a[q], axis)
    modifies a
    ensures AllBoxed(a[..])
    ensures forall p, q :: 0 <= p < q <= i ==> Key(a[p], axis) <= Key(a[q], axis)
    ensures multiset(a[..]) == multiset(old(a[..]))
  {
    var j := i;
    while j > 0 && BoxCompare(a[j - 1], a[j], axis) == Some(Greater)
      invariant 0 <= j <= i
      invariant AllBoxed(a[..])
      invariant forall p, q :: 0 <= p < q <= i && p != j && q != j ==> Key(a[p], axis) <= Key(a[q], axis)
      invariant forall q :: j < q <= i ==> Key(a[j], axis) < Key(a[q], axis)
      invariant multiset(a[..]) == multiset(old(a[..]))
    {
      a[j - 1], a[j] := a[j], a[j - 1];
      j := j - 1;
    }
  }

  // ---------------------------------------------------------------------
  // Construction

  /** The two panics of `BvhNode::new` that exact arithmetic can reach:
      "Can't compare" from a comparator and "no bounding box". */
  datatype BuildError = CantCompare | NoBoundingBox

  /** The primitives a tree built from `n` objects holds, in order: a
      one-object node holds its object twice but counts it once. */
  function Leaves(t: Hitable, n: nat): seq<Hitable>
    decreases n
  {
    if !t.BvhNode? || n == 0 then []
    else if n == 1 then [t.left]
    else if n == 2 then [t.left, t.right]
    else Leaves(t.left, n / 2) + Leaves(t.right, n - n / 2)
  }

  function LeftLeaves(t: Hitable, n: nat): seq<Hitable>
    requires n >= 2
  {
    if !t.BvhNode? then [] else if n == 2 then [t.left] else Leaves(t.left, n / 2)
  }

  function RightLeaves(t: Hitable, n: nat): seq<Hitable>
    requires n >= 2
  {
    if !t.BvhNode? then [] else if n == 2 then [t.right] else Leaves(t.right, n - n / 2)
  }

  /** The shape `BvhNode::new` gives a tree for `n` objects and times
      `(time0, time1)`: both children the same object for one, the two objects
      for two, otherwise subtrees for the first `n / 2` and the rest; each
      stored box surrounds the boxes of the children. */
  predicate Built(t: Hitable, n: nat, time0: real, time1: real)
    decreases n
  {
    n >= 1 && t.BvhNode? && WellFormed(t) &&
    if n == 1 then
      t.left == t.right && BoundingBox(t.left, time0, time1) == Some(t.box)
    else if n == 2 then
      Some(t.box) == OptionalSurroundingBox(BoundingBox(t.left, time0, time1), BoundingBox(t.right, time0, time1))
    else
      Built(t.left, n / 2, time0, time1) && Built(t.right, n - n / 2, time0, time1) &&
      t.box == SurroundingBox(t.left.box, t.right.box)
  }

  /** On the axis drawn for the root, no object of the left part lies beyond
      any object of the right part. */
  predicate SplitOrdered(t: Hitable, n: nat, axis: Axis)
    requires n >= 2
  {
    AllBoxed(LeftLeaves(t, n)) && AllBoxed(RightLeaves(t, n)) &&
    forall p, q :: 0 <= p < |LeftLeaves(t, n)| && 0 <= q < |RightLeaves(t, n)| ==>
      Key(LeftLeaves(t, n)[p], axis) <= Key(RightLeaves(t, n)[q], axis)
  }

  /** The split of the catch-all arm: halves of `n / 2` and `n - n / 2`
      objects. For three or more objects both are non-empty and strictly
      smaller; for none, the left half is the same empty list again, so the
      source would recurse forever. */
  lemma SplitSizes(n: nat)
    ensures n >= 3 ==> 1 <= n / 2 < n && 1 <= n - n / 2 < n
    ensures n == 0 ==> n / 2 == 0 && n - n / 2 == n
  {
  }

  lemma AllBoxedSlice(s: seq<Hitable>, lo: nat, hi: nat)
    requires AllBoxed(s) && lo <= hi <= |s|
    ensures AllBoxed(s[lo..hi])
  {
    assert forall i :: 0 <= i < hi - lo ==> s[lo..hi][i] == s[lo + i];
  }

  /** `BvhNode::new(list, time0, time1)`. The random axis of each node is
      `draws(k)` for successive `k`; `next` is the first unused draw. An empty
      list is excluded: the source never returns for it. */
  method Build(list: seq<Hitable>, time0: real, time1: real, draws: nat -> Axis, k: nat)
    returns (r: Result<Hitable, BuildError>, next: nat)
    requires |list| > 0 && AllWellFormed(list)
    ensures r.Err? <==> exists i :: 0 <= i < |list| && !HasBox(list[i])
    ensures r.Err? ==> r.error == (if |list| == 1 then NoBoundingBox else CantCompare)
    ensures r.Ok? ==> Built(r.value, |list|, time0, time1)
    ensures r.Ok? ==> multiset(Leaves(r.value, |list|)) == multiset(list)
    ensures r.Ok? && |list| >= 2 ==> SplitOrdered(r.value, |list|, draws(k))
    ensures next > k
    decreases |list|, 1
  {
    var axis := draws(k);
    next := k + 1;
    var n := |list|;
    if n == 1 {
      var box := BoundingBox(list[0], time0, time1);
      BoxExistenceTimeFree(list[0], time0, time1, 0.0, 0.0);
      if box.None? {
        return Err(NoBoundingBox), next;
      }
      return Ok(BvhNode(list[0], list[0], box.value)), next;
    }
    if exists i :: 0 <= i < n && !HasBox(list[i]) {
      return Err(CantCompare), next;
    }
    var sorted := SortedCopy(list, axis);
    if n == 2 {
      var box := OptionalSurroundingBox(BoundingBox(sorted[0], time0, time1), BoundingBox(sorted[1], time0, time1));
      PairBuilt(sorted, box, time0, time1, axis);
      return Ok(BvhNode(sorted[0], sorted[1], box.value)), next;
    }
    var t;
    t, next := BuildSplit(sorted, time0, time1, draws, next, axis);
    return Ok(t), next;
  }

  /** The catch-all arm: build both halves of the sorted list and join them
      under the surrounding box of their boxes. */
  method BuildSplit(sorted: seq<Hitable>, time0: real, time1: real, draws: nat -> Axis, k: nat, ghost axis: Axis)
    returns (t: Hitable, next: nat)
    requires |sorted| >= 3 && SortedBy(sorted, axis)
    ensures Built(t, |sorted|, time0, time1)
    ensures multiset(Leaves(t, |sorted|)) == multiset(sorted)
    ensures SplitOrdered(t, |sorted|, axis)
    ensures next >= k
    decreases |sorted|, 0
  {
    var n := |sorted|;
    var half := n / 2;
    SplitSizes(n);
    AllBoxedSlice(sorted, 0, half);
    AllBoxedSlice(sorted, half, n);
    var ls, rs := sorted[..half], sorted[half..];
    NoMissingBox(ls);
    NoMissingBox(rs);
    var left, k1 := Build(ls, time0, time1, draws, k);
    var right, k2 := Build(rs, time0, time1, draws, k1);
    next := k2;
    var lt, rt := left.value, right.value;
    NodeBox(lt, time0, time1);
    NodeBox(rt, time0, time1);
    var box := OptionalSurroundingBox(BoundingBox(lt, time0, time1), BoundingBox(rt, time0, time1));
    t := BvhNode(lt, rt, box.value);
    SplitBuilt(sorted, ls, rs, t, time0, time1, axis);
  }

  /** `BvhNode::bounding_box` ignores its times: it is the stored box. */
  lemma NodeBox(t: Hitable, time0: real, time1: real)
    requires t.BvhNode? && WellFormed(t)
    ensures BoundingBox(t, time0, time1) == Some(t.box)
  {
  }

  lemma NoMissingBox(s: seq<Hitable>)
    requires AllBoxed(s)
    ensures AllWellFormed(s)
    ensures !exists i :: 0 <= i < |s| && !HasBox(s[i])
  {
  }

  /** The sort of `BvhNode::new`, run on a fresh array holding the list. */
  method SortedCopy(list: seq<Hitable>, axis: Axis) returns (sorted: seq<Hitable>)
    requires AllBoxed(list)
    ensures |sorted| == |list| && SortedBy(sorted, axis)
    ensures multiset(sorted) == multiset(list)
  {
    var a := new Hitable[|list|](i requires 0 <= i < |list| => list[i]);
    assert a[..] == list;
    SortByAxis(a, axis);
    sorted := a[..];
  }

  lemma PairBuilt(sorted: seq<Hitable>, box: Option<Aabb>, time0: real, time1: real, axis: Axis)
    requires |sorted| == 2 && SortedBy(sorted, axis)
    requires box == OptionalSurroundingBox(BoundingBox(sorted[0], time0, time1), BoundingBox(sorted[1], time0, time1))
    ensures box.Some?
    ensures Built(BvhNode(sorted[0], sorted[1], box.value), 2, time0, time1)
    ensures Leaves(BvhNode(sorted[0], sorted[1], box.value), 2) == sorted
    ensures SplitOrdered(BvhNode(sorted[0], sorted[1], box.value), 2, axis)
  {
    BoxExistenceTimeFree(sorted[0], time0, time1, 0.0, 0.0);
    var t := BvhNode(sorted[0], sorted[1], box.value);
    assert LeftLeaves(t, 2) == [sorted[0]] && RightLeaves(t, 2) == [sorted[1]];
  }

  lemma SplitBuilt(sorted: seq<Hitable>, ls: seq<Hitable>, rs: seq<Hitable>, t: Hitable, time0: real, time1: real, axis: Axis)
    requires |sorted| >= 3 && SortedBy(sorted, axis) && t.BvhNode?
    requires ls == sorted[..|sorted| / 2] && rs == sorted[|sorted| / 2..]
    requires Built(t.left, |ls|, time0, time1) && Built(t.right, |rs|, time0, time1)
    requires multiset(Leaves(t.left, |ls|)) == multiset(ls)
    requires multiset(Leaves(t.right, |rs|)) == multiset(rs)
    requires Some(t.box) == OptionalSurroundingBox(Some(t.left.box), Some(t.right.box))
    ensures Built(t, |sorted|, time0, time1)
    ensures multiset(Leaves(t, |sorted|)) == multiset(sorted)
    ensures SplitOrdered(t, |sorted|, axis)
  {
    var n, half := |sorted|, |sorted| / 2;
    JoinBuilt(t, n, |ls|, |rs|, time0, time1);
    ChildLeaves(t, n, |ls|, |rs|);
    MultisetSplit(sorted, half);
    HalvesOrdered(sorted, half, Leaves(t.left, |ls|), Leaves(t.right, |rs|), axis);
  }

  lemma JoinBuilt(t: Hitable, n: nat, a: nat, b: nat, time0: real, time1: real)
    requires n >= 3 && t.BvhNode? && a == n / 2 && b == n - n / 2
    requires Built(t.left, a, time0, time1) && Built(t.right, b, time0, time1)
    requires Some(t.box) == OptionalSurroundingBox(Some(t.left.box), Some(t.right.box))
    ensures Built(t, n, time0, time1)
  {
  }

  /** The leaves of a tree for three or more objects are those of its two
      subtrees, for the two halves' counts. */
  lemma ChildLeaves(t: Hitable, n: nat, a: nat, b: nat)
    requires n >= 3 && t.BvhNode? && a == n / 2 && b == n - n / 2
    ensures LeftLeaves(t, n) == Leaves(t.left, a) && RightLeaves(t, n) == Leaves(t.right, b)
    ensures Leaves(t, n) == Leaves(t.left, a) + Leaves(t.right, b)
  {
  }

  lemma MultisetSplit(s: seq<Hitable>, i: nat)
    requires i <= |s|
    ensures multiset(s) == multiset(s[..i]) + multiset(s[i..])
  {
    assert s == s[..i] + s[i..];
  }

  /** Two lists that are permutations of the halves of a sorted list are
      ordered against each other on the sort axis. */
  lemma HalvesOrdered(sorted: seq<Hitable>, half: nat, L: seq<Hitable>, R: seq<Hitable>, axis: Axis)
    requires half <= |sorted| && SortedBy(sorted, axis)
    requires multiset(L) == multiset(sorted[..half]) && multiset(R) == multiset(sorted[half..])
    ensures AllBoxed(L) && AllBoxed(R)
    ensures forall p, q :: 0 <= p < |L| && 0 <= q < |R| ==> Key(L[p], axis) <= Key(R[q], axis)
  {
    var n := |sorted|;
    forall p | 0 <= p < |L|
      ensures exists i :: 0 <= i < half && L[p] == sorted[i]
    {
      assert L[p] in multiset(sorted[..half]);
      assert L[p] in sorted[..half];
    }
    forall q | 0 <= q < |R|
      ensures exists j :: half <= j < n && R[q] == sorted[j]
    {
      assert R[q] in multiset(sorted[half..]);
      assert R[q] in sorted[half..];
      var j :| 0 <= j < n - half && sorted[half..][j] == R[q];
      assert sorted[half + j] == R[q];
    }
  }

  // ---------------------------------------------------------------------
  // Query

  /** The parameter of a hit record, if any. */
  function HitT(o: Option<HitRecord>): Option<real> {
    if o.None? then None else Some(o.value.t)
  }

  /** The smaller of two optional parameters; a missing one is ignored. */
  function Nearest(a: Option<real>, b: Option<real>): Option<real> {
    match (a, b)
    case (None, _) => b
    case (_, None) => a
    case (Some(x), Some(y)) => Some(if x <= y then x else y)
  }

  lemma NearestLaws(a: Option<real>, b: Option<real>, c: Option<real>)
    ensures Nearest(a, a) == a && Nearest(a, None) == a && Nearest(None, a) == a
    ensures Nearest(Nearest(a, b), c) == Nearest(a, Nearest(b, c))
  {
  }

  /** The list fold and the node break ties differently, but both keep the
      smaller parameter. */
  lemma CombinersAgree(a: Option<HitRecord>, b: Option<HitRecord>)
    ensures HitT(KeepNearer(a, b)) == Nearest(HitT(a), HitT(b))
    ensures HitT(NearerChild(a, b)) == Nearest(HitT(a), HitT(b))
  {
  }

  lemma ListHitSingle(x: Hitable, y: Hitable, r: Ray, tmin: real, tmax: real, sqrt: real -> real)
    requires Queryable(x, r) && Queryable(y, r)
    ensures ListHit([x], r, tmin, tmax, sqrt) == Hitables.Hit(x, r, tmin, tmax, sqrt)
    ensures ListHit([x, y], r, tmin, tmax, sqrt) == KeepNearer(Hitables.Hit(x, r, tmin, tmax, sqrt), Hitables.Hit(y, r, tmin, tmax, sqrt))
  {
    assert [x][..0] == [];
    assert [x, y][..1] == [x];
  }

  /** The nearest parameter over a concatenation is the nearer of the two
      parts' nearest parameters. */
  lemma {:induction false} ListHitAppend(xs: seq<Hitable>, ys: seq<Hitable>, r: Ray, tmin: real, tmax: real, sqrt: real -> real)
    requires AllQueryable(xs, r) && AllQueryable(ys, r)
    ensures AllQueryable(xs + ys, r)
    ensures HitT(ListHit(xs + ys, r, tmin, tmax, sqrt)) ==
      Nearest(HitT(ListHit(xs, r, tmin, tmax, sqrt)), HitT(ListHit(ys, r, tmin, tmax, sqrt)))
    decreases |ys|
  {
    if |ys| == 0 {
      assert xs + ys == xs;
      NearestLaws(HitT(ListHit(xs, r, tmin, tmax, sqrt)), None, None);
    } else {
      var m := |ys| - 1;
      var s := xs + ys;
      assert s[..|s| - 1] == xs + ys[..m];
      assert s[|s| - 1] == ys[m];
      ListHitAppend(xs, ys[..m], r, tmin, tmax, sqrt);
      CombinersAgree(ListHit(xs + ys[..m], r, tmin, tmax, sqrt), Hitables.Hit(ys[m], r, tmin, tmax, sqrt));
      CombinersAgree(ListHit(ys[..m], r, tmin, tmax, sqrt), Hitables.Hit(ys[m], r, tmin, tmax, sqrt));
      NearestLaws(HitT(ListHit(xs, r, tmin, tmax, sqrt)), HitT(ListHit(ys[..m], r, tmin, tmax, sqrt)),
                  HitT(Hitables.Hit(ys[m], r, tmin, tmax, sqrt)));
    }
  }

  /** A built tree holds its `n` objects, and its stored box encloses the box
      of every one of them for the build times. */
  lemma {:induction false} BuiltEncloses(t: Hitable, n: nat, time0: real, time1: real)
    requires Built(t, n, time0, time1)
    ensures |Leaves(t, n)| == n && AllWellFormed(Leaves(t, n))
    ensures forall i :: 0 <= i < n && BoundingBox(Leaves(t, n)[i], time0, time1).Some? ==>
      Encloses(t.box, BoundingBox(Leaves(t, n)[i], time0, time1).value)
    decreases n
  {
    if n >= 3 {
      var half := n / 2;
      var L, R := Leaves(t.left, half), Leaves(t.right, n - half);
      BuiltEncloses(t.left, half, time0, time1);
      BuiltEncloses(t.right, n - half, time0, time1);
      assert Leaves(t, n) == L + R;
      forall i | 0 <= i < n && BoundingBox(Leaves(t, n)[i], time0, time1).Some?
        ensures Encloses(t.box, BoundingBox(Leaves(t, n)[i], time0, time1).value)
      {
        if i < half {
          EnclosesTransitive(t.box, t.left.box, BoundingBox(L[i], time0, time1).value);
        } else {
          EnclosesTransitive(t.box, t.right.box, BoundingBox(R[i - half], time0, time1).value);
        }
      }
    }
  }

  predicate AllProperlyBoxed(s: seq<Hitable>) {
    forall i :: 0 <= i < |s| ==> ProperlyBoxed(s[i])
  }

  /** When one of the tree's objects is hit in `(tmin, tmax)` by a ray whose
      time lies in the build times, the root's slab test passes. */
  lemma LeafHitPassesRoot(t: Hitable, n: nat, r: Ray, tmin: real, tmax: real, sqrt: real -> real, time0: real, time1: real)
    requires Built(t, n, time0, time1) && AllProperlyBoxed(Leaves(t, n))
    requires Testable(r) && IsSqrt(sqrt) && time0 <= r.time <= time1
    ensures AllQueryable(Leaves(t, n), r)
    ensures ListHit(Leaves(t, n), r, tmin, tmax, sqrt).Some? ==> SlabHit(t.box, r, tmin, tmax)
  {
    BuiltEncloses(t, n, time0, time1);
    var ls := Leaves(t, n);
    if ListHit(ls, r, tmin, tmax, sqrt).Some? {
      ListHitNearest(ls, r, tmin, tmax, sqrt);
      var i :| 0 <= i < |ls| && FirstNearest(ls, r, tmin, tmax, sqrt, i) &&
        ListHit(ls, r, tmin, tmax, sqrt) == Hitables.Hit(ls[i], r, tmin, tmax, sqrt);
      HitEntersBox(ls[i], r, tmin, tmax, sqrt, time0, time1);
      var s :| tmin < s < tmax && Inside(BoundingBox(ls[i], time0, time1).value, PointAtParameter(r, s));
      InsideEnclosed(t.box, BoundingBox(ls[i], time0, time1).value, PointAtParameter(r, s));
      InsideMeansSlabHit(t.box, r, tmin, tmax, s);
    }
  }

  /** The pruned query of a built tree finds a hit at the same parameter as
      the nearest-hit fold over its leaves, taken in the tree's order, for a
      ray whose time lies in the build times. `BuiltTreeMatchesInput` carries
      this over to the list the tree was built from. */
  lemma {:induction false} BvhHitMatchesList(t: Hitable, n: nat, r: Ray, tmin: real, tmax: real, sqrt: real -> real, time0: real, time1: real)
    requires Built(t, n, time0, time1) && AllProperlyBoxed(Leaves(t, n))
    requires Testable(r) && IsSqrt(sqrt) && time0 <= r.time <= time1
    ensures Queryable(t, r) && AllQueryable(Leaves(t, n), r)
    ensures HitT(Hitables.Hit(t, r, tmin, tmax, sqrt)) == HitT(ListHit(Leaves(t, n), r, tmin, tmax, sqrt))
    decreases n, 1
  {
    LeafHitPassesRoot(t, n, r, tmin, tmax, sqrt, time0, time1);
    if !SlabHit(t.box, r, tmin, tmax) {
      RootMissed(t, r, tmin, tmax, sqrt);
    } else if n <= 2 {
      SmallTreeMatches(t, n, r, tmin, tmax, sqrt, time0, time1);
    } else {
      LargeTreeMatches(t, n, r, tmin, tmax, sqrt, time0, time1);
    }
  }

  /** The inductive case: both subtrees of a tree for three or more objects
      answer as the folds over their halves. */
  lemma {:induction false} LargeTreeMatches(t: Hitable, n: nat, r: Ray, tmin: real, tmax: real, sqrt: real -> real, time0: real, time1: real)
    requires Built(t, n, time0, time1) && AllProperlyBoxed(Leaves(t, n)) && n >= 3
    requires Testable(r) && IsSqrt(sqrt) && time0 <= r.time <= time1
    requires SlabHit(t.box, r, tmin, tmax)
    ensures Queryable(t, r) && AllQueryable(Leaves(t, n), r)
    ensures HitT(Hitables.Hit(t, r, tmin, tmax, sqrt)) == HitT(ListHit(Leaves(t, n), r, tmin, tmax, sqrt))
    decreases n, 0
  {
    var half := n / 2;
    ChildLeaves(t, n, half, n - half);
    ProperlyBoxedHalves(Leaves(t.left, half), Leaves(t.right, n - half));
    assert Built(t.left, half, time0, time1) && Built(t.right, n - half, time0, time1);
    BvhHitMatchesList(t.left, half, r, tmin, tmax, sqrt, time0, time1);
    BvhHitMatchesList(t.right, n - half, r, tmin, tmax, sqrt, time0, time1);
    JoinMatches(t, n, r, tmin, tmax, sqrt, time0, time1);
  }

  /** A node whose slab test fails is missed. */
  lemma RootMissed(t: Hitable, r: Ray, tmin: real, tmax: real, sqrt: real -> real)
    requires t.BvhNode? && Queryable(t, r) && !SlabHit(t.box, r, tmin, tmax)
    ensures Hitables.Hit(t, r, tmin, tmax, sqrt).None?
  {
  }

  /** The step of the induction: a node whose slab test passes and whose two
      subtrees answer as the folds over their halves answers as the fold over
      all its objects. */
  lemma JoinMatches(t: Hitable, n: nat, r: Ray, tmin: real, tmax: real, sqrt: real -> real, time0: real, time1: real)
    requires Built(t, n, time0, time1) && n >= 3 && Testable(r)
    requires SlabHit(t.box, r, tmin, tmax)
    requires Queryable(t.left, r) && AllQueryable(Leaves(t.left, n / 2), r)
    requires Queryable(t.right, r) && AllQueryable(Leaves(t.right, n - n / 2), r)
    requires HitT(Hitables.Hit(t.left, r, tmin, tmax, sqrt)) == HitT(ListHit(Leaves(t.left, n / 2), r, tmin, tmax, sqrt))
    requires HitT(Hitables.Hit(t.right, r, tmin, tmax, sqrt)) == HitT(ListHit(Leaves(t.right, n - n / 2), r, tmin, tmax, sqrt))
    ensures Queryable(t, r) && AllQueryable(Leaves(t, n), r)
    ensures HitT(Hitables.Hit(t, r, tmin, tmax, sqrt)) == HitT(ListHit(Leaves(t, n), r, tmin, tmax, sqrt))
  {
    NodeHitNearest(t, r, tmin, tmax, sqrt);
    LeavesHitNearest(t, n, r, tmin, tmax, sqrt);
  }

  /** A node whose slab test passes answers with the nearer of its children's answers. */
  lemma NodeHitNearest(t: Hitable, r: Ray, tmin: real, tmax: real, sqrt: real -> real)
    requires t.BvhNode? && Queryable(t, r) && SlabHit(t.box, r, tmin, tmax)
    ensures Queryable(t.left, r) && Queryable(t.right, r)
    ensures HitT(Hitables.Hit(t, r, tmin, tmax, sqrt)) ==
      Nearest(HitT(Hitables.Hit(t.left, r, tmin, tmax, sqrt)), HitT(Hitables.Hit(t.right, r, tmin, tmax, sqrt)))
  {
    CombinersAgree(Hitables.Hit(t.left, r, tmin, tmax, sqrt), Hitables.Hit(t.right, r, tmin, tmax, sqrt));
  }

  /** The fold over a tree's objects is the nearer of the folds over its halves. */
  lemma LeavesHitNearest(t: Hitable, n: nat, r: Ray, tmin: real, tmax: real, sqrt: real -> real)
    requires n >= 3 && t.BvhNode?
    requires AllQueryable(Leaves(t.left, n / 2), r) && AllQueryable(Leaves(t.right, n - n / 2), r)
    ensures AllQueryable(Leaves(t, n), r)
    ensures HitT(ListHit(Leaves(t, n), r, tmin, tmax, sqrt)) ==
      Nearest(HitT(ListHit(Leaves(t.left, n / 2), r, tmin, tmax, sqrt)),
              HitT(ListHit(Leaves(t.right, n - n / 2), r, tmin, tmax, sqrt)))
  {
    ChildLeaves(t, n, n / 2, n - n / 2);
    ListHitAppend(Leaves(t.left, n / 2), Leaves(t.right, n - n / 2), r, tmin, tmax, sqrt);
  }

  lemma ProperlyBoxedHalves(L: seq<Hitable>, R: seq<Hitable>)
    requires AllProperlyBoxed(L + R)
    ensures AllProperlyBoxed(L) && AllProperlyBoxed(R)
  {
    assert forall i :: 0 <= i < |L| ==> L[i] == (L + R)[i];
    assert forall i :: 0 <= i < |R| ==> R[i] == (L + R)[|L| + i];
  }

  /** The one- and two-object trees whose slab test passes answer as the
      fold over their objects. */
  lemma SmallTreeMatches(t: Hitable, n: nat, r: Ray, tmin: real, tmax: real, sqrt: real -> real, time0: real, time1: real)
    requires Built(t, n, time0, time1) && n <= 2 && Testable(r)
    requires SlabHit(t.box, r, tmin, tmax)
    ensures Queryable(t, r) && AllQueryable(Leaves(t, n), r)
    ensures HitT(Hitables.Hit(t, r, tmin, tmax, sqrt)) == HitT(ListHit(Leaves(t, n), r, tmin, tmax, sqrt))
  {
    var hl, hr := Hitables.Hit(t.left, r, tmin, tmax, sqrt), Hitables.Hit(t.right, r, tmin, tmax, sqrt);
    CombinersAgree(hl, hr);
    ListHitSingle(t.left, t.right, r, tmin, tmax, sqrt);
    if n == 1 {
      NearestLaws(HitT(hl), None, None);
    }
  }

  // ---------------------------------------------------------------------
  // Order does not matter to the nearest hit

  lemma NearestSwap(a: Option<real>, b: Option<real>, c: Option<real>)
    ensures Nearest(Nearest(a, b), c) == Nearest(Nearest(a, c), b)
  {
  }

  /** Every object of `ys` is an object of `xs` when both hold the same objects. */
  lemma PermMember(xs: seq<Hitable>, ys: seq<Hitable>, j: int) returns (i: int)
    requires multiset(xs) == multiset(ys) && 0 <= j < |ys|
    ensures 0 <= i < |xs| && xs[i] == ys[j]
  {
    assert ys[j] in multiset(ys);
    assert ys[j] in xs;
    i :| 0 <= i < |xs| && xs[i] == ys[j];
  }

  lemma PermQueryable(xs: seq<Hitable>, ys: seq<Hitable>, r: Ray)
    requires multiset(xs) == multiset(ys) && AllQueryable(xs, r)
    ensures AllQueryable(ys, r)
  {
    forall j | 0 <= j < |ys|
      ensures Queryable(ys[j], r)
    {
      var i := PermMember(xs, ys, j);
    }
  }

  lemma PermProperlyBoxed(xs: seq<Hitable>, ys: seq<Hitable>)
    requires multiset(xs) == multiset(ys) && AllProperlyBoxed(xs)
    ensures AllProperlyBoxed(ys)
  {
    forall j | 0 <= j < |ys|
      ensures ProperlyBoxed(ys[j])
    {
      var i := PermMember(xs, ys, j);
    }
  }

  /** The nearest hit over a list does not depend on the order of its
      objects: two lists holding the same objects are hit at the same
      parameter. */
  lemma {:induction false} ListHitPerm(xs: seq<Hitable>, ys: seq<Hitable>, r: Ray, tmin: real, tmax: real, sqrt: real -> real)
    requires multiset(xs) == multiset(ys) && AllQueryable(xs, r)
    ensures AllQueryable(ys, r)
    ensures HitT(ListHit(xs, r, tmin, tmax, sqrt)) == HitT(ListHit(ys, r, tmin, tmax, sqrt))
    decreases |xs|
  {
    PermQueryable(xs, ys, r);
    if |xs| == 0 {
      assert |ys| == |multiset(ys)| == 0;
    } else {
      var n := |xs| - 1;
      var x, pre := xs[n], xs[..n];
      assert xs == pre + [x];
      var j := PermMember(ys, xs, n);
      var front, back := ys[..j], ys[j + 1..];
      assert ys == front + [x] + back;
      var rest := front + back;
      assert multiset(pre) + multiset{x} == multiset(front) + multiset{x} + multiset(back);
      assert multiset(rest) == multiset(front) + multiset(back);
      var m := multiset(pre) + multiset{x};
      assert multiset(pre) == m - multiset{x};
      assert multiset(pre) == multiset(rest);
      assert AllQueryable(pre, r) by {
        forall i | 0 <= i < n ensures Queryable(pre[i], r) { assert pre[i] == xs[i]; }
      }
      assert AllQueryable(front, r) && AllQueryable([x], r) && AllQueryable(back, r) by {
        forall i | 0 <= i < |front| ensures Queryable(front[i], r) { assert front[i] == ys[i]; }
        forall i | 0 <= i < |back| ensures Queryable(back[i], r) { assert back[i] == ys[j + 1 + i]; }
      }
      ListHitPerm(pre, rest, r, tmin, tmax, sqrt);
      ListHitAppend(pre, [x], r, tmin, tmax, sqrt);
      ListHitAppend(front, [x], r, tmin, tmax, sqrt);
      ListHitAppend(front + [x], back, r, tmin, tmax, sqrt);
      ListHitAppend(front, back, r, tmin, tmax, sqrt);
      NearestSwap(HitT(ListHit(front, r, tmin, tmax, sqrt)), HitT(ListHit(back, r, tmin, tmax, sqrt)),
                  HitT(ListHit([x], r, tmin, tmax, sqrt)));
    }
  }

  /** A tree as `Build` returns it, for a list of properly boxed objects,
      answers every ray whose time lies in the build times at the same
      parameter as the nearest-hit fold over that list, in the list's own
      order. */
  lemma BuiltTreeMatchesInput(t: Hitable, list: seq<Hitable>, r: Ray, tmin: real, tmax: real, sqrt: real -> real, time0: real, time1: real)
    requires Built(t, |list|, time0, time1) && multiset(Leaves(t, |list|)) == multiset(list)
    requires AllProperlyBoxed(list)
    requires Testable(r) && IsSqrt(sqrt) && time0 <= r.time <= time1
    ensures Queryable(t, r) && AllQueryable(list, r)
    ensures HitT(Hitables.Hit(t, r, tmin, tmax, sqrt)) == HitT(ListHit(list, r, tmin, tmax, sqrt))
  {
    var n := |list|;
    PermProperlyBoxed(list, Leaves(t, n));
    BvhHitMatchesList(t, n, r, tmin, tmax, sqrt, time0, time1);
    ListHitPerm(Leaves(t, n), list, r, tmin, tmax, sqrt);
  }
}
