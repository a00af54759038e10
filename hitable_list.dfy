/** The older `HitableList::hit` of src/hitable_list.rs: a left fold that
    keeps the first record found and stops querying after it. It reports the
    first item in list order that is hit, not the nearest one. The item query
    `item.hit(r, t_min, t_max)` is the parameter `hit`. */
module OldLists {
  import opened Wrappers
  import opened Rays
  import opened OldSpheres

  /** The fold over `items` from the first to the last: an accumulated
      `Some` is kept, and an item is queried only while nothing was found. */
  function FirstHit<T, R>(items: seq<T>, hit: T -> Option<R>): Option<R>
    decreases |items|
  {
    if |items| == 0 then None
    else
      match FirstHit(items[..|items| - 1], hit)
      case Some(x) => Some(x)
      case None => hit(items[|items| - 1])
  }

  /** No record exactly when every item misses; otherwise the record of the
      first item that is hit, all earlier items missing. */
  lemma {:induction false} FirstHitFirst<T, R>(items: seq<T>, hit: T -> Option<R>)
    ensures FirstHit(items, hit).None? <==> forall i :: 0 <= i < |items| ==> hit(items[i]).None?
    ensures FirstHit(items, hit).Some? ==>
      exists i :: 0 <= i < |items| && FirstHit(items, hit) == hit(items[i]) &&
        forall j :: 0 <= j < i ==> hit(items[j]).None?
    decreases |items|
  {
    if |items| > 0 {
      var n := |items| - 1;
      var pre := items[..n];
      FirstHitFirst(pre, hit);
      assert forall j :: 0 <= j < n ==> pre[j] == items[j];
      if FirstHit(pre, hit).Some? {
        var i :| 0 <= i < n && FirstHit(pre, hit) == hit(pre[i]) &&
          forall j :: 0 <= j < i ==> hit(pre[j]).None?;
        assert FirstHit(items, hit) == hit(items[i]);
      } else {
        assert FirstHit(items, hit) == hit(items[n]);
      }
    }
  }

  /** Once a record is found, the items after it are never queried: appending
      any items leaves the result unchanged. */
  lemma {:induction false} FirstHitStops<T, R>(xs: seq<T>, ys: seq<T>, hit: T -> Option<R>)
    requires FirstHit(xs, hit).Some?
    ensures FirstHit(xs + ys, hit) == FirstHit(xs, hit)
    decreases |ys|
  {
    if |ys| > 0 {
      var m := |ys| - 1;
      assert (xs + ys)[..|xs + ys| - 1] == xs + ys[..m];
      FirstHitStops(xs, ys[..m], hit);
    } else {
      assert xs + ys == xs;
    }
  }

  /** The answer depends on the items only through their own answers. */
  lemma {:induction false} FirstHitOfAnswers<T, R>(items: seq<T>, hit: T -> Option<R>)
    ensures FirstHit(items, hit) == FirstHit(seq(|items|, i requires 0 <= i < |items| => hit(items[i])), o => o)
    decreases |items|
  {
    if |items| > 0 {
      var n := |items| - 1;
      var hs := seq(|items|, i requires 0 <= i < |items| => hit(items[i]));
      FirstHitOfAnswers(items[..n], hit);
      assert hs[..n] == seq(n, i requires 0 <= i < n => hit(items[..n][i]));
    }
  }

  /** The first item wins even when a later item is hit nearer: over old
      spheres, a hit of item 0 is the answer, farther than the hit of item `j`. */
  lemma FirstHitNotNearest(items: seq<OldSphere>, r: Ray, tmin: real, tmax: real, sqrt: real -> real, j: int)
    requires 0 < j < |items|
    requires OldSphereHit(items[0], r, tmin, tmax, sqrt).Some?
    requires OldSphereHit(items[j], r, tmin, tmax, sqrt).Some?
    requires OldSphereHit(items[j], r, tmin, tmax, sqrt).value.t < OldSphereHit(items[0], r, tmin, tmax, sqrt).value.t
    ensures FirstHit(items, s => OldSphereHit(s, r, tmin, tmax, sqrt)) == OldSphereHit(items[0], r, tmin, tmax, sqrt)
    ensures FirstHit(items, s => OldSphereHit(s, r, tmin, tmax, sqrt)).value.t >
      OldSphereHit(items[j], r, tmin, tmax, sqrt).value.t
  {
    var hit := s => OldSphereHit(s, r, tmin, tmax, sqrt);
    assert items[..1][..0] == [];
    assert FirstHit(items[..1], hit) == hit(items[0]);
    FirstHitStops(items[..1], items[1..], hit);
    assert items[..1] + items[1..] == items;
  }
}
