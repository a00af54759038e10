/** The path-tracing recursion of src/main.rs: `color` and `background`.
    The world query `world.hit` and the material dispatch
    `(*rec.material).scatter` are parameters. */
module Integrator {
  import opened Wrappers
  import opened Vectors
  import opened Rays
  import opened Reals
  import opened Hitables
  import opened Materials

  /** The query window of `color`: `0.01` up to `f64::MAX`, written out exactly. */
  const TMin: real := 0.01
  const TMax: real := 179769313486231570814527423731704356798070567525844996598917476803157260780028538760589558632766878171540458953514382464234321326889464182768467546703537516986049910576551282076245490090389328944075868508455133942304583236903222948165808559332123348274797826204144723168738177180919299881250404026184124858368.0

  /** Recursion stops scattering at this depth. */
  const MaxDepth: nat := 50

  type World = (Ray, real, real) -> Option<HitRecord>
  type Shader = (Ray, HitRecord) -> Option<MaterialRecord>

  function Black(): Vec3 { FromF(0.0) }

  /** The sky colour for a unit direction with height `y`: white blended
      towards (0.5, 0.7, 1) by `t = 0.5 (y + 1)`. */
  function BackgroundOf(y: real): Vec3 {
    var t := 0.5 * (y + 1.0);
    Add(Scale(Vec3(1.0, 1.0, 1.0), 1.0 - t), Scale(Vec3(0.5, 0.7, 1.0), t))
  }

  /** `background(r)`; `None` where `unit_vector` of a zero direction is NaN. */
  function Background(r: Ray, sqrt: real -> real): Option<Vec3> {
    if Length(r.direction, sqrt) == 0.0 then None
    else Some(BackgroundOf(UnitVector(r.direction, sqrt).y))
  }

  /** `color(r, world, depth)`: a miss shows the sky; a hit at depth 50 or
      above, or one the material absorbs, is black; otherwise the
      attenuation times the colour of the scattered ray one level deeper.
      `None` stands for a NaN from the sky of a zero direction. */
  function Color(r: Ray, depth: nat, world: World, shade: Shader, sqrt: real -> real): Option<Vec3>
    decreases if depth < MaxDepth then MaxDepth - depth else 0
  {
    match world(r, TMin, TMax)
    case None => Background(r, sqrt)
    case Some(rec) =>
      if depth < MaxDepth then
        match shade(r, rec)
        case Some(m) =>
          (match Color(m.scattered, depth + 1, world, shade, sqrt)
           case Some(c) => Some(Mul(m.attenuation, c))
           case None => None)
        case None => Some(Black())
      else Some(Black())
  }

  /** The number of scatters along the path `color` follows from `r`. */
  function Bounces(r: Ray, depth: nat, world: World, shade: Shader): nat
    decreases if depth < MaxDepth then MaxDepth - depth else 0
  {
    match world(r, TMin, TMax)
    case None => 0
    case Some(rec) =>
      if depth < MaxDepth then
        match shade(r, rec)
        case Some(m) => 1 + Bounces(m.scattered, depth + 1, world, shade)
        case None => 0
      else 0
  }

  // ---------------------------------------------------------------------
  // Properties

  /** The blend's endpoints: straight up is (0.5, 0.7, 1), straight down is white. */
  lemma BackgroundEndpoints()
    ensures BackgroundOf(1.0) == Vec3(0.5, 0.7, 1.0)
    ensures BackgroundOf(-1.0) == Vec3(1.0, 1.0, 1.0)
  {
    assert Scale(Vec3(1.0, 1.0, 1.0), 0.0) == Zero();
    assert Scale(Vec3(0.5, 0.7, 1.0), 1.0) == Vec3(0.5, 0.7, 1.0);
    assert Scale(Vec3(1.0, 1.0, 1.0), 1.0) == Vec3(1.0, 1.0, 1.0);
    assert Scale(Vec3(0.5, 0.7, 1.0), 0.0) == Zero();
  }

  /** For heights in [-1, 1] every channel stays between its two endpoint values. */
  lemma BackgroundOfBounds(y: real)
    requires -1.0 <= y <= 1.0
    ensures 0.5 <= BackgroundOf(y).x <= 1.0 && 0.7 <= BackgroundOf(y).y <= 1.0 && BackgroundOf(y).z == 1.0
  {
  }

  /** Under an exact square root every non-zero direction has a sky colour,
      and its channels lie within the blend's range. */
  lemma BackgroundBounds(r: Ray, sqrt: real -> real)
    requires IsSqrt(sqrt) && Length(r.direction, sqrt) != 0.0
    ensures Background(r, sqrt).Some?
    ensures 0.5 <= Background(r, sqrt).value.x <= 1.0
    ensures 0.7 <= Background(r, sqrt).value.y <= 1.0
    ensures Background(r, sqrt).value.z == 1.0
  {
    var v := r.direction;
    var s := SquaredLength(v);
    var l := Length(v, sqrt);
    SquaredLengthNonNegative(v);
    assert l >= 0.0 && l * l == s;
    var yy := v.y * v.y;
    SumSquaresNonNegative(v.x, v.z, 0.0);
    assert yy <= s;
    QuotientWithinOne(v.y, l, s, yy);
    BackgroundOfBounds(UnitVector(v, sqrt).y);
  }

  /** A miss shows the sky, whatever the depth. */
  lemma ColorMiss(r: Ray, depth: nat, world: World, shade: Shader, sqrt: real -> real)
    requires world(r, TMin, TMax).None?
    ensures Color(r, depth, world, shade, sqrt) == Background(r, sqrt)
  {
  }

  /** A hit turns black at depth 50 or when the material absorbs. */
  lemma ColorBlack(r: Ray, depth: nat, world: World, shade: Shader, sqrt: real -> real)
    requires world(r, TMin, TMax).Some?
    requires depth >= MaxDepth || shade(r, world(r, TMin, TMax).value).None?
    ensures Color(r, depth, world, shade, sqrt) == Some(Black())
  {
  }

  /** Otherwise the colour is the attenuation times the colour one level deeper. */
  lemma ColorScatter(r: Ray, depth: nat, world: World, shade: Shader, sqrt: real -> real)
    requires world(r, TMin, TMax).Some? && depth < MaxDepth
    requires shade(r, world(r, TMin, TMax).value).Some?
    ensures var m := shade(r, world(r, TMin, TMax).value).value;
      var deeper := Color(m.scattered, depth + 1, world, shade, sqrt);
      Color(r, depth, world, shade, sqrt) == (if deeper.Some? then Some(Mul(m.attenuation, deeper.value)) else None)
  {
  }

  /** Started at depth `depth`, at most `50 - depth` scatters happen: from
      the camera's depth 0, at most 50. */
  lemma {:induction false} BouncesBounded(r: Ray, depth: nat, world: World, shade: Shader)
    ensures Bounces(r, depth, world, shade) <= if depth < MaxDepth then MaxDepth - depth else 0
    decreases if depth < MaxDepth then MaxDepth - depth else 0
  {
    match world(r, TMin, TMax)
    case None =>
    case Some(rec) =>
      if depth < MaxDepth {
        match shade(r, rec)
        case Some(m) => BouncesBounded(m.scattered, depth + 1, world, shade);
        case None =>
      }
  }

  /** A world that every ray hits, made of materials that never absorb,
      renders black: the light never reaches the sky before the cutoff. */
  lemma {:induction false} EnclosedWorldIsBlack(r: Ray, depth: nat, world: World, shade: Shader, sqrt: real -> real)
    requires forall q: Ray :: world(q, TMin, TMax).Some?
    requires forall q: Ray, rec: HitRecord :: shade(q, rec).Some?
    ensures Color(r, depth, world, shade, sqrt) == Some(Black())
    decreases if depth < MaxDepth then MaxDepth - depth else 0
  {
    assert world(r, TMin, TMax).Some?;
    var rec := world(r, TMin, TMax).value;
    if depth < MaxDepth {
      assert shade(r, rec).Some?;
      var m := shade(r, rec).value;
      EnclosedWorldIsBlack(m.scattered, depth + 1, world, shade, sqrt);
    }
  }

  /** `color` looks at the world only through queries over its window
      (0.01, f64::MAX): two worlds that agree there render alike. */
  lemma {:induction false} ColorUsesWindowOnly(r: Ray, depth: nat, w1: World, w2: World, shade: Shader, sqrt: real -> real)
    requires forall q: Ray :: w1(q, TMin, TMax) == w2(q, TMin, TMax)
    ensures Color(r, depth, w1, shade, sqrt) == Color(r, depth, w2, shade, sqrt)
    decreases if depth < MaxDepth then MaxDepth - depth else 0
  {
    assert w1(r, TMin, TMax) == w2(r, TMin, TMax);
    match w1(r, TMin, TMax)
    case None =>
    case Some(rec) =>
      if depth < MaxDepth {
        match shade(r, rec)
        case Some(m) => ColorUsesWindowOnly(m.scattered, depth + 1, w1, w2, shade, sqrt);
        case None =>
      }
  }
}
