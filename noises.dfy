/** Perlin noise (src/noises.rs): the permutation tables, the table of
    random unit vectors, the integer lattice hashing of `Perlin::noise` and
    the octave schedule of `turb`. Random draws are parameters; the float
    interpolation `perlin_interp` is not part of this model. */
module Noise {
  import opened Vectors

  // ---------------------------------------------------------------------
  // Bit patterns

  function Pow2(k: nat): (r: nat)
    ensures r >= 1
  {
    if k == 0 then 1 else 2 * Pow2(k - 1)
  }

  /** Bitwise `&` of two bit patterns. */
  function And(a: nat, b: nat): nat
    decreases a
  {
    if a == 0 || b == 0 then 0
    else 2 * And(a / 2, b / 2) + (if a % 2 == 1 && b % 2 == 1 then 1 else 0)
  }

  /** Bitwise `^` of two bit patterns. */
  function Xor(a: nat, b: nat): nat
    decreases a + b
  {
    if a == 0 && b == 0 then 0
    else 2 * Xor(a / 2, b / 2) + (if a % 2 != b % 2 then 1 else 0)
  }

  /** Euclidean division has one quotient and one remainder. */
  lemma DivModUnique(a: int, d: int, q: int, r: int)
    requires d > 0 && 0 <= r < d && a == d * q + r
    ensures a / d == q && a % d == r
  {
    var q0, r0 := a / d, a % d;
    assert d * (q - q0) == r0 - r;
    if q > q0 {
      MulAtLeast(d, q - q0);
    } else if q < q0 {
      MulAtLeast(d, q0 - q);
    }
  }

  lemma MulAtLeast(d: int, m: int)
    requires d > 0 && m >= 1
    ensures d * m >= d
  {
    assert d * m == d * (m - 1) + d;
    assert d * (m - 1) >= 0;
  }

  /** The low bits of `a` below `2 p` are its low bit and the low bits of `a / 2` below `p`. */
  lemma ModDouble(a: nat, p: nat)
    requires p > 0
    ensures a % (2 * p) == 2 * ((a / 2) % p) + a % 2
  {
    var h := a / 2;
    var q, r := h / p, h % p;
    assert a == (2 * p) * q + (2 * r + a % 2);
    DivModUnique(a, 2 * p, q, 2 * r + a % 2);
  }

  /** Masking with `2^k - 1` keeps the `k` low bits: the remainder by `2^k`. */
  lemma {:induction false} AndMask(a: nat, k: nat)
    ensures And(a, Pow2(k) - 1) == a % Pow2(k)
    decreases k
  {
    if k == 0 {
      assert Pow2(k) == 1;
    } else if a == 0 {
      DivModUnique(a, Pow2(k), 0, 0);
    } else {
      var m, h := Pow2(k) - 1, Pow2(k - 1);
      assert Pow2(k) == 2 * h;
      assert m == 2 * h - 1;
      assert m / 2 == h - 1 && m % 2 == 1;
      AndMask(a / 2, k - 1);
      assert And(a, m) == 2 * And(a / 2, h - 1) + a % 2;
      ModDouble(a, h);
      assert And(a, m) == a % (2 * h);
    }
  }

  /** `^` of two `k`-bit patterns is a `k`-bit pattern. */
  lemma {:induction false} XorBound(a: nat, b: nat, k: nat)
    requires a < Pow2(k) && b < Pow2(k)
    ensures Xor(a, b) < Pow2(k)
    decreases k
  {
    if k > 0 && (a != 0 || b != 0) {
      XorBound(a / 2, b / 2, k - 1);
    }
  }

  // ---------------------------------------------------------------------
  // 32-bit signed integers

  const I32Min: int := -0x8000_0000
  const I32Max: int := 0x7fff_ffff

  predicate IsI32(n: int) { I32Min <= n <= I32Max }

  /** `x as i32` for a float that is an integer: saturates at the bounds. */
  function SaturatingCast(n: int): (r: int)
    ensures IsI32(r)
    ensures IsI32(n) ==> r == n
    ensures n < I32Min ==> r == I32Min
    ensures n > I32Max ==> r == I32Max
  {
    if n < I32Min then I32Min else if n > I32Max then I32Max else n
  }

  /** `i32` addition with wrap-around. */
  function WrappingAdd(a: int, b: int): int {
    (a + b - I32Min) % 0x1_0000_0000 + I32Min
  }

  /** The wrapped sum is an `i32`, is the true sum when that fits, and
      differs from it by a multiple of `2^32` otherwise. */
  lemma WrappingAddWraps(a: int, b: int)
    ensures IsI32(WrappingAdd(a, b))
    ensures IsI32(a + b) ==> WrappingAdd(a, b) == a + b
    ensures (WrappingAdd(a, b) - (a + b)) % 0x1_0000_0000 == 0
  {
  }

  /** The two's complement bit pattern of an `i32`. */
  function Bits(x: int): nat {
    x % 0x1_0000_0000
  }

  /** `(x & 255) as usize` for an `i32` `x`. */
  function MaskIndex(x: int): nat {
    And(Bits(x), 255)
  }

  /** `x & 255` lies in `0..256` and equals `x` Euclid-mod 256, negative `x` included. */
  lemma MaskIndexMod(x: int)
    ensures MaskIndex(x) == x % 256 && MaskIndex(x) < 256
  {
    assert Pow2(8) == 256;
    AndMask(Bits(x), 8);
    var q := x / 0x1_0000_0000;
    assert x == 256 * (0x100_0000 * q) + Bits(x);
    DivModUnique(x, 256, 0x100_0000 * q + Bits(x) / 256, Bits(x) % 256);
  }

  /** Wrap-around in the addition does not change the masked index. */
  lemma MaskIgnoresWrap(i: int, d: int)
    ensures MaskIndex(WrappingAdd(i, d)) == (i + d) % 256
  {
    var w := WrappingAdd(i, d);
    WrappingAddWraps(i, d);
    MaskIndexMod(w);
    var m := (w - (i + d)) / 0x1_0000_0000;
    assert w == (i + d) + 256 * (0x100_0000 * m);
    DivModUnique(w, 256, (i + d) / 256 + 0x100_0000 * m, (i + d) % 256);
  }

  // ---------------------------------------------------------------------
  // Tables

  /** `0, 1, ..., n - 1`, as `(0..n).collect()`. */
  function Iota(n: nat): (s: seq<nat>)
    ensures |s| == n && forall k :: 0 <= k < n ==> s[k] == k
  {
    seq(n, k requires 0 <= k < n => k as nat)
  }

  predicate IsPermutation256(p: seq<nat>) {
    |p| == 256 && multiset(p) == multiset(Iota(256))
  }

  /** A permutation of `0..256` holds every value below 256 exactly once. */
  lemma PermutationEntries(p: seq<nat>)
    requires IsPermutation256(p)
    ensures forall k :: 0 <= k < 256 ==> p[k] < 256
    ensures forall v :: 0 <= v < 256 ==> v in p
    ensures forall k, l :: 0 <= k < l < 256 ==> p[k] != p[l]
  {
    var io := Iota(256);
    forall k | 0 <= k < 256 ensures p[k] < 256 {
      assert p[k] in multiset(p);
      assert p[k] in multiset(io);
    }
    forall v | 0 <= v < 256 ensures v in p {
      assert io[v] == v;
      assert v in multiset(io);
    }
    forall k, l | 0 <= k < l < 256 ensures p[k] != p[l] {
      if p[k] == p[l] {
        TwiceInSeq(p, k, l);
        IotaOnce(p[k]);
      }
    }
  }

  lemma TwiceInSeq(p: seq<nat>, k: int, l: int)
    requires 0 <= k < l < |p| && p[k] == p[l]
    ensures multiset(p)[p[k]] >= 2
  {
    assert p == p[..k] + [p[k]] + p[k + 1..l] + [p[l]] + p[l + 1..];
  }

  lemma {:induction false} IotaOnce(v: nat)
    ensures multiset(Iota(256))[v] <= 1
  {
    IotaCount(256, v);
  }

  lemma {:induction false} IotaCount(n: nat, v: nat)
    ensures multiset(Iota(n))[v] == if v < n then 1 else 0
    decreases n
  {
    if n > 0 {
      IotaCount(n - 1, v);
      assert Iota(n) == Iota(n - 1) + [(n - 1) as nat];
      assert multiset(Iota(n)) == multiset(Iota(n - 1)) + multiset{(n - 1) as nat};
    }
  }

  /** `perlin_generate_perm`: `0..256` shuffled in place. The shuffle swaps
      position `i` with a drawn position `j <= i`, for `i` from 255 down to 1;
      `draw(i) % (i + 1)` stands for the generator's `gen_range(0, i + 1)`. */
  method PerlinGeneratePerm(draw: nat -> nat) returns (p: seq<nat>)
    ensures IsPermutation256(p)
  {
    var a := new nat[256](k => k);
    assert a[..] == Iota(256);
    var i := 256;
    while i >= 2
      invariant 1 <= i <= 256
      invariant multiset(a[..]) == multiset(Iota(256))
    {
      i := i - 1;
      var j := draw(i) % (i + 1);
      a[i], a[j] := a[j], a[i];
    }
    p := a[..];
  }

  /** The vector built from three draws in `[0, 1)`: each mapped to `-1 + 2 d`. */
  function RawVec(d: Vec3): Vec3 {
    Vec3(-1.0 + 2.0 * d.x, -1.0 + 2.0 * d.y, -1.0 + 2.0 * d.z)
  }

  /** `perlin_generate`: 256 normalised random vectors, pushed in draw order.
      `gen(k)` holds the three draws for vector `k`; a zero vector has no
      direction, so its draws are excluded. */
  method PerlinGenerate(gen: nat -> Vec3, sqrt: real -> real) returns (p: seq<Vec3>)
    requires forall k :: 0 <= k < 256 ==> Length(RawVec(gen(k)), sqrt) != 0.0
    ensures |p| == 256
    ensures forall k :: 0 <= k < 256 ==> p[k] == UnitVector(RawVec(gen(k)), sqrt)
  {
    p := [];
    for k := 0 to 256
      invariant |p| == k
      invariant forall l :: 0 <= l < k ==> p[l] == UnitVector(RawVec(gen(l)), sqrt)
    {
      p := p + [UnitVector(RawVec(gen(k)), sqrt)];
    }
  }

  datatype Perlin = Perlin(permX: seq<nat>, permY: seq<nat>, permZ: seq<nat>, ranVec: seq<Vec3>)

  /** What `Perlin::new` establishes and `noise` relies on. */
  predicate Valid(perlin: Perlin) {
    IsPermutation256(perlin.permX) && IsPermutation256(perlin.permY) &&
    IsPermutation256(perlin.permZ) && |perlin.ranVec| == 256
  }

  /** `Perlin::new`: three shuffled tables and one vector table. */
  method NewPerlin(drawX: nat -> nat, drawY: nat -> nat, drawZ: nat -> nat, gen: nat -> Vec3, sqrt: real -> real)
    returns (perlin: Perlin)
    requires forall k :: 0 <= k < 256 ==> Length(RawVec(gen(k)), sqrt) != 0.0
    ensures Valid(perlin)
    ensures forall k :: 0 <= k < 256 ==> perlin.ranVec[k] == UnitVector(RawVec(gen(k)), sqrt)
  {
    var px := PerlinGeneratePerm(drawX);
    var py := PerlinGeneratePerm(drawY);
    var pz := PerlinGeneratePerm(drawZ);
    var rv := PerlinGenerate(gen, sqrt);
    perlin := Perlin(px, py, pz, rv);
  }

  // ---------------------------------------------------------------------
  // Lattice hashing in `noise`

  /** `perm_x[(i + di) & 255] ^ perm_y[(j + dj) & 255] ^ perm_z[(k + dk) & 255]`:
      always an index into the 256 vectors. */
  function CornerIndex(perlin: Perlin, i: int, j: int, k: int, di: int, dj: int, dk: int): (n: nat)
    requires Valid(perlin)
    ensures n < 256
  {
    MaskIndexMod(WrappingAdd(i, di));
    MaskIndexMod(WrappingAdd(j, dj));
    MaskIndexMod(WrappingAdd(k, dk));
    PermutationEntries(perlin.permX);
    PermutationEntries(perlin.permY);
    PermutationEntries(perlin.permZ);
    var a := perlin.permX[MaskIndex(WrappingAdd(i, di))];
    var b := perlin.permY[MaskIndex(WrappingAdd(j, dj))];
    var c := perlin.permZ[MaskIndex(WrappingAdd(k, dk))];
    assert Pow2(8) == 256;
    XorBound(a, b, 8);
    XorBound(Xor(a, b), c, 8);
    Xor(Xor(a, b), c)
  }

  /** The vector for lattice corner `(di, dj, dk)` of the cell at `(i, j, k)`. */
  function Corner(perlin: Perlin, i: int, j: int, k: int, di: int, dj: int, dk: int): Vec3
    requires Valid(perlin)
  {
    perlin.ranVec[CornerIndex(perlin, i, j, k, di, dj, dk)]
  }

  /** Every table index used by `noise` lies in `0..256`, whatever the sign
      of the lattice coordinates and even where `i + di` wraps around. */
  lemma LatticeIndicesInRange(perlin: Perlin, i: int, di: int)
    requires Valid(perlin)
    ensures MaskIndex(WrappingAdd(i, di)) == (i + di) % 256
    ensures 0 <= MaskIndex(WrappingAdd(i, di)) < 256
  {
    MaskIgnoresWrap(i, di);
    MaskIndexMod(WrappingAdd(i, di));
  }

  lemma CornerSlot(want: seq<Vec3>, perlin: Perlin, i: int, j: int, k: int, di: int, dj: int, dk: int)
    requires Valid(perlin) && 0 <= di < 2 && 0 <= dj < 2 && 0 <= dk < 2
    requires want == [Corner(perlin, i, j, k, 0, 0, 0), Corner(perlin, i, j, k, 0, 0, 1),
                      Corner(perlin, i, j, k, 0, 1, 0), Corner(perlin, i, j, k, 0, 1, 1),
                      Corner(perlin, i, j, k, 1, 0, 0), Corner(perlin, i, j, k, 1, 0, 1),
                      Corner(perlin, i, j, k, 1, 1, 0), Corner(perlin, i, j, k, 1, 1, 1)]
    ensures want[4 * di + 2 * dj + dk] == Corner(perlin, i, j, k, di, dj, dk)
  {
    if di == 0 {
      if dj == 0 { if dk == 0 { } else { } } else { if dk == 0 { } else { } }
    } else {
      if dj == 0 { if dk == 0 { } else { } } else { if dk == 0 { } else { } }
    }
  }

  /** The eight corner vectors of the cell at `(i, j, k)`, corner
      `(di, dj, dk)` at position `4 di + 2 dj + dk`. */
  lemma CornerTable(perlin: Perlin, i: int, j: int, k: int) returns (want: seq<Vec3>)
    requires Valid(perlin)
    ensures |want| == 8
    ensures forall di, dj, dk :: 0 <= di < 2 && 0 <= dj < 2 && 0 <= dk < 2 ==>
      want[4 * di + 2 * dj + dk] == Corner(perlin, i, j, k, di, dj, dk)
  {
    want := [Corner(perlin, i, j, k, 0, 0, 0), Corner(perlin, i, j, k, 0, 0, 1),
             Corner(perlin, i, j, k, 0, 1, 0), Corner(perlin, i, j, k, 0, 1, 1),
             Corner(perlin, i, j, k, 1, 0, 0), Corner(perlin, i, j, k, 1, 0, 1),
             Corner(perlin, i, j, k, 1, 1, 0), Corner(perlin, i, j, k, 1, 1, 1)];
    forall di, dj, dk | 0 <= di < 2 && 0 <= dj < 2 && 0 <= dk < 2
      ensures want[4 * di + 2 * dj + dk] == Corner(perlin, i, j, k, di, dj, dk)
    {
      CornerSlot(want, perlin, i, j, k, di, dj, dk);
    }
  }

  /** The lattice part of `Perlin::noise`: the fractional parts of the
      point and the eight corner vectors it interpolates between; the
      interpolation itself is not modelled. */
  method NoiseLattice(perlin: Perlin, p: Vec3) returns (c: array3<Vec3>, u: real, v: real, w: real)
    requires Valid(perlin)
    ensures fresh(c) && c.Length0 == 2 && c.Length1 == 2 && c.Length2 == 2
    ensures 0.0 <= u < 1.0 && 0.0 <= v < 1.0 && 0.0 <= w < 1.0
    ensures p.x == p.x.Floor as real + u && p.y == p.y.Floor as real + v && p.z == p.z.Floor as real + w
    ensures forall di, dj, dk :: 0 <= di < 2 && 0 <= dj < 2 && 0 <= dk < 2 ==>
      c[di, dj, dk] == Corner(perlin, SaturatingCast(p.x.Floor), SaturatingCast(p.y.Floor), SaturatingCast(p.z.Floor), di, dj, dk)
  {
    u := p.x - p.x.Floor as real;
    v := p.y - p.y.Floor as real;
    w := p.z - p.z.Floor as real;
    var i, j, k := SaturatingCast(p.x.Floor), SaturatingCast(p.y.Floor), SaturatingCast(p.z.Floor);
    ghost var want := CornerTable(perlin, i, j, k);
    c := new Vec3[2, 2, 2]((_, _, _) => FromF(0.0));
    for di := 0 to 2
      invariant forall a, b, e :: 0 <= a < di && 0 <= b < 2 && 0 <= e < 2 ==> c[a, b, e] == want[4 * a + 2 * b + e]
    {
      for dj := 0 to 2
        invariant forall a, b, e :: 0 <= a < di && 0 <= b < 2 && 0 <= e < 2 ==> c[a, b, e] == want[4 * a + 2 * b + e]
        invariant forall b, e :: 0 <= b < dj && 0 <= e < 2 ==> c[di, b, e] == want[4 * di + 2 * b + e]
      {
        for dk := 0 to 2
          invariant forall a, b, e :: 0 <= a < di && 0 <= b < 2 && 0 <= e < 2 ==> c[a, b, e] == want[4 * a + 2 * b + e]
          invariant forall b, e :: 0 <= b < dj && 0 <= e < 2 ==> c[di, b, e] == want[4 * di + 2 * b + e]
          invariant forall e :: 0 <= e < dk ==> c[di, dj, e] == want[4 * di + 2 * dj + e]
        {
          c[di, dj, dk] := Corner(perlin, i, j, k, di, dj, dk);
        }
      }
    }
  }

  // ---------------------------------------------------------------------
  // Smoothing and turbulence

  /** `ease_in_out(x) = x^2 (3 - 2 x)`: fixes 0 and 1 and maps `[0, 1]` into itself. */
  function EaseInOut(x: real): (r: real)
    ensures x == 0.0 ==> r == 0.0
    ensures x == 1.0 ==> r == 1.0
  {
    x * x * (3.0 - 2.0 * x)
  }

  lemma EaseInOutRange(x: real)
    requires 0.0 <= x <= 1.0
    ensures 0.0 <= EaseInOut(x) <= 1.0
  {
    var s := x * x;
    assert s >= 0.0 by { MulNonNegInt(x); }
    var e := EaseInOut(x);
    assert e == s * (3.0 - 2.0 * x);
    NonNegProduct(s, 3.0 - 2.0 * x, e);
    assert 1.0 - e == (1.0 - x) * (1.0 - x) * (1.0 + 2.0 * x);
    var o := (1.0 - x) * (1.0 - x);
    assert o >= 0.0 by { MulNonNegInt(1.0 - x); }
    NonNegProduct(o, 1.0 + 2.0 * x, 1.0 - e);
  }

  lemma MulNonNegInt(x: real)
    ensures x * x >= 0.0
  {
    if x < 0.0 {
      assert x * x == (-x) * (-x);
    }
  }

  lemma NonNegProduct(a: real, b: real, m: real)
    requires a >= 0.0 && b >= 0.0 && m == a * b
    ensures m >= 0.0
  {
  }

  /** `turb` sums this many octaves. */
  const Depth: nat := 7

  /** Weight of octave `k`: halved after every octave. */
  function Weight(k: nat): real {
    if k == 0 then 1.0 else Weight(k - 1) * 0.5
  }

  /** Point of octave `k`: doubled after every octave. */
  function OctavePoint(p: Vec3, k: nat): Vec3 {
    if k == 0 then p else Scale(OctavePoint(p, k - 1), 2.0)
  }

  /** The sum of the first `n` weighted octaves. */
  function OctaveSum(p: Vec3, noise: Vec3 -> real, n: nat): real {
    if n == 0 then 0.0 else OctaveSum(p, noise, n - 1) + Weight(n - 1) * noise(OctavePoint(p, n - 1))
  }

  function Abs(x: real): (r: real)
    ensures r >= 0.0 && (r == x || r == -x)
  {
    if x < 0.0 then -x else x
  }

  /** Octave `k` weighs `1 / 2^k` and samples the point scaled by `2^k`. */
  lemma {:induction false} OctaveSchedule(p: Vec3, k: nat)
    ensures Weight(k) * (Pow2(k) as real) == 1.0
    ensures OctavePoint(p, k) == Scale(p, Pow2(k) as real)
    decreases k
  {
    if k > 0 {
      OctaveSchedule(p, k - 1);
      var w, q := Weight(k - 1), Pow2(k - 1) as real;
      assert Weight(k) * (Pow2(k) as real) == (w * 0.5) * (2.0 * q);
      assert (w * 0.5) * (2.0 * q) == w * q;
    }
  }

  /** The seven weights are 1, 1/2, ..., 1/64. */
  lemma TurbWeights()
    ensures Weight(0) == 1.0 && Weight(1) == 0.5 && Weight(2) == 0.25 && Weight(3) == 0.125
    ensures Weight(4) == 0.0625 && Weight(5) == 0.03125 && Weight(6) == 0.015625
  {
  }

  lemma OctaveStep(p: Vec3, noise: Vec3 -> real, k: nat, acc: real, weight: real, x: Vec3)
    requires acc == OctaveSum(p, noise, k) && weight == Weight(k) && x == OctavePoint(p, k)
    ensures acc + weight * noise(x) == OctaveSum(p, noise, k + 1)
  {
  }

  /** `Perlin::turb`: seven octaves of `noise`, each at double the frequency
      and half the weight of the one before, then the absolute value. */
  method Turb(p: Vec3, noise: Vec3 -> real) returns (r: real)
    ensures r == Abs(OctaveSum(p, noise, Depth))
    ensures r >= 0.0
  {
    var tmp := new Vec3Cell(p);
    var weight := 1.0;
    var acc := 0.0;
    for k := 0 to Depth
      invariant tmp.Value() == OctavePoint(p, k)
      invariant weight == Weight(k)
      invariant acc == OctaveSum(p, noise, k)
    {
      var x := tmp.Value();
      var res := acc + weight * noise(x);
      OctaveStep(p, noise, k, acc, weight, x);
      tmp.MulAssign(2.0);
      weight := weight * 0.5;
      acc := res;
    }
    r := Abs(acc);
  }
}
