# A verified model of the raytracer-rust scene search

This project models the discrete core of a small Rust path tracer, following
"Ray Tracing in One Weekend" and "The Next Week". The core covers:

- axis-aligned bounding boxes and their slab test;
- the bounding volume hierarchy: its construction and its traversal;
- the nearest-hit and bounding-box folds over a list of objects;
- the sphere and moving-sphere intersections;
- the vector and ray algebra underneath;
- the integer lattice hashing of the Perlin noise and the `turb` octave schedule;
- Lambertian scattering and the random sampler it uses;
- the `color` recursion of the integrator.

Floating-point numbers (`f32` and `f64`) are exact Dafny `real`s.

- **Square root.** `sqrt` is a parameter `sqrt: real -> real`. The lemmas that need its meaning require `Vectors.IsSqrt(sqrt)`: the result is non-negative and its square is the argument.
- **Randomness.** The random generator never appears; its outputs are parameters:
  - the axis of every BVH node is a stream `draws: nat -> Axis`;
  - the shuffle of each permutation table is a stream of positions;
  - the jitter vectors of `perlin_generate` are given draws;
  - the sample of `random_point_in_unit_sphere` is passed in.
- **Trait objects.** The source's `Hitable` trait objects are one closed datatype, `Hitables.Hitable = Sphere | MovingSphere | List | BvhNode`. Materials are named by index (`MaterialRef`).
- **Integrator.** `color` receives the world query and the material dispatch as functions (`Integrator.World`, `Integrator.Shader`).
- **Panics.** The panics "no bounding box" and "Can't compare" of `BvhNode::new` are the `Err` cases of a `Result`. The out-of-range panic of `Vec3`'s `Index` is a precondition.

The modules follow the source files:

| file | Dafny module | source |
|---|---|---|
| wrappers.dfy | Wrappers | `Option` / `Result` |
| reals.dfy | Reals | arithmetic facts about reals used by the proofs |
| vec3.dfy | Vectors | src/vec3.rs |
| ray.dfy | Rays | src/ray.rs |
| aabb.dfy | Boxes | src/aabb.rs |
| hitable.dfy | Hitables | src/hitable.rs |
| bvh_node.dfy | Bvh | src/bvh_node.rs |
| hitable_list.dfy | OldLists | src/hitable_list.rs |
| sphere.dfy | OldSpheres | src/sphere.rs |
| noises.dfy | Noise | src/noises.rs |
| material.dfy | Materials | src/material.rs |
| main.dfy | Integrator | src/main.rs (`color`, `background`) |

Code that changes state is modelled imperatively:

- **`Boxes.Hit`** is the slab loop of `Aabb::hit`, with its early `return false`. It is proved equal to the predicate `SlabHit`.
- **`Bvh.SortByAxis` and `Bvh.InsertLast`** sort an `array` in place. They are proved to produce a permutation sorted by box minimum.
- **`Bvh.Build`** is `BvhNode::new`, recursing through `Bvh.BuildSplit`.
- **`Vectors.Vec3Cell`** is a `Vec3` updated in place by `*=`. `Noise.Turb` uses it for `tmp_p`.
- **`Noise.PerlinGeneratePerm`** shuffles an array. `Noise.PerlinGenerate` pushes into a sequence.
- **`Noise.NoiseLattice`** fills the `2 x 2 x 2` array `c` in three nested loops.
- **The two samplers of `random_point_in_unit_sphere`** are loops.

The rest is functions and lemmas, as in the source.

## Model

| member | source | states |
|---|---|---|
| Vectors.Vec3Cell.constructor | src/vec3.rs:12-18 | a new cell holds exactly the given components |
| Vectors.Vec3Cell.MulAssign | src/vec3.rs:228-234 | after `*= k` the vector is the old vector scaled by `k` |
| Vectors.IndexComponents | src/vec3.rs:254-265 | `v[0]`, `v[1]`, `v[2]` are `x`, `y`, `z` (a larger index is excluded by the precondition, where the source panics) |
| Vectors.ConstantVectors | src/vec3.rs:20-34 | `fromf(v)` has all three components `v`; `zero()` is `fromf(0)` and `one()` is `fromf(1)` |
| Vectors.ChannelsAreComponents | src/vec3.rs:36-46 | the colour channels `r`, `g`, `b` are `x`, `y`, `z` |
| Vectors.DotSymmetric | src/vec3.rs:52-58 | the dot product is symmetric, and the squared length is a vector's dot product with itself |
| Vectors.CrossOrthogonal | src/vec3.rs:56-66 | the cross product is orthogonal to both factors |
| Vectors.AddSubCancel | src/vec3.rs:78-121 | adding and then subtracting the same vector, in either order, gives back the original |
| Vectors.NegInvolutive | src/vec3.rs:236-246 | negating twice is the identity, and a vector plus its negation is zero |
| Vectors.EqIsEquality | src/vec3.rs:248-252 | `==` on vectors holds exactly when all three components agree |
| Vectors.ScaleDistributes | src/vec3.rs:205-215 | multiplying by a scalar distributes over vector addition |
| Vectors.SquaredLengthNonNegative | src/vec3.rs:52-54 | a squared length is never negative |
| Vectors.CauchySchwarz | src/vec3.rs:56-58 | the square of a dot product is at most the product of the two squared lengths |
| Rays.PointAtZero | src/ray.rs:11-13 | the point at parameter 0 is the origin |
| Rays.PointOffset | src/ray.rs:11-13 | the point at `t` lies `direction * t` away from the origin |
| Rays.PointAdditive | src/ray.rs:11-13 | moving on by `t` from the point at `s` reaches the point at `s + t` |
| Rays.PointIgnoresTime | src/ray.rs:3-13 | the point at a parameter does not depend on the ray's `time` |
| Boxes.FFMax | src/aabb.rs:59-61 | `ffmax` returns one of its arguments and is at least both |
| Boxes.FFMin | src/aabb.rs:63-65 | `ffmin` returns one of its arguments and is at most both |
| Boxes.SurroundingBox | src/aabb.rs:35-48 | the surrounding box encloses both boxes |
| Boxes.SurroundingBoxLeast | src/aabb.rs:35-48 | every box enclosing both boxes encloses their surrounding box, which makes it the least such box |
| Boxes.SurroundingBoxLaws | src/aabb.rs:35-48 | `surrounding_box` is commutative, idempotent and associative, and keeps a proper box proper |
| Boxes.OptionalSurroundingBox | src/aabb.rs:50-57 | the result is `None` exactly when both inputs are `None`, and it encloses every present input |
| Boxes.OptionalSurroundingBoxCases | src/aabb.rs:50-57 | two boxes combine with `surrounding_box`; a single present box is returned unchanged |
| Boxes.Hit | src/aabb.rs:12-28 | the loop with its early exit answers exactly `SlabHit`: the interval narrowed by all three slabs is non-empty |
| Boxes.SlabOrdered | src/aabb.rs:14-17 | on each axis the entry parameter `t0` is at most the exit parameter `t1`, and the two are the two face crossings |
| Boxes.NarrowedMonotone | src/aabb.rs:19-20 | from one axis to the next `tmin` never decreases and `tmax` never increases |
| Boxes.NarrowedBounds | src/aabb.rs:13-25 | the narrowed interval lies within the incoming interval and within every slab processed so far |
| Boxes.NarrowedKeeps | src/aabb.rs:13-25 | a parameter in the incoming interval and in every processed slab stays inside the narrowed interval |
| Boxes.EmptyIntervalMisses | src/aabb.rs:19-24 | an incoming interval with `tmax <= tmin` is never reported as a hit |
| Boxes.SlabHitIffCommonParameter | src/aabb.rs:12-28 | the test succeeds exactly when some parameter strictly inside `(tmin, tmax)` lies in all three slabs |
| Boxes.SlabHitIffPointBetweenFaces | src/aabb.rs:12-28 | the test succeeds exactly when the ray is strictly between the faces on every axis at some parameter of `(tmin, tmax)` |
| Boxes.InsideMeansSlabHit | src/aabb.rs:12-28 | a ray that passes strictly inside the box during `(tmin, tmax)` passes the test: the test has no false negatives |
| Hitables.CenterAtKeyTimes | src/hitable.rs:155-157 | a moving sphere is at `center0` at `time0` and at `center1` at `time1` |
| Hitables.MovingCenterBetween | src/hitable.rs:155-157 | at any time between two times, the centre lies between the centres at those times, on every axis |
| Hitables.PositiveDiscriminantDivisors | src/hitable.rs:60-67 | a positive discriminant implies `a > 0` and a non-zero radius, so the root divisions and the normal division are defined |
| Hitables.QuadraticForm | src/hitable.rs:60-64 | `|p(t) - center|^2 - radius^2` is the quadratic `a t^2 + 2 b t + c` built from `a`, `b`, `c` |
| Hitables.SphereRoots | src/hitable.rs:66-79 | under an exact square root `t1` and `t2` are the two roots, `t1 < t2`, and both points lie on the sphere |
| Hitables.SphereRecord | src/hitable.rs:70-76 | a record at `t` carries `t`, the material, the point on the ray at `t`, and a normal that, times the radius, is `point - center` |
| Hitables.HitSphere | src/hitable.rs:52-92 | a hit has `t` strictly inside `(t_min, t_max)`, the point on the ray at `t` and the normal `(point - center) / radius`; a discriminant `<= 0` gives `None` |
| Hitables.HitSphereNearest | src/hitable.rs:52-92 | a hit is on the sphere and no earlier parameter of `(t_min, t)` is; a miss with non-zero discriminant means no parameter of `(t_min, t_max)` is on the sphere |
| Hitables.HitSphereNormalIsUnit | src/hitable.rs:70-74 | the normal of a hit has length 1 |
| Hitables.SphereBoxExact | src/hitable.rs:123-130 | the box of a sphere is `[center - radius, center + radius]` on every axis, whatever the time arguments |
| Hitables.InsideSphereInsideBox | src/hitable.rs:123-130 | a point strictly inside a sphere is strictly inside its box |
| Hitables.HitSphereEntersBox | src/hitable.rs:112-130 | a sphere hit in `(t_min, t_max)` means the ray passes strictly inside the sphere's box at some parameter of that interval |
| Hitables.MovingBoxEncloses | src/hitable.rs:172-184 | the surrounding box of the boxes at `t0` and `t1` encloses the sphere's box at every time between them |
| Hitables.MovingSphereBoxEncloses | src/hitable.rs:172-184 | a moving sphere's `bounding_box(t0, t1)` encloses its box at every time in `[t0, t1]` |
| Hitables.KeepNearer | src/hitable.rs:25-36 | the list step is `None` only when both inputs are; it returns one of them, no farther than either; on equal `t` the accumulated record stays |
| Hitables.NearerChild | src/bvh_node.rs:83-96 | the node step is `None` only when both children miss; it returns one of them, no farther than either; on equal `t` the right child wins |
| Hitables.FoldNearestFirst | src/hitable.rs:24-37 | the nearest-hit fold is `None` exactly when every entry is, and otherwise returns the first entry of smallest `t` |
| Hitables.ListHitIsFold | src/hitable.rs:23-38 | `HitableList::hit` is that fold over the members' own answers |
| Hitables.ListHitNearest | src/hitable.rs:23-38 | the list misses exactly when every member misses; otherwise it returns the hit of the earliest member whose `t` is smallest |
| Hitables.ListBoxEncloses | src/hitable.rs:40-49 | the list box is `None` exactly when every member box is `None`, and otherwise encloses every present member box |
| Hitables.BoxExistenceTimeFree | src/hitable.rs:40-49 | whether an object has a box does not depend on the time arguments |
| Hitables.HitEntersBox | src/hitable.rs:14-18 | for every kind of object with a proper box, a hit in `(t_min, t_max)` means the ray passes strictly inside the object's box within that interval |
| Bvh.BoxCompare | src/bvh_node.rs:104-147 | the comparators answer `Less`, `Equal` or `Greater` by the box minima on the axis at times `(0, 0)`, and fail ("Can't compare") exactly when a box is missing |
| Bvh.InsertLast | src/bvh_node.rs:20-25 | one insertion step extends the sorted prefix by one element and keeps the array a permutation |
| Bvh.SortByAxis | src/bvh_node.rs:20-25 | `sort_by` leaves the list sorted by box minimum on the axis and a permutation of its old contents |
| Bvh.SortedCopy | src/bvh_node.rs:20-25 | the sort as used by the builder: a sorted permutation of the input list |
| Bvh.SplitSizes | src/bvh_node.rs:53-57 | from three objects on, both halves are non-empty and strictly smaller; for an empty list the left half is the empty list again, the source's non-terminating case |
| Bvh.Build | src/bvh_node.rs:16-73 | for a non-empty list: failure exactly when an object has no box, with "no bounding box" for one object and "Can't compare" otherwise; on success a tree of the builder's shape whose leaves are a permutation of the input, split in order of the drawn axis |
| Bvh.BuildSplit | src/bvh_node.rs:53-71 | the catch-all arm builds a tree of the builder's shape from the first `len/2` and the remaining sorted objects, with the same leaves |
| Bvh.PairBuilt | src/bvh_node.rs:39-52 | two boxed objects give a node with the two as children, in sorted order, and a box present |
| Bvh.SplitBuilt | src/bvh_node.rs:53-71 | joining built halves of the sorted list under their surrounding box gives a built tree with the same leaves, left part before right part on the axis |
| Bvh.NodeBox | src/bvh_node.rs:77-79 | `BvhNode::bounding_box` ignores the times and returns the stored box |
| Bvh.NoMissingBox | src/bvh_node.rs:104-147 | after the sort every object has a box, so no comparison failed |
| Bvh.HalvesOrdered | src/bvh_node.rs:54-57 | on the sort axis every object of the left half comes no later than every object of the right half |
| Bvh.BuiltEncloses | src/bvh_node.rs:59-62 | a built tree holds exactly `n` leaves, and its stored box encloses the box of every leaf |
| Bvh.RootMissed | src/bvh_node.rs:98-100 | a node whose own box test fails reports no hit, whatever its children |
| Bvh.NodeHitNearest | src/bvh_node.rs:82-97 | when the box test passes, the node's hit distance is the nearer of its children's |
| Bvh.NearestLaws | src/bvh_node.rs:87-96 | taking the nearer of optional distances is idempotent and associative, with `None` neutral |
| Bvh.CombinersAgree | src/bvh_node.rs:87-93 | the node step and the list step choose records at the same distance, despite their opposite tie-breaks |
| Bvh.ListHitAppend | src/hitable.rs:23-38 | the list's hit distance over `xs + ys` is the nearer of the distances over `xs` and over `ys` |
| Bvh.LeafHitPassesRoot | src/bvh_node.rs:82 | if any leaf is hit, the root's box test passes, so pruning never loses a hit |
| Bvh.BvhHitMatchesList | src/bvh_node.rs:81-101 | over a built tree with properly boxed leaves and a ray whose time lies in the build times, traversal finds a hit at exactly the distance the nearest-hit fold over its leaves, in tree order, finds |
| Bvh.LargeTreeMatches | src/bvh_node.rs:81-101 | the same for trees of three or more objects whose root box is hit |
| Bvh.SmallTreeMatches | src/bvh_node.rs:81-101 | the same for trees of one or two objects whose root box is hit |
| Bvh.JoinMatches | src/bvh_node.rs:83-97 | if both subtrees agree with their leaf lists, so does the node |
| Bvh.LeavesHitNearest | src/bvh_node.rs:54-57 | the leaf list's hit distance is the nearer of the two halves' distances |
| Bvh.ListHitPerm | src/hitable.rs:23-38 | the nearest-hit distance of a list does not depend on the order of its objects: two lists holding the same objects give the same distance |
| Bvh.BuiltTreeMatchesInput | src/bvh_node.rs:16-101 | a tree as `Build` returns it answers every ray at the same distance as the nearest-hit fold over the list it was built from, in that list's order, provided the objects are properly boxed and the ray's time lies in the build times |
| OldLists.FirstHitFirst | src/hitable_list.rs:10-20 | the older fold returns `None` exactly when every item misses, and otherwise the hit of the first item in list order that is hit |
| OldLists.FirstHitStops | src/hitable_list.rs:12 | once a hit is found, later items are never consulted: appending items changes nothing |
| OldLists.FirstHitOfAnswers | src/hitable_list.rs:14-17 | the result depends on the items only through their own answers |
| OldLists.FirstHitNotNearest | src/hitable_list.rs:10-20 | the first item's hit wins even when a later item is hit nearer: it is not a nearest-hit fold |
| OldSpheres.OldSphereHit | src/sphere.rs:11-42 | a hit has `t` strictly inside `(t_min, t_max)` and the point on the ray at `t`; a discriminant `<= 0` gives `None` |
| OldSpheres.OldSphereRootChoice | src/sphere.rs:18-39 | the smaller root is taken whenever it is in range; the larger is taken only when the smaller is out of range; no hit only when both are out |
| OldSpheres.OldSphereMatchesHitSphere | src/sphere.rs:16-37 | over exact reals `b * b` equals `b.powi(2)`, and the material-less sphere finds the same `t`, point and normal as `hit_sphere` |
| OldSpheres.OldSphereNearest | src/sphere.rs:11-42 | a hit is on the sphere, no earlier parameter of `(t_min, t)` is, and its normal has length 1 |
| Noise.AndMask | src/noises.rs:99-101 | AND with `2^k - 1` is the remainder modulo `2^k` |
| Noise.XorBound | src/noises.rs:98-102 | XOR of two values below `2^k` stays below `2^k` |
| Noise.SaturatingCast | src/noises.rs:77-79 | the float-to-`i32` cast keeps values in range and saturates at `i32::MIN` and `i32::MAX` |
| Noise.WrappingAddWraps | src/noises.rs:99-101 | `i32` addition with wrap-around gives an `i32`, is exact when the sum fits, and is otherwise off by a multiple of `2^32` |
| Noise.MaskIndexMod | src/noises.rs:99-101 | `x & 255` lies in `0..256` and equals `x` Euclid-mod 256, negative `x` included |
| Noise.MaskIgnoresWrap | src/noises.rs:99-101 | `(i + d) & 255` equals `(i + d)` mod 256 even when the `i32` addition wraps |
| Noise.Iota | src/noises.rs:7 | `(0..n).collect()` has length `n` and holds `k` at position `k` |
| Noise.PermutationEntries | src/noises.rs:6-11 | a permutation of `0..256` holds values below 256, each value once, at distinct positions |
| Noise.PerlinGeneratePerm | src/noises.rs:6-11 | whatever the shuffle draws, the table has 256 entries and is a permutation of `0..256` |
| Noise.PerlinGenerate | src/noises.rs:14-26 | exactly 256 vectors, the `k`-th the unit vector of `-1 + 2 d` for the `k`-th draws |
| Noise.NewPerlin | src/noises.rs:64-71 | the three tables are permutations of `0..256` and the vector table holds the 256 generated unit vectors |
| Noise.CornerIndex | src/noises.rs:98-102 | the XOR of the three permutation entries is below 256, a valid index into `ran_vec` |
| Noise.LatticeIndicesInRange | src/noises.rs:95-101 | every table index is `(i + d)` mod 256, in `0..256`, whatever the sign of `i` |
| Noise.NoiseLattice | src/noises.rs:73-106 | the fractional parts `u`, `v`, `w` lie in `[0, 1)` and complete the floors; all 8 corners of `c` hold the table vector of their lattice corner |
| Noise.EaseInOut | src/noises.rs:28-30 | `ease_in_out` fixes 0 and 1 |
| Noise.EaseInOutRange | src/noises.rs:28-30 | `ease_in_out` maps `[0, 1]` into `[0, 1]` |
| Noise.OctaveSchedule | src/noises.rs:111-123 | octave `k` weighs `1 / 2^k` and samples the point scaled by `2^k` |
| Noise.TurbWeights | src/noises.rs:112-119 | the seven weights are 1, 1/2, 1/4, 1/8, 1/16, 1/32, 1/64 |
| Noise.OctaveStep | src/noises.rs:116-120 | one fold step completes the next octave of the sum |
| Noise.Turb | src/noises.rs:111-123 | `turb` is the absolute value of exactly seven weighted octaves, hence non-negative |
| Materials.RandomPointAsWritten | src/material.rs:15-26 | the sampler as written returns the first draw if that lies inside the unit sphere, and otherwise never returns |
| Materials.FirstDrawOutside | src/material.rs:18-23 | a possible first draw, `(0.9, 0.9, 0.9)`, lies outside the unit sphere, so the sampler as written can loop forever |
| Materials.RandomPointInUnitSphere | src/material.rs:15-26 | the intended sampler returns the first draw of the stream that lies inside the unit sphere, having rejected all earlier ones |
| Materials.InsideUnitSphere | src/material.rs:23 | under an exact square root, "length below 1" is "squared length below 1" |
| Materials.ScatterAsWritten | src/material.rs:41-49 | `Lambertian::scatter` never absorbs: the ray leaves from the hit point and the attenuation is the albedo |
| Materials.AsWrittenMissesTarget | src/material.rs:45 | the direction as written reaches the intended target at parameter 1 only for a hit at the origin |
| Materials.AsWrittenEntersSurface | src/material.rs:45 | a hit at `(-10, 0, 0)` with normal `(1, 0, 0)` and a zero sample scatters as written back into the surface |
| Materials.Scatter | src/material.rs:41-49 | the corrected scatter never absorbs, leaves from the hit point towards `point + normal + sample`, and carries the albedo |
| Materials.ScatterIgnoresIncoming | src/material.rs:41-49 | neither version depends on the incoming ray |
| Materials.ScatterLeavesSurface | src/material.rs:41-49 | with a unit normal and a sample inside the unit sphere, the corrected ray leaves on the normal's side |
| Integrator.BackgroundEndpoints | src/main.rs:23-27 | straight up the sky is `(0.5, 0.7, 1)`, straight down it is white |
| Integrator.BackgroundOfBounds | src/main.rs:25-26 | for heights in `[-1, 1]` the red channel lies in `[0.5, 1]`, the green in `[0.7, 1]`, and the blue is 1 |
| Integrator.BackgroundBounds | src/main.rs:23-27 | every non-zero direction has a sky colour within those ranges |
| Integrator.ColorMiss | src/main.rs:32-41 | a ray that misses the world over `(0.01, f64::MAX)` shows the background, at any depth |
| Integrator.ColorBlack | src/main.rs:34-38 | a hit at depth 50 or more, or one the material absorbs, is black |
| Integrator.ColorScatter | src/main.rs:34-37 | otherwise the colour is the attenuation times the colour of the scattered ray one level deeper |
| Integrator.BouncesBounded | src/main.rs:29-43 | started at depth `d`, a path scatters at most `50 - d` times, so at most 50 times from the camera's depth 0 |
| Integrator.EnclosedWorldIsBlack | src/main.rs:29-43 | if every ray hits and no material absorbs, the colour is black: the depth cutoff is reached before any sky |
| Integrator.ColorUsesWindowOnly | src/main.rs:30-32 | `color` sees the world only through queries over `(0.01, f64::MAX)`: two worlds that agree there render alike |
| Vectors.FromF | src/vec3.rs:20-26 | no contract; its properties are `Vectors.ConstantVectors` |
| Vectors.Zero | src/vec3.rs:28-30 | no contract; its properties are `Vectors.ConstantVectors` |
| Vectors.One | src/vec3.rs:32-34 | no contract; its properties are `Vectors.ConstantVectors` |
| Vectors.R | src/vec3.rs:36-38 | no contract; its properties are `Vectors.ChannelsAreComponents` |
| Vectors.G | src/vec3.rs:40-42 | no contract; its properties are `Vectors.ChannelsAreComponents` |
| Vectors.B | src/vec3.rs:44-46 | no contract; its properties are `Vectors.ChannelsAreComponents` |
| Vectors.Length | src/vec3.rs:48-50 | no contract; its properties are `Materials.InsideUnitSphere` and `Materials.FirstDrawOutside` |
| Vectors.SquaredLength | src/vec3.rs:52-54 | no contract; its properties are `Vectors.SquaredLengthNonNegative` and `Vectors.DotSymmetric` |
| Vectors.Dot | src/vec3.rs:56-58 | no contract; its properties are `Vectors.DotSymmetric`, `Vectors.CrossOrthogonal` and `Vectors.CauchySchwarz` |
| Vectors.Cross | src/vec3.rs:60-66 | no contract; its properties are `Vectors.CrossOrthogonal` |
| Vectors.UnitVector | src/vec3.rs:68-71 | no contract; `Integrator.BackgroundBounds` bounds the blend `Integrator.Background` makes of it, and `Noise.PerlinGenerate` states the gradients are its values |
| Vectors.Add | src/vec3.rs:78-87 | no contract; its properties are `Vectors.AddSubCancel` and `Vectors.ScaleDistributes` |
| Vectors.ScalarAdd | src/vec3.rs:89-98 | no contract; `f32 + Vec3`, component by component |
| Vectors.AddScalar | src/vec3.rs:100-109 | no contract; `Vec3 + f32`, component by component |
| Vectors.Sub | src/vec3.rs:111-121 | no contract; its properties are `Vectors.AddSubCancel` and `Rays.PointOffset` |
| Vectors.SubScalar | src/vec3.rs:123-133 | no contract; `Vec3 - f32`, component by component |
| Vectors.ScalarSub | src/vec3.rs:135-144 | no contract; `f32 - Vec3`, component by component |
| Vectors.Div | src/vec3.rs:158-168 | no contract; componentwise quotient, defined for non-zero divisors only |
| Vectors.DivScalar | src/vec3.rs:170-180 | no contract; its properties are `Hitables.SphereRecord` (the normal times the radius is `point - center`) |
| Vectors.ScalarDiv | src/vec3.rs:182-191 | no contract; `f32 / Vec3`, defined for non-zero components only |
| Vectors.Mul | src/vec3.rs:193-203 | no contract; the componentwise product used for attenuation in `Integrator.ColorScatter` |
| Vectors.Scale | src/vec3.rs:205-215 | no contract; its properties are `Vectors.ScaleDistributes` and `Vectors.Vec3Cell.MulAssign` |
| Vectors.ScalarMul | src/vec3.rs:217-226 | no contract; `f32 * Vec3`, component by component |
| Vectors.Neg | src/vec3.rs:236-246 | no contract; its properties are `Vectors.NegInvolutive` |
| Vectors.Eq | src/vec3.rs:248-252 | no contract; its properties are `Vectors.EqIsEquality` |
| Vectors.Index | src/vec3.rs:254-265 | no contract; its properties are `Vectors.IndexComponents` |
| Rays.PointAtParameter | src/ray.rs:11-13 | no contract; its properties are `Rays.PointAtZero`, `Rays.PointOffset`, `Rays.PointAdditive` and `Rays.PointIgnoresTime` |
| Boxes.MinT | src/aabb.rs:14 | no contract; the crossing of the `min` face, used by `Boxes.SlabOrdered` |
| Boxes.MaxT | src/aabb.rs:15 | no contract; the crossing of the `max` face, used by `Boxes.SlabOrdered` |
| Boxes.SlabT0 | src/aabb.rs:16 | no contract; its properties are `Boxes.SlabOrdered` |
| Boxes.SlabT1 | src/aabb.rs:17 | no contract; its properties are `Boxes.SlabOrdered` |
| Boxes.Narrowed | src/aabb.rs:13-21 | no contract; its properties are `Boxes.NarrowedMonotone`, `Boxes.NarrowedBounds` and `Boxes.NarrowedKeeps` |
| Boxes.SlabHit | src/aabb.rs:12-28 | no contract; its meaning is `Boxes.SlabHitIffCommonParameter` and `Boxes.SlabHitIffPointBetweenFaces`, and `Boxes.Hit` computes it |
| Hitables.Center | src/hitable.rs:155-157 | no contract; its properties are `Hitables.CenterAtKeyTimes` and `Hitables.MovingCenterBetween` |
| Hitables.Discriminant | src/hitable.rs:60-64 | no contract; its properties are `Hitables.PositiveDiscriminantDivisors` and `Hitables.SphereRoots` |
| Hitables.Root1 | src/hitable.rs:67 | no contract; its properties are `Hitables.SphereRoots` |
| Hitables.Root2 | src/hitable.rs:79 | no contract; its properties are `Hitables.SphereRoots` |
| Hitables.SphereBox | src/hitable.rs:123-130 | no contract; its properties are `Hitables.SphereBoxExact` and `Hitables.InsideSphereInsideBox` |
| Hitables.Hit | src/hitable.rs:111-170 | no contract; `hit` of every kind of object, the BVH node's as at src/bvh_node.rs:81-101; its properties are `Hitables.HitEntersBox`, `Bvh.RootMissed`, `Bvh.NodeHitNearest` and `Bvh.BvhHitMatchesList` |
| Hitables.ListHit | src/hitable.rs:23-38 | no contract; its properties are `Hitables.ListHitNearest`, `Hitables.ListHitIsFold`, `Bvh.ListHitAppend` and `Bvh.ListHitPerm` |
| Hitables.AddBox | src/hitable.rs:42-47 | no contract; the step of the box fold, whose properties are `Hitables.ListBoxEncloses` |
| Hitables.BoundingBox | src/hitable.rs:123-184 | no contract; `bounding_box` of every kind of object, the BVH node's as at src/bvh_node.rs:77-79; its properties are `Hitables.SphereBoxExact`, `Hitables.MovingSphereBoxEncloses`, `Hitables.BoxExistenceTimeFree` and `Bvh.NodeBox` |
| Hitables.ListBox | src/hitable.rs:40-49 | no contract; its properties are `Hitables.ListBoxEncloses` |
| Bvh.Key | src/bvh_node.rs:105-107 | no contract; the box minimum on the axis at times `(0, 0)`, which `Bvh.BoxCompare` compares |
| Bvh.Leaves | src/bvh_node.rs:27-71 | no contract; the objects of a built tree, whose properties are `Bvh.Build` and `Bvh.BuiltEncloses` |
| Bvh.HitT | src/bvh_node.rs:88 | no contract; the distance `t` both folds compare |
| Bvh.Nearest | src/bvh_node.rs:87-96 | no contract; its properties are `Bvh.NearestLaws`, `Bvh.NearestSwap` and `Bvh.CombinersAgree` |
| OldLists.FirstHit | src/hitable_list.rs:10-20 | no contract; its properties are `OldLists.FirstHitFirst`, `OldLists.FirstHitStops`, `OldLists.FirstHitOfAnswers` and `OldLists.FirstHitNotNearest` |
| OldSpheres.OldRecordAt | src/sphere.rs:22-27 | no contract; the record built for a root, whose properties are `OldSpheres.OldSphereMatchesHitSphere` |
| Noise.Pow2 | src/noises.rs:99-101 | a power of two is at least 1; used by `Noise.AndMask` and `Noise.XorBound` |
| Noise.And | src/noises.rs:99-101 | no contract; bitwise AND on naturals, whose properties are `Noise.AndMask` |
| Noise.Xor | src/noises.rs:99-102 | no contract; bitwise XOR on naturals, whose properties are `Noise.XorBound` |
| Noise.WrappingAdd | src/noises.rs:99-101 | no contract; its properties are `Noise.WrappingAddWraps` and `Noise.MaskIgnoresWrap` |
| Noise.MaskIndex | src/noises.rs:99-101 | no contract; its properties are `Noise.MaskIndexMod` and `Noise.MaskIgnoresWrap` |
| Noise.RawVec | src/noises.rs:18-21 | no contract; the vector `-1 + 2 d` that `Noise.PerlinGenerate` normalises |
| Noise.Corner | src/noises.rs:103 | no contract; the vector `Noise.NoiseLattice` stores at each corner |
| Noise.Weight | src/noises.rs:114-119 | no contract; its properties are `Noise.OctaveSchedule` and `Noise.TurbWeights` |
| Noise.OctavePoint | src/noises.rs:113-118 | no contract; its properties are `Noise.OctaveSchedule` |
| Noise.OctaveSum | src/noises.rs:115-121 | no contract; its properties are `Noise.OctaveStep` and `Noise.Turb` |
| Materials.Target | src/material.rs:45 | no contract; the target point `point + normal + sample`, which `Materials.Scatter` reaches at parameter 1 |
| Integrator.BackgroundOf | src/main.rs:25-26 | no contract; its properties are `Integrator.BackgroundEndpoints` and `Integrator.BackgroundOfBounds` |
| Integrator.Background | src/main.rs:23-27 | no contract; its properties are `Integrator.BackgroundBounds` |
| Integrator.Color | src/main.rs:29-43 | no contract; its properties are `Integrator.ColorMiss`, `Integrator.ColorBlack`, `Integrator.ColorScatter`, `Integrator.EnclosedWorldIsBlack` and `Integrator.ColorUsesWindowOnly` |
| Integrator.Bounces | src/main.rs:34-37 | no contract; the number of scatters `Integrator.Color` follows, bounded by `Integrator.BouncesBounded` |

## Left out

- Floating point. All arithmetic is exact real arithmetic. `f32`/`f64` rounding, the mix of `f32` vectors and `f64` scalars, IEEE infinities and NaN are not modelled.
- The slab test's division by a zero direction component. The source relies on the resulting infinities. Here every slab-testing lemma and `Boxes.Hit` require `Boxes.Testable`: no zero component.
- `Bvh.BoxCompare`: a NaN box minimum, for which `partial_cmp` fails and the source panics "Can't compare", is not modelled; only the missing-box failure is.
- The NaN that `unit_vector` gives for a zero vector. `Integrator.Background` returns `None` for a zero direction, and `Integrator.Color` passes that `None` on. `Noise.PerlinGenerate` and `Noise.NewPerlin` require draws that do not give the zero vector.
- Randomness. `thread_rng` is replaced by parameters, namely:
  - the axis stream of `Bvh.Build`;
  - the shuffle positions of `Noise.PerlinGeneratePerm`, with `draw(i) % (i + 1)` standing for `gen_range(0, i + 1)`;
  - the draws of `Noise.PerlinGenerate`;
  - the draws of the unit-sphere samplers;
  - the `sample` argument of `Materials.Scatter`.
  
  The model does not capture that the draws lie in `[0, 1)`. It also does not capture the particular algorithm of `rand`'s shuffle.
- The source sorts the owned list in place and then recurses on split copies. `Bvh.Build` takes the list as a sequence; `Bvh.SortedCopy` copies it into an array, which `Bvh.SortByAxis` sorts in place. This is an insertion sort, not the standard library's merge sort.
- `Bvh.SortByAxis`: `sort_by` is stable, and so is the insertion sort, which moves an object only past objects with a strictly greater key. The contract claims only "sorted and a permutation", not stability.
- `Hitables.WellFormed` excludes moving spheres with `time0 == time1`, for which `MovingSphere::center` divides zero by zero and gives a NaN centre. Every hit and box member requires it.
- `Bvh.BuiltTreeMatchesInput` and `Bvh.BvhHitMatchesList` require two things the source does not check:
  - **Properly boxed objects** (`Bvh.AllProperlyBoxed`): non-negative radii. A sphere with a negative radius gets an inverted box, and a surrounding box built from it can leave the sphere out, so the tree would miss hits the list finds.
  - **A ray time within the build times.** Outside them a moving sphere can leave the box computed for `(time0, time1)`.
- `Bvh.Build` requires a non-empty list. For an empty list the source never returns: `Bvh.SplitSizes` shows the catch-all arm splits it into the same empty list again.
- The panic "Random axis out of range" cannot happen for an axis drawn from `0..3`; the axis type is `0..3`.
- Integer overflow. `Noise.WrappingAdd` models release-build wrap-around of the `i32` addition in `noise`. A debug build would panic on overflow instead. The float-to-`i32` cast of the floors is `Noise.SaturatingCast` over the integer floor.
- `perlin_interp` and the floating-point body of `Perlin::noise` after the lattice lookup are not part of this model. `Noise.Turb` takes `noise` as a parameter.
- `Materials.RandomPointAsWritten`: the endless loop is bounded by a fuel parameter; `None` stands for "still looping after that many passes".
- `Materials.RandomPointInUnitSphere`: requires that some draw of the stream lies inside the unit sphere, since a stream without one would loop forever.
- `Materials.Scatter` and `Materials.ScatterAsWritten`: the source builds the scattered `Ray` without its `time` field, which does not compile. The model puts time 0.
- `Integrator.Color`: `world.hit` and the material's `scatter` are abstract functions, and `Integrator.Shader` is total. The source's `Lambertian::scatter` is not pure: it consumes random draws through `random_point_in_unit_sphere`, and with that sampler as written it can fail to return. The source calls `scatter` even at depth 50 and more before discarding the result, so its `color` can hang at the cutoff, where `Integrator.Color` is black. `Integrator.BouncesBounded` and `Integrator.EnclosedWorldIsBlack` hold for a `scatter` that always returns.
- Pixel sampling, gamma correction and the PPM output of `main` are not part of this model.
- The older `src/sphere.rs` sphere has no material, so `OldSpheres.OldSphereHit` returns a record of `t`, point and normal only.
- `src/hitable_list.rs` takes `self` by value over an unsized `Vec<Hitable>` and does not compile as written. `OldLists.FirstHit` models its fold generically over any item query.
- The camera (`src/camera.rs`), the textures (`src/texture.rs`), `Metal` and `Vec3::sqrt` are not part of this model: each is float geometry or shading with nothing discrete to prove.
- Division of vectors (`/`) is modelled with non-zero divisors only; division by zero would give IEEE infinities.

## Findings

| source | as written | input that shows it | evidently intended | confidence | as-written member | corrected member |
|---|---|---|---|---|---|---|
| src/material.rs:15-26 | `x`, `y`, `z` are drawn once before the `loop`, so every pass rebuilds the same point | a first draw of `(0.9, 0.9, 0.9)`, of length about 1.56: the loop never ends | draw a fresh point on every pass until one lies inside the unit sphere | not executed | Materials.RandomPointAsWritten | Materials.RandomPointInUnitSphere |
| src/material.rs:45 | the scattered direction is `rec.point + rec.normal + sample` | a hit at point `(-10, 0, 0)` with normal `(1, 0, 0)` and sample `(0, 0, 0)`: the direction `(-9, 0, 0)` points back into the surface | the direction from the hit point to the target, `rec.normal + sample` | not executed | Materials.ScatterAsWritten | Materials.Scatter |
