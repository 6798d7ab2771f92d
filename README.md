# A verified model of a small Rust path tracer

This project models the geometric query and decision layer of a small Monte
Carlo path tracer written in Rust, and proves properties of it in Dafny. It
covers these parts:

- the three-component vector algebra, including the compound assignments, which are modelled as a class updated in place;
- rays;
- axis-aligned bounding boxes: their union and the per-axis slab test;
- the two sphere kinds and their quadratic root selection;
- the material scattering rule;
- the bounding volume hierarchy: its comparators, sort and build, and its traversal;
- the two linear-scan aggregates, `World` and `HitList`, each modelled as a class over a sequence;
- the thin-lens camera;
- the two colour estimators and their rejection samplers;
- the pixel loop of the renderer.

## How the model is built

**Numbers.**
- Every `f32` is a `real`.
- `sqrt` and `tan` are uninterpreted constants of type `real -> real`. A property that needs an exact square root takes that as a precondition (`ExactSqrtAt`, or `SqrtExact` for all non-negative inputs).
- Division by zero yields 0. The IEEE result would be an infinity or NaN.
- The slab test of `Aabb::hit` on a zero direction component is the one exception. There the IEEE outcome is written out: `1/0 = inf`, then `0 * inf = NaN`, and comparisons with NaN are false. The axis then passes iff the origin lies in the slab and `t_min < t_max`.

**Randomness.** Every draw of the random generator is an explicit parameter:
- the rejection loops take the sequence of draws of their trials;
- scattering takes the point the sampler returned;
- the camera takes the disk sample;
- the hierarchy build takes a draw function and an index;
- the renderer takes jitter, disk and bounce samples keyed by pixel, sample and bounce.

**Types and dispatch.**
- `dyn Hit` dispatch becomes the closed datatype `Hittables.Hittable`, with four cases: static sphere, moving sphere, empty node and inner node.
- Failures that the Rust code turns into a panic or an endless recursion become `Result` errors: an `unwrap` of a missing box, an index past the end, an input that never terminates.

**Defects reproduced, not fixed.** The code as written has several defects, and the model keeps each one:
- `cross` (src/vector.rs:33-35) subtracts where it should multiply. `Vector.CrossOfSelfAlongX` shows that it does not even annihilate a vector with itself.
- The slab test (src/aabb.rs:37) compares `t1` with `t_min` where `t_max` is meant. It also never narrows the interval across axes. `Boxes.SlabHitWithoutEntering` exhibits a ray that passes the test without ever entering the box.
- A hierarchy build over exactly two primitives calls `remove(1)` on a one-element vector (src/bvh.rs:68-69). Every split of three or more eventually reaches such a pair, so `Bvh.Build` succeeds only for exactly one primitive with a box.
- The sampler of src/random.rs:15 keeps the points *outside* the unit sphere. `Sampling.AcceptedOutsideUnitSphere` places them between squared length 1 and 3.
- The sampler of src/main.rs keeps the points inside it, so the two samplers disagree.
- A dielectric material never scatters (src/material.rs:61).
- When a material absorbs a ray, the renderer of src/renderer.rs returns black. The first renderer of src/main.rs returns the sky instead (`Program.AbsorptionDiffers`).
- The comparators of the hierarchy build read every box at time `(0, 0)`, whatever instants the build was asked for.

**Mixed revisions.** The sources come from different revisions of the program, and each file is modelled by its own logic:
- `HitList::hit` returns `(bool, HitRecord)`, while the other primitives return `Option<HitRecord>`.
- The renderer's `scatter` returns a `(ray, attenuation)` pair, while material.rs returns a `Scatter` value. Both are modelled by the `Scatter` of material.rs.
- A static sphere has no `bounding_box` in src/sphere.rs, so the model gives it none.

## Model

| member | source | states |
|---|---|---|
| Vector.Refract | src/vector.rs:47-58 | refraction fails, giving the zero vector, exactly when the discriminant `1 - eta^2 (1 - (n.v)^2)` is negative |
| Vector.DotCommutes | src/vector.rs:27-29 | the dot product is commutative |
| Vector.SquaredLengthIsSelfDot | src/vector.rs:15-17 | the squared length is the dot product of a vector with itself |
| Vector.LerpEndpoints | src/vector.rs:39-41 | `lerp` at 0 gives the first vector and at 1 the second |
| Vector.SubAddCancel | src/vector.rs:62-84 | adding back what was subtracted restores the vector |
| Vector.ReflectAboutUnitNormal | src/vector.rs:43-45 | for a unit normal, reflection negates the normal component and reflecting twice gives the original vector |
| Vector.RefractSucceedsWithoutDenserMedium | src/vector.rs:47-53 | with a relative index and a cosine both of magnitude at most one, refraction succeeds |
| Vector.RefractMatchedIndex | src/vector.rs:47-58 | at index ratio one, an entering ray passes through unbent |
| Vector.NormalizeIsUnit | src/vector.rs:19-25 | with an exact square root, normalising a nonzero vector gives squared length one |
| Vector.CrossOfSelfAlongX | src/vector.rs:31-37 | the written `cross` of a vector along x with itself is `(0, x, -x)`, not zero |
| Vector.SquaredLengthDivScalar | src/vector.rs:122-132 | dividing by `r` divides the squared length by `r^2` |
| Vector.MutableVector.constructor | src/vector.rs:11-13 | the new vector holds the given components |
| Vector.MutableVector.AddAssign | src/vector.rs:170-176 | `+=` sets the value to the sum with the operand |
| Vector.MutableVector.SubAssign | src/vector.rs:178-184 | `-=` sets the value to the difference |
| Vector.MutableVector.MulAssign | src/vector.rs:186-192 | `*=` by a vector sets the value to the component-wise product |
| Vector.MutableVector.DivAssign | src/vector.rs:194-200 | `/=` by a vector sets the value to the component-wise quotient |
| Vector.MutableVector.MulAssignScalar | src/vector.rs:202-208 | `*=` by a scalar scales the value |
| Vector.MutableVector.DivAssignScalar | src/vector.rs:210-216 | `/=` by a scalar divides the value |
| Rays.NewRay | src/ray.rs:11-13 | the ray keeps origin and direction and is cast at time 1.0 |
| Rays.WithTime | src/ray.rs:15-17 | the given time is stored unchanged |
| Rays.PointAtIsAffine | src/ray.rs:19-21 | parameter 0 is the origin, and advancing the parameter by `t` adds `t` times the direction |
| Rays.PointAtIgnoresTime | src/ray.rs:15-21 | the point at a parameter does not depend on the ray's time |
| Boxes.Min | src/aabb.rs:5-7 | the result is one of the arguments and bounds both from below |
| Boxes.Max | src/aabb.rs:9-11 | the result is one of the arguments and bounds both from above |
| Boxes.SurroundingBox | src/aabb.rs:48-62 | the union encloses both boxes, and it is well formed when either input is |
| Boxes.SurroundingBoxIsLeast | src/aabb.rs:48-62 | every box enclosing both inputs encloses their union |
| Boxes.SurroundingBoxAlgebra | src/aabb.rs:48-62 | the union is commutative, associative and idempotent |
| Boxes.EnclosesTransitive | src/aabb.rs:48-62 | enclosure is transitive |
| Boxes.Hit | src/aabb.rs:24-45 | the loop over three axes returns the conjunction of the per-axis verdicts |
| Boxes.AxisTest | src/aabb.rs:26-41 | one loop iteration, with its swap and its IEEE reading of a zero direction, returns the axis verdict |
| Boxes.SlabPassesIff | src/aabb.rs:36-40 | an axis passes iff the exit parameter is at least `t_min`, the entry parameter is below `t_max`, and `t_min < t_max` |
| Boxes.SlabMissesEmptyInterval | src/aabb.rs:36-40 | an empty or reversed interval never hits |
| Boxes.SlabIntervalOrdered | src/aabb.rs:26-34 | for an ordered slab the swap puts the entry parameter first |
| Boxes.SlabConservative | src/aabb.rs:24-45 | if the ray is inside the box at some parameter strictly inside the interval, the test passes |
| Boxes.SlabHitWithoutEntering | src/aabb.rs:36-42 | a concrete ray passes the test although no point of it lies in the unit box |
| Materials.ClampFuzz | src/material.rs:47 | the effective fuzz is the smaller of the fuzz and one |
| Materials.ScatterRay | src/material.rs:33-63 | Lambertian always scatters, towards normal plus sample. Metal scatters iff its fuzzed reflection faces the normal. Dielectric never scatters. A scattered ray starts at the hit point at time 1.0 with the albedo as colour |
| Materials.MirrorScattersIncomingRays | src/material.rs:44-59 | a zero-fuzz mirror with a unit normal scatters exactly the rays arriving against the normal |
| Materials.FuzzClampedAtOne | src/material.rs:47-53 | any fuzz of one or more behaves as fuzz one |
| Spheres.Hit | src/sphere.rs:24-56 | no hit unless the discriminant is positive. The near root is taken if it lies strictly inside the interval, otherwise the far root if it does. The record is the point and the scaled normal at that root |
| Spheres.PositiveDiscriminantHasDirection | src/sphere.rs:26-31 | a positive discriminant implies a nonzero direction, so the division by `a` is defined |
| Spheres.RootOfQuadratic | src/sphere.rs:29-43 | with an exact square root, both candidate parameters are roots of the quadratic |
| Spheres.SquaredDistanceIsQuadratic | src/sphere.rs:25-29 | the squared distance from the centre, minus `r^2`, is the quadratic in the parameter |
| Spheres.HitPointOnSphere | src/sphere.rs:25-38 | with an exact square root, the reported point lies on the sphere |
| Spheres.HitNormalIsUnit | src/sphere.rs:34-49 | with an exact square root and a nonzero radius, the normal has unit length |
| Spheres.HitNormalFollowsRadiusSign | src/sphere.rs:38-49 | the normal points away from the centre for a positive radius and towards it for a negative one |
| Spheres.NearRootFirst | src/sphere.rs:32-43 | with a non-negative square root, the near root is at most the far root |
| Spheres.HitShrinks | src/sphere.rs:24-56 | narrowing the upper bound answers with the part of the wider answer below it, provided the square root of a positive discriminant is non-negative |
| MovingSpheres.Hit | src/moving_sphere.rs:43-71 | the static-sphere rule at the centre for the ray's time: no hit without a positive discriminant; the parameter is one of the two roots; the near root when it lies strictly inside the interval, otherwise the far root exactly when it does; the point on the ray and the normal from the moving centre |
| MovingSpheres.BoundingBox | src/moving_sphere.rs:73-85 | the box is always present, encloses the radius boxes around both instants' centres, and is well formed for a non-negative radius |
| MovingSpheres.CenterAtEndpoints | src/moving_sphere.rs:36-39 | at `time0` the centre is `center0`, and at `time1` it is `center1` when the instants differ |
| MovingSpheres.CenterAtMidpoint | src/moving_sphere.rs:36-39 | halfway between the instants the centre is halfway between the centres |
| MovingSpheres.HitShrinks | src/moving_sphere.rs:43-71 | narrowing the upper bound answers with the part of the wider answer below it, provided the square root of a positive discriminant is non-negative |
| Hittables.Nearer | src/bvh.rs:93-104 | none only when both children miss; otherwise the child answer with the smaller parameter, the right one on ties |
| Hittables.Hit | src/bvh.rs:88-108 | every answer lies strictly inside the interval. An empty node never hits, and an inner node whose box test fails does not hit |
| Hittables.BoundingBox | src/bvh.rs:36-38 | only a static sphere has no box, and both node kinds return their stored box whatever the instants |
| Hittables.NodeHitIsNearestChild | src/bvh.rs:89-104 | when the box test passes, a node hits iff a child does, answers with one child's record, and is no farther than either child |
| Hittables.PrimitivesShrinkConsistent | src/sphere.rs:24-56 | spheres, given a non-negative square root of a positive discriminant, and empty nodes answer a narrowed query with the part of the wider answer below the new bound |
| Hittables.HitMaterialIsPrimitive | src/bvh.rs:88-108 | the material of any hit is the material of a primitive of the tree |
| Bvh.ChooseAxis | src/bvh.rs:49-56 | the truncated `3 * draw` selects x for 0, y for 1 and z otherwise |
| Bvh.TruncateToInt | src/bvh.rs:49 | `as i32` rounds towards zero |
| Bvh.BoxCompare | src/bvh.rs:8-25 | a comparator fails iff a box is missing; otherwise it is never `Equal`, and it is `Less` iff the first key is strictly below the second |
| Bvh.SortByAxis | src/bvh.rs:50-56 | the result is a permutation of the input, sorted by key on the axis |
| Bvh.Insert | src/bvh.rs:50-56 | inserting into a sorted sequence adds the element and keeps the order |
| Bvh.Split | src/bvh.rs:71 | the halves concatenate to the input, the first has `l / 2` elements, and both are nonempty and shorter |
| Bvh.Build | src/bvh.rs:48-84 | the build succeeds iff there is exactly one primitive and it has a box. The node then holds it on the left, an empty node with its box on the right, and that box. No input terminates; a missing box is reported; two or more primitives run past the end of a vector |
| Worlds.Scan | src/world.rs:25-37 | every answer of the scan lies strictly inside the interval |
| Worlds.World.constructor | src/world.rs:12-14 | a new world is empty |
| Worlds.World.Add | src/world.rs:16-21 | one element is appended at the end and nothing else changes |
| Worlds.World.Hit | src/world.rs:25-37 | the loop that shrinks `closest` computes the scan, whose answer lies strictly inside the interval |
| Worlds.World.BoundingBox | src/world.rs:39-62 | the loop computes the left fold of the union over the elements' boxes |
| Worlds.FoldWithoutBox | src/world.rs:50-55 | an element without a box makes the whole box absent |
| Worlds.FoldBoxesPresent | src/world.rs:39-62 | the box is present iff the world is nonempty and every element has a box |
| Worlds.FoldBoxesEncloses | src/world.rs:47-58 | the box, when present, encloses every element's box |
| Worlds.ScanClosestShrinks | src/world.rs:27-33 | `closest` never grows as the scan advances |
| Worlds.Answers | src/world.rs:29-30 | one full-interval answer per element, in order |
| Worlds.ScanFindsNearest | src/world.rs:25-37 | when the elements are consistent under narrowing, the scan misses only if every element misses. Otherwise it answers with the nearest hit, the earliest element winning ties |
| Worlds.ScanKeepsNearer | src/world.rs:29-34 | the scan equals keeping the strictly nearer answer over the elements' full answers |
| Worlds.KeepNearerMissesOnlyWhenAllMiss | src/world.rs:29-36 | keeping the nearer answer gives none iff every answer is none |
| Worlds.KeepNearerBelowEveryAnswer | src/world.rs:29-34 | the kept answer is at or below every answer |
| Worlds.KeepNearerKeepsEarliest | src/world.rs:29-34 | the kept answer is the earliest among equally near answers |
| Worlds.EmptyScan | src/world.rs:26-36 | an empty world is never hit |
| HitLists.HitList.constructor | src/hit_list.rs:10-12 | a new list is empty |
| HitLists.HitList.Add | src/hit_list.rs:14-16 | one element is pushed at the end and nothing else changes |
| HitLists.HitList.Hit | src/hit_list.rs:20-35 | the flag is raised iff the scan finds a hit, the record is that hit inside the interval, and with no hit the record is `HitRecord::new()` |
| HitLists.FlagMeansSomeHit | src/hit_list.rs:22-34 | for elements consistent under narrowing, the flag is raised iff some element hits over the whole interval |
| Sampling.RandomInUnitSphere | src/random.rs:9-19 | the first trial point whose squared length is at least one; none only when no trial qualifies |
| Sampling.CandidateInCube | src/random.rs:13 | each coordinate of a trial point lies in [-1, 1) |
| Sampling.AcceptedOutsideUnitSphere | src/random.rs:13-16 | an accepted point has squared length between 1 and 3 |
| Cameras.NewCamera | src/camera.rs:19-48 | the camera sits at the eye, with lens radius half the aperture |
| Cameras.GetRay | src/camera.rs:50-58 | the ray starts at the eye moved by the lens offset, reaches the target point of `(s, t)` whatever the offset, and is cast at time 1.0 |
| Cameras.PinholeWithoutLens | src/camera.rs:51-55 | with a zero lens sample or a zero aperture, every ray starts at the eye |
| Cameras.ViewportCentredOnFocalPoint | src/camera.rs:37-42 | the middle of the viewport is at focus distance from the eye along `-w` |
| Cameras.HorizontalSpan | src/camera.rs:28-41 | the viewport spans `2 * aspect * half_height * focus_dist` along `u` |
| Cameras.VerticalSpan | src/camera.rs:28-42 | the viewport spans `2 * half_height * focus_dist` along `v` |
| Rendering.Sky | src/renderer.rs:65-70 | the background's blue channel is always one |
| Rendering.Color | src/renderer.rs:51-71 | a miss gives the sky; a hit at or past the bounce limit gives the sky; a hit below the limit that is absorbed gives black |
| Rendering.ColorFollowsScatter | src/renderer.rs:57-59 | a hit below the limit that scatters gives the attenuation times the estimate of the scattered ray one bounce deeper |
| Rendering.HitMaterialBounded | src/bvh.rs:88-104 | when every primitive's albedo lies in the unit cube (or it is a dielectric), so does the albedo of any hit's material |
| Rendering.PrimitivesConsistentUnderExactSqrt | src/sphere.rs:31-52 | with an exact square root every primitive is consistent under narrowing, so the nearest-hit theorem of the scan applies |
| Rendering.SkyBounded | src/renderer.rs:65-70 | with an exact square root, the sky lies in the unit cube |
| Rendering.ColorBounded | src/renderer.rs:51-71 | with an exact square root and albedos in the unit cube, every estimate lies in the unit cube |
| Rendering.ToByte | src/renderer.rs:110 | the byte cast truncates in range and saturates at 0 and 255 |
| Rendering.Quantize | src/renderer.rs:108-110 | each pixel gives three bytes |
| Rendering.PixelBytes | src/renderer.rs:101-110 | each pixel gives three bytes |
| Rendering.SumSamples | src/renderer.rs:86-99 | the sample loop accumulates the sum of the pixel's `spp` samples |
| Rendering.Average | src/renderer.rs:101-110 | `col` ends holding the sum divided by the count and square-rooted channel by channel, and the bytes are that value quantised |
| Rendering.PixelEstimate | src/renderer.rs:86-111 | the per-pixel work yields the pixel's bytes |
| Rendering.SampleSumBounded | src/renderer.rs:89-99 | each channel of the sum of `n` samples lies in `[0, n]` |
| Rendering.PixelColorBounded | src/renderer.rs:101-105 | with at least one sample, each channel after averaging and the square root lies in [0, 1], so `255.99 *` it never saturates |
| Rendering.RenderRow | src/renderer.rs:84-111 | a row is the pixels' bytes from the left |
| Rendering.RenderToPixels | src/renderer.rs:80-113 | the image is the rows from `height - 1` down to 0 |
| Rendering.RowLayout | src/renderer.rs:84-111 | a row of three-byte pixels has `3 * width` bytes, with pixel `i` at offset `3 * i` |
| Rendering.ImageLayout | src/renderer.rs:80-113 | `n` emitted rows hold `3 * n * width` bytes, with channel `ch` of pixel `i` of emitted row `r` at `3 * (r * width + i) + ch` |
| Rendering.RenderedLayout | src/renderer.rs:80-113 | the rendered image has `3 * width * height` bytes, and channel `ch` of pixel `(i, j)` sits at `3 * ((height - 1 - j) * width + i) + ch` |
| Program.RandomInUnitSphere | src/main.rs:29-45 | the first trial point strictly inside the unit sphere, which the sampler of src/random.rs would reject; none only when no trial qualifies |
| Program.SkyLerp | src/main.rs:57-59 | the lerp towards sky blue equals the background of the renderer |
| Program.Color | src/main.rs:48-60 | on the interval `(0.001, f32::MAX)`: a miss, an absorbed ray, or a depth of 50 or more each give the sky |
| Program.ColorFollowsScatter | src/main.rs:49-53 | a hit below depth 50 that scatters gives the scatter's colour times the estimate of the scattered ray one bounce deeper |
| Program.AbsorptionDiffers | src/main.rs:49-59 | where both renderers see an absorbing hit below their bounce limits, the renderer answers black and this estimator does not |

## Left out

- Output of the image (`main()` in src/main.rs and `Renderer::render` in src/renderer.rs): the PPM text, the image crate, file naming by hash, the progress bar and console printing are all I/O.
- src/scenes.rs: scene data with no logic. It also calls a `World::new` signature that src/world.rs does not have.
- src/scene.rs: it wires a hierarchy type that src/bvh.rs does not define. `Rendering.Scene` holds the settings and the root of the hierarchy directly, instead of indexing a vector of scenes.
- IEEE-754 rounding, NaN propagation and infinities are not modelled. Apart from the zero-direction slab case written out above, division by zero yields 0.
- `sqrt` and `tan` are uninterpreted. Their properties are preconditions where needed.
- The `rand` crate and its thread-local generators: draws are parameters.
- `Rc` and `Box<dyn Hit>` ownership: a closed datatype stands for the trait objects, and `HitRecord` holds a `Material` value.
- Equal keys in `sort_by`: the model proves a sorted permutation but does not fix the relative order of equal keys. The comparator never answers `Equal`, so the order `sort_by` would give them is not determined by the source.
- `World` as an element of another aggregate: `World` implements `Hit` in src/world.rs, but it is not a case of `Hittables.Hittable`.
- The casts of `f64` draws to `f32` in src/main.rs: the draws are reals.
- Negative settings (`i32` width, height, samples) are modelled as empty ranges, as Rust's `0..n` gives.
- Sampling.RandomInUnitSphere: the unbounded rejection loop is bounded by the finite sequence of trials given, and answers none when they run out.
- Program.RandomInUnitSphere: bounded by the finite sequence of trials in the same way.
- Bvh.Build: the input that recurses forever, the empty vector, is answered with the error `NoTermination` instead of a non-terminating call.
- Rendering.RenderToPixels: it takes the per-pixel bytes as a function parameter. `Rendering.PixelEstimate` is proved to compute those bytes (`Rendering.PixelBytes`), but the row loop does not call it.
- Rendering.PixelBytes: states only the length of the result. The channel values are stated by `Rendering.ToByte` and `Rendering.PixelColorBounded`.
- Rendering.Quantize: states only the length of the result, for the same reason.
- Rendering.Sky: the contract states only the blue channel. The gradient is the definition itself, and `Program.SkyLerp` proves it equal to the lerp form of src/main.rs.
