# Ray tracer intersection layer in Dafny

This project models the intersection layer of a small C++ ray tracer and two integer helpers beside it. It covers:

- the axis-aligned bounding-box slab test;
- the hit record and its face-normal orientation;
- the closest-hit scan over a list of hittables;
- ray/sphere and ray/quad intersection;
- the Perlin permutation tables and noise lookup;
- the byte buffer of image textures.

`double` is modelled as `real`, so all arithmetic is exact. Vectors are triples of reals. A few things the code relies on are not part of this model, so they become parameters or stand-ins:

- The square root (`std::sqrt`, and the one inside `unit_vector`) is a function parameter `sqrt: real -> real`. Lemmas that need it to be exact say so in their `requires`.
- Random draws (`random_double`, `random_int`) are sequences given to the constructor. A draw `random_int(0, i)` is assumed to lie in `[0, i]`.
- `stbi_loadf` is modelled by its result: either a failure or the dimensions and the floats.
- vec3.h, ray.h and interval.h are not part of this model. geometry.dfy gives minimal stand-ins for them:
  - `contains` is closed at both ends;
  - `surrounds` is open at both ends.

One module per header:

| file | module | models |
|---|---|---|
| geometry.dfy | `Geometry` | stand-ins for the vector, ray and interval types |
| aabb.dfy | `Bounds` | `aabb` |
| hittable.dfy | `Hittable` | `hit_record` |
| hittable_list.dfy | `HittableLists` | `hittable_list` |
| sphere.dfy | `Spheres` | `sphere` |
| quad.dfy | `Quads` | `quad` |
| perlin.dfy | `Perlin` | `perlin` |
| rt_image.dfy | `Images` | `rt_image` |

The model follows the shape of each operation in the C++:

- Objects whose fields the code updates become classes with `modifies` clauses: `HitRecord`, `HittableList`, `Quad`, `Perlin`, `RtImage`.
- Loops become methods with invariants:
  - the slab test;
  - the list scan;
  - `permute` and `perlin_generate_perm`;
  - `convert_to_bytes`.
- Each such method is proved against a specification function, and the properties the code promises are proved about that function:
  - `Accepts` for the slab test;
  - `Scan` for the list scan;
  - `Shuffle` for `permute`;
  - `Bytes` for `convert_to_bytes`;
  - `SelectRoot` for the sphere;
  - `Intersect` for the quad.

Where the code and the general design of the renderer disagree, the model follows the code:

- The sphere here is static and writes no texture coordinates.
- Boxes carry no padding.
- The list's `hit` queries each child with `(t_min, closest_so_far)` as separate numbers.

The three quirks of the code are reproduced as written, and each has a row under Findings.

## Model

| member | source | states |
|---|---|---|
| Bounds.FromPoints | src/aabb.h:14-19 | each axis interval runs from the smaller to the larger coordinate of the two corners, whatever their order |
| Bounds.FromPointsSymmetric | src/aabb.h:14-19 | `aabb(a, b)` and `aabb(b, a)` are the same box |
| Bounds.FromPointsContainsCorners | src/aabb.h:14-19 | both corners lie in the box built from them |
| Bounds.AxisInterval | src/aabb.h:21-25 | argument 1 selects `y`; every other argument, 0 included, selects `z` |
| Bounds.AsWrittenSlabs | src/aabb.h:21-32 | the loop examines the slabs `z`, `y`, `z` in that order |
| Bounds.Clip | src/aabb.h:38-44 | one iteration never widens the window |
| Bounds.ClipIsIntersection | src/aabb.h:38-44 | both branches of one iteration intersect the window with `[min(t0,t1), max(t0,t1)]` |
| Bounds.Hit | src/aabb.h:27-50 | the loop with early return answers exactly `Accepts`: no iteration leaves the window empty; the caller's window is a value and never changes |
| Bounds.WindowNarrows | src/aabb.h:38-44 | across iterations the local `min` never decreases and `max` never increases |
| Bounds.AcceptsIffFinalWindow | src/aabb.h:46-49 | returning false as soon as the window is empty is the same as testing only the window after the third axis |
| Bounds.SlabParameter | src/aabb.h:33-36 | `t` lies between the two crossings of a slab exactly when `o + t*d` lies in the slab (closed and open forms) |
| Bounds.StepKeeps | src/aabb.h:33-44 | after one iteration the window keeps `t` strictly inside iff the old window did and the point lies strictly inside the slab |
| Bounds.StepKeepsClosed | src/aabb.h:33-44 | the same with the closed window and slab |
| Bounds.WindowStep | src/aabb.h:31-44 | the window after iteration `k` is the clip of the window before it |
| Bounds.WindowStepKeeps | src/aabb.h:31-44 | iteration `k` keeps `t` iff iteration `k-1` kept it and the point lies in slab `k-1` |
| Bounds.WindowHolds | src/aabb.h:31-47 | the window after `k` iterations keeps `t` strictly inside iff the caller's window does and the point lies strictly inside the first `k` slabs |
| Bounds.WindowContains | src/aabb.h:31-47 | a `t` in the closed window after `k` iterations is in the caller's window and its point in the first `k` slabs |
| Bounds.AcceptsSound | src/aabb.h:27-50 | an accepted ray has a parameter strictly inside the window whose point lies in every examined slab |
| Bounds.AcceptsComplete | src/aabb.h:27-50 | a parameter strictly inside the window whose point lies strictly inside every examined slab makes the test accept |
| Bounds.HitIgnoresX | src/aabb.h:21-32 | two boxes that differ only in `x` get the same answer for every ray |
| Bounds.AsWrittenAcceptsMiss | src/aabb.h:21-25 | a box at `x` in `[10,11]` is reported hit by a ray none of whose in-window points is in the box |
| Bounds.IntendedAcceptsSound | src/aabb.h:27-50 | with slabs `x`, `y`, `z`, an accepted ray has an in-window point in the box |
| Bounds.IntendedAcceptsComplete | src/aabb.h:27-50 | with slabs `x`, `y`, `z`, a ray with an in-window point strictly inside the box is accepted |
| Bounds.IntendedRejectsGrazing | src/aabb.h:38-49 | even with slabs `x`, `y`, `z`, a ray that touches the unit box only at an edge point inside the window is rejected, because the window `[0, 0]` counts as empty |
| Bounds.Enclose | src/quad.h:19 | the assumed `aabb(aabb, aabb)`: every point of either box is in the union |
| Hittable.FacingNormal | src/hittable.h:13-14 | the outward normal when `dot(dir, outward) < 0`, its negation otherwise; it never points along the ray and keeps its length |
| Hittable.HitRecord.SetFaceNormal | src/hittable.h:12-15 | `front_face` iff `dot(dir, outward) < 0`; the normal is the oriented one; `p`, `t`, `u`, `v`, `mat` are unchanged |
| Hittable.HitRecord.Assign | src/hittable_list.h:28 | `rec = temp_rec` copies every field |
| HittableLists.ChildHit | src/hittable_list.h:25 | a child's answer: some candidate strictly inside the window iff one exists, and then the smallest |
| HittableLists.ScanMeaning | src/hittable_list.h:22-30 | from any bound and record, the scan ends with a record no farther than every in-window candidate; a new record is a reported candidate strictly inside the window |
| HittableLists.ScanFindsClosest | src/hittable_list.h:19-32 | the list reports a hit iff some child has a candidate strictly inside `(t_min, t_max)`, and then the record is such a candidate with the smallest `t` |
| HittableLists.HittableList.constructor | src/hittable_list.h:12 | the empty list |
| HittableLists.HittableList.Single | src/hittable_list.h:13 | the list holding exactly the given object |
| HittableLists.HittableList.Clear | src/hittable_list.h:16 | the list becomes empty |
| HittableLists.HittableList.Add | src/hittable_list.h:17 | the object is appended; earlier entries are unchanged |
| HittableLists.HittableList.Hit | src/hittable_list.h:19-32 | the result and record are the scan's; the bound starts at `t_max` and never grows; accepted `t`s strictly decrease and lie in the window, and the last one is `rec.t`; `rec` is untouched when nothing hits |
| Spheres.MakeSphere | src/sphere.h:9 | the stored radius is `max(0, radius)`: never negative, the given one when non-negative |
| Spheres.SelectRoot | src/sphere.h:12-29 | no root for a negative discriminant; the near root whenever strictly inside the window; else the far root if strictly inside; an accepted root is always strictly inside |
| Spheres.Hit | src/sphere.h:11-36 | returns true iff `SelectRoot` gives a root; then `rec.t` is that root, `rec.p` the ray point and the normal the oriented `(p - center)/radius`; `rec` is untouched on every false return |
| Spheres.AcceptedRootOnSphere | src/sphere.h:12-33 | with an exact square root, the accepted point is at distance `radius` from the centre and the outward normal has unit length |
| Spheres.AcceptedRootIsNearest | src/sphere.h:20-29 | the accepted root is the near or far root and no in-window root is smaller |
| Spheres.RootOnSphere | src/sphere.h:12-25 | both roots of the half-b quadratic lie on the sphere |
| Spheres.UnitOutwardNormal | src/sphere.h:32 | `(p - center)/radius` has unit length for a point on the sphere |
| Spheres.ThroughCentreTakesNearRoot | src/sphere.h:22-29 | for a sphere of radius `rad` at the origin, the ray along `-z` from `(0,0,d)` with `d > rad` and window `(0, d+rad+1)` is accepted at the near root `d - rad`, not the far root `d + rad` |
| Quads.Intersect | src/quad.h:26-45 | rejects near-parallel rays, then a plane parameter outside the closed window, then coordinates outside `[0,1]`; a hit has `t` on the plane in the window, `p = r.at(t)` and both coordinates in `[0,1]` |
| Quads.Quad.constructor | src/quad.h:7-14 | caches `normal = n/|n|`, `D = normal.Q`, `w = n/(n.n)` for `n = u x v`, and the bounding box of the corners |
| Quads.Quad.SetBoundingBox | src/quad.h:16-20 | the box is the union of the two diagonal boxes; the geometry is unchanged |
| Quads.CornerBox | src/quad.h:16-20 | all four corners of the parallelogram lie in the bounding box |
| Quads.Quad.IsInterior | src/quad.h:56-66 | accepts iff `alpha` and `beta` are in the closed `[0,1]`, and only then writes `rec.u`, `rec.v` |
| Quads.Quad.Hit | src/quad.h:26-54 | returns true iff `Intersect` accepts; then `t`, `p`, `mat`, `u`, `v` and the oriented normal are written; `rec` is untouched on every false return |
| Quads.HitOnPlane | src/quad.h:32-38 | the accepted point satisfies `normal.p == D`, so `p - Q` is orthogonal to the normal |
| Quads.AsWrittenAlphaZero | src/quad.h:40 | `w . (p x w)` is 0 for every point |
| Quads.AsWrittenIgnoresAlpha | src/quad.h:40-45 | as written the interior test reduces to `beta` in `[0,1]`, and every hit has `alpha == 0` |
| Quads.AsWrittenAcceptsStrip | src/quad.h:38-45 | a plane point `Q + a*u + b*v` with `b` in `[0,1]` is accepted as written for every `a`; with the intended alpha only for `a` in `[0,1]` |
| Quads.UnitSquareCached | src/quad.h:9-12 | the unit square's fields are those its constructor caches |
| Quads.DownRayMeetsPlane | src/quad.h:27-39 | the ray down from `(a, b, 1)` meets the unit square's plane at `t = 1`, at coordinates `(a, b)` |
| Quads.IntendedCoordinates | src/quad.h:39-41 | with `w . (p x v)`, alpha and beta recover the coordinates of `p = Q + a*u + b*v` |
| Quads.IntendedInteriorIsParallelogram | src/quad.h:56-61 | with the intended alpha the interior test holds iff the point lies in the parallelogram |
| Perlin.Identity | src/perlin.h:31-32 | `p[i] == i` for every index |
| Perlin.Swap | src/perlin.h:40-42 | the three assignments through `temp` exchange two entries and leave the rest |
| Perlin.SwapMultiset | src/perlin.h:40-42 | a swap keeps the multiset of entries |
| Perlin.ShuffleFromKeeps | src/perlin.h:37-44 | the shuffle steps keep length and multiset and leave indices above `i` alone |
| Perlin.PermutationBounds | src/perlin.h:21 | a permutation of `0..n-1` has length `n`, entries in `[0,n)` and every value present |
| Perlin.ShuffleIsPermutation | src/perlin.h:30-35 | shuffling `0..n-1` gives a permutation of `0..n-1` |
| Perlin.Permute | src/perlin.h:37-44 | the loop from `n-1` down to 1 computes the specified shuffle, keeps the multiset and leaves indices from `n` on untouched |
| Perlin.GeneratePerm | src/perlin.h:30-35 | fills `0..255` and permutes: the table is the shuffle of the identity and a permutation of `0..255` |
| Perlin.Trunc | src/perlin.h:17-19 | `int(x)` truncates toward zero, negative values included |
| Perlin.Mask255 | src/perlin.h:17-19 | `v & 255` is in `[0,255]` and congruent to `v` modulo 256, for negative `v` too |
| Perlin.Xor3 | src/perlin.h:21 | the XOR of three entries in `[0,255]` is in `[0,255]` |
| Perlin.Perlin.constructor | src/perlin.h:7-14 | all 256 random values are written and each table is the shuffle its draws determine, a permutation of `0..255` |
| Perlin.Perlin.Index | src/perlin.h:16-21 | the lookup index is in `[0,255]` for every point |
| Perlin.Perlin.Noise | src/perlin.h:16-22 | the result is an entry of the random table |
| Images.Clamp | src/rt_stb_image.h:88-92 | `min` below, `max-1` above, `x` otherwise; within `[min, max]` the result is `max` iff `x == max` |
| Images.IntendedClamp | src/rt_stb_image.h:88-92 | the clamp into `[min, max)`, identity exactly on that range |
| Images.FloatToByte | src/rt_stb_image.h:94-98 | 0 up to 0, 255 from 1 on, else the integer part of `value*256`, always in `[0,255]` |
| Images.FloatToByteMonotone | src/rt_stb_image.h:94-98 | a larger value never gives a smaller byte |
| Images.Bytes | src/rt_stb_image.h:100-110 | one byte per float, each the `float_to_byte` of the float at the same index |
| Images.PixelInside | src/rt_stb_image.h:74-76 | a pixel with in-range row and column lies wholly within the `width*height*3` bytes |
| Images.PixelOffsetInRange | src/rt_stb_image.h:74-76 | for `0 <= x < width`, `0 <= y < height` the offset and its three bytes are inside the data |
| Images.PixelOffsetPastEnd | src/rt_stb_image.h:74-76 | `pixel_data(width, height-1)` starts exactly at the end of the data |
| Images.IntendedPixelOffsetInRange | src/rt_stb_image.h:74-76 | with the intended clamp every `(x, y)` addresses three bytes inside the data |
| Images.RtImage.constructor | src/rt_stb_image.h:17 | no data and zero dimensions (the member initialisers at src/rt_stb_image.h:80-86) |
| Images.RtImage.Load | src/rt_stb_image.h:51-63 | on success stores the floats and dimensions, sets the scanline length and rebuilds the bytes; on failure the float data becomes null and nothing else changes |
| Images.RtImage.ConvertToBytes | src/rt_stb_image.h:100-110 | a fresh buffer of `width*height*3` bytes, each the `float_to_byte` of the matching float |
| Images.RtImage.Width | src/rt_stb_image.h:65 | 0 without float data, the stored width otherwise |
| Images.RtImage.Height | src/rt_stb_image.h:66 | 0 without float data, the stored height otherwise |
| Images.RtImage.PixelData | src/rt_stb_image.h:68-77 | magenta `{255, 0, 255}` without byte data, otherwise the offset of the clamped pixel |

## Left out

- Bounds.IntendedAcceptsComplete: completeness is proved only for a ray with an in-window point strictly inside the box. A grazing ray whose only points in the closed box lie on a face or edge can be rejected even with the `x`, `y`, `z` slabs, because a window that shrinks to a single point counts as empty (`max <= min`); Bounds.IntendedRejectsGrazing exhibits such a ray.
- Bounds.Hit: requires every direction component to be nonzero. `1.0 / 0` is an IEEE infinity, which has no counterpart in `real`.
- Spheres.Hit: requires a nonzero direction and a positive radius. A radius of 0, allowed by the constructor's clamp, divides by zero for the normal.
- Spheres.SelectRoot: requires a nonzero direction, because `a == 0` divides by zero.
- Quads.Quad.constructor: requires `u x v` nonzero with a nonzero square root of its length. A degenerate quad gives NaNs in the C++.
- Perlin.Trunc: does not model the 32-bit overflow of `int(4*p)`, which is undefined behaviour in C++ for very large coordinates.
- Images.RtImage.ConvertToBytes: does not model the 32-bit overflow of `width*height*3`.
- Images.RtImage.Load: `stbi_loadf` is foreign code and is given as a result value. A failure is assumed to leave the dimensions unchanged.
- Images.FloatToByte: single-precision float arithmetic is modelled as exact.
- HittableLists.HittableList.Hit: children are modelled only by their candidate hits. Each is assumed to answer with its smallest candidate strictly inside the window; the dynamic dispatch to a child's own `hit` is not modelled. A quad child tests its plane parameter against the closed window (src/quad.h:34), so as written it can answer at `t == closest_so_far`; the model assumes every child answers strictly inside the window. The C++ reuses one `temp_rec` for all children, and a child's hit writes only some of its fields (a sphere hit after a quad hit keeps the quad's `u`, `v` and `mat`); here each child answers with a whole record, so that carry-over is not modelled.
- Floating-point rounding throughout: all arithmetic is exact, and `std::sqrt`, `std::fabs` and `unit_vector` are exact operations or the `sqrt` parameter.
- Random number generation: `random_double` and `random_int` are replaced by the values they return.
- The directory-search constructor of `rt_image`, its destructor and the freeing of buffers: these are I/O and memory management. Neither buffer is freed when a second `load` replaces it: `fdata` is overwritten (src/rt_stb_image.h:56) and the byte buffer is rebuilt, while `STBI_FREE` runs only in the destructor; the model simply replaces both.
- `aabb()` and `aabb(aabb, aabb)`: these are not defined in aabb.h. The quad's bounding box uses `Bounds.Enclose` as the assumed axis-wise union.
- The override signatures: the `hit` overrides in sphere.h and hittable_list.h do not match the virtual in hittable.h. Each `hit` is modelled on its own, without a common interface.
- `hit_record` fields: `u`, `v` and `mat`, written by quad.h, are not declared in hittable.h; they are added to the record here.
- main.cc, texture.h and constants.h: scene assembly, a colour constant and degree conversion, with no logic of the intersection layer.
- The unit-square counterexample for the quad: this is stated for an arbitrary ray through the plane (`Quads.AsWrittenAcceptsStrip`) plus the facts `Quads.DownRayMeetsPlane` and `Quads.UnitSquareCached`, which together meet its requirements for `a = 1.5`, `b = 0.5`. The full `Intersect` evaluation on literal inputs is not spelled out.

## Findings

| source | as written | input that shows it | evidently intended | confidence | as-written member | corrected member |
|---|---|---|---|---|---|---|
| src/aabb.h:21-25 | `axis_interval(0)` returns `z`, so the slab test examines `z, y, z` and never `x` | box `x in [10,11]`, `y, z in [0,1]`; ray from `(0.5,0.5,0.5)` along `(1,1,1)`, window `(-0.1, 0.1)`: accepted although no point in the window is in the box | `axis_interval(0)` returns `x`; the test is then sound, and complete for rays with an in-window point strictly inside the box | not executed | Bounds.AsWrittenAcceptsMiss | Bounds.IntendedAcceptsSound |
| src/quad.h:40 | `alpha = dot(w, cross(p, w))`, identically 0, so only `beta` is tested | unit square, ray down from `(1.5, 0.5, 1)`, window `[0, 10]`: the point `(1.5, 0.5, 0)` outside the square is reported hit | `alpha = dot(w, cross(p, v))`, the coordinate along `u` | not executed | Quads.AsWrittenAcceptsStrip | Quads.IntendedInteriorIsParallelogram |
| src/rt_stb_image.h:88-92 | `clamp` returns `x` for `x == max`, so `pixel_data` can address one pixel past a row or the data | `pixel_data(width, height-1)` starts at offset `width*height*3`, the end of the data | clamp into `[min, max)`: `max-1` from `max` on | not executed | Images.PixelOffsetPastEnd | Images.IntendedPixelOffsetInRange |
