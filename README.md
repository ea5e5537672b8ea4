# Moer-Rust renderer core, modelled in Dafny

This project models the discrete machinery of the Moer-Rust path tracer. The floating-point shading and geometry around that machinery are not modelled. The project covers:

- the light-selection distribution: a prefix-sum CDF, a binary-search draw and a pdf lookup;
- axis-aligned boxes and the ray record;
- the three spatial indices, BVH, octree and linear scan, over primitives whose intersection test narrows `ray.t_max`;
- scene wiring: shape attachment, light classification and a uniform light distribution;
- the control flow of the normal, path, volumetric-path and Whitted integrators;
- medium interfaces and interactions;
- the heterogeneous grid-density medium;
- the stable quadratic solver.

Floats are Dafny `real`. The empty box's `+∞` corner is an extended real, `ExtReal.Ext`.

Collaborators that are not in the model enter as functions passed in as parameters:

- primitive hit tests;
- BSDF samples and evaluations;
- light samples and emission;
- `sample_interaction_illumination`;
- sampler draws;
- the medium-to-world transform;
- `Bounds3::intersect_t` and `Bounds3::sub_bounds`;
- `lerp`;
- the square root.

A sampler-driven function is indexed by the bounce it belongs to, so the draw stream is fixed in advance.

Files are modelled as follows:

- Code that mutates becomes imperative Dafny. The ray, the indices, the scene and the distribution are classes with `modifies` frames.
  - Each loop is a `method` proved equal to a specification function.
  - The specification function is about one iteration (`PathStep`, `VolStep`, `WhittedStepOf`, `TrackFrom`), or it is a folding function (`Scan`, `Traverse`, `OTraverse`, `Cumulative`).
- Pure code is written as functions, and lemmas are proved about them.

The central result concerns the primitive-hit oracle, in which each successful test narrows `t_max`. Under that oracle, the source's "the last success wins" rule is the same as "the nearest hit in the window wins".

- The rule is proved for the linear scan and for the BVH traversal after a build.
- For the octree it is proved under a covering assumption on the sub-boxes.

## Model

| member | source | states |
|---|---|---|
| Distributions.Cumulative | src/core_layer/distribution.rs:11-17 | The unscaled table has one more entry than the data. It starts at 0, and each entry adds the next item's weight to the previous one. |
| Distributions.CumulativeSorted | src/core_layer/distribution.rs:14-17 | Non-negative weights give a non-decreasing table. |
| Distributions.CumulativeStep | src/core_layer/distribution.rs:14-17 | With non-negative weights, an entry is at most every later entry. |
| Distributions.Scaled | src/core_layer/distribution.rs:19 | Scaling keeps the length and multiplies every entry by the factor. |
| Distributions.ScaledSorted | src/core_layer/distribution.rs:19 | Scaling by a positive factor keeps the table non-decreasing. |
| Distributions.NormalisedShape | src/core_layer/distribution.rs:11-19 | With non-negative weights and a positive total, the normalised table has length n+1. It starts at 0, ends at exactly 1 and is non-decreasing. |
| Distributions.MulRecip | src/core_layer/distribution.rs:18-19 | Multiplying by `1/total` is dividing by the total. |
| Distributions.BucketWidth | src/core_layer/distribution.rs:14-19 | Bucket i of the normalised table has width `w(data[i]) / total`. |
| Distributions.Telescope | src/core_layer/distribution.rs:29 | The bucket widths of any table sum to its last entry minus its first. |
| Distributions.WidthsSumToOne | src/core_layer/distribution.rs:14-19 | The widths of a normalised table sum to 1. |
| Distributions.BinarySearchBy | src/core_layer/distribution.rs:27 | On a sorted table the search returns either an index holding the probe or the sorted insertion point, with smaller entries before it and larger ones from it on. |
| Distributions.Position | src/core_layer/distribution.rs:34 | The result is present iff the item occurs. It is then the first index holding the item. |
| Distributions.PrefixSums | src/core_layer/distribution.rs:11-17 | The push loop builds exactly the cumulative table. |
| Distributions.ScaleAll | src/core_layer/distribution.rs:18-19 | The in-place loop multiplies every entry by the inverse total. |
| Distributions.Distribution.constructor | src/core_layer/distribution.rs:10-24 | The data is stored unchanged and in order. The table is the normalised cumulative table. |
| Distributions.Distribution.Sample | src/core_layer/distribution.rs:26-31 | For `cdf[0] < u <= cdf[last]`, some bucket k satisfies `cdf[k] <= u <= cdf[k+1]`. The item returned is `data[k]`, and pdf is the bucket's width. u is either interior to the bucket or equal to its upper end. |
| Distributions.Distribution.Pdf | src/core_layer/distribution.rs:33-40 | The result is 0 for an absent item. Otherwise it is the width of the bucket of the item's first occurrence. |
| Quadratic.SolveQuadratic | src/core_layer/function.rs:1-20 | The result is None iff the discriminant is negative or a = 0. Otherwise the pair is ordered. |
| Quadratic.SolveQuadraticRoots | src/core_layer/function.rs:2-19 | Both returned values solve `a t² + b t + c = 0`, and their product is c/a. A zero discriminant gives the double root `-b/(2a)` twice. |
| Quadratic.QNonZero | src/core_layer/function.rs:8-12 | For a positive discriminant, the stable q is non-zero, so `c/q` is defined. |
| Quadratic.QIdentity | src/core_layer/function.rs:8-12 | q satisfies `q² + a c = -b q`. |
| Quadratic.RootIffSquare | src/core_layer/function.rs:2 | When a ≠ 0, t is a root iff `(2at + b)²` equals the discriminant. |
| Quadratic.DoubleRoot | src/core_layer/function.rs:5-6 | When the discriminant is 0, `-0.5 b / a` is a root equal to `-b/(2a)`, and its square is c/a. |
| Quadratic.DistinctRoots | src/core_layer/function.rs:8-14 | When the discriminant is positive, q/a and c/q are both roots and their product is c/a. |
| Quadratic.RootOfQOverA | src/core_layer/function.rs:13 | q/a is a root whenever q satisfies the identity. |
| Quadratic.RootOfCOverQ | src/core_layer/function.rs:14 | c/q is a root whenever q satisfies the identity. |
| Quadratic.SolveQuadraticComplete | src/core_layer/function.rs:1-20 | Every real root of an equation with a ≠ 0 is one of the two returned values. |
| Quadratic.RootForcesNonNegative | src/core_layer/function.rs:3-4 | A real root exists only if the discriminant is non-negative, so None loses no root. |
| Quadratic.RootIsOneOf | src/core_layer/function.rs:13-14 | When a ≠ 0 and x0, x1 satisfy `a(x0 + x1) = -b` and `a·x0·x1 = c`, every root is x0 or x1. |
| Quadratic.VietaSum | src/core_layer/function.rs:5-19 | The two returned values sum to -b/a. |
| Quadratic.VietaRelations | src/core_layer/function.rs:5-19 | For a ≠ 0 and a non-negative discriminant the result is present, and its pair satisfies `a(x0 + x1) = -b` and `a·x0·x1 = c`. |
| ExtReal.Min | src/function_layer/bounds3.rs:96 | The result is one of the arguments and at most both. |
| ExtReal.Max | src/function_layer/bounds3.rs:97 | The result is one of the arguments and at least both. |
| ExtReal.Mul | src/function_layer/bounds3.rs:83-84 | An IEEE product. It is undefined (NaN) exactly for 0 × ∞, and exact on finite values. |
| ExtReal.Recip | src/function_layer/medium/grid_density.rs:40 | `1/x` is exact for x ≠ 0 and has the sign of x. It is never 0. |
| Vectors.RecipVec | src/function_layer/bounds3.rs:81-84 | No component of a ray's cached inverse direction is 0. |
| ExtReal.LeTotal | src/function_layer/bounds3.rs:88-89 | The extended order is total. |
| ExtReal.LeTrans | src/function_layer/bounds3.rs:88-89 | The extended order is transitive. |
| ExtReal.LeAntisym | src/function_layer/bounds3.rs:88-89 | The extended order is antisymmetric. |
| Bounds.New | src/function_layer/bounds3.rs:17-21 | The box is finite and ordered on every axis and contains both points. It is the least box containing them. |
| Bounds.Default | src/function_layer/bounds3.rs:120-126 | The default box `(+∞, f32::MIN)` is well formed and contains no point. |
| Bounds.Empty | src/function_layer/bounds3.rs:22-24 | `empty` equals the default box. |
| Bounds.MaxExtent | src/function_layer/bounds3.rs:27-30 | The chosen axis has a maximal extent. X needs strict dominance over both others, and Y needs strict dominance over Z, so ties go later. |
| Bounds.CentroidAxis | src/function_layer/bounds3.rs:106-112 | On a finite axis the result is the midpoint of the box. |
| Bounds.UnionPoint | src/function_layer/bounds3.rs:100-105 | The result contains the box and the point, and it is the least such box. |
| Bounds.Expand | src/function_layer/bounds3.rs:37-40 | The result is `union_point`, so it contains the old box and the point. |
| Bounds.Intersect | src/function_layer/bounds3.rs:42-47 | A point is inside the result iff it is inside both boxes. |
| Bounds.Offset | src/function_layer/bounds3.rs:49-55 | `p_min` maps to 0, and `p_max` maps to 1 on axes with positive extent. A flat axis is only translated. A point inside the box maps into [0, 1] on the divided axes. |
| Bounds.OffsetBounds | src/function_layer/bounds3.rs:51-53 | A coordinate within a positive-extent axis maps into [0, 1]. |
| Bounds.OffsetCorners | src/function_layer/bounds3.rs:51-53 | The corners of an axis map to 0 and 1. |
| Bounds.UnionBounds | src/function_layer/bounds3.rs:94-99 | The union contains both boxes and is the least box that does. |
| Bounds.ArrBounds | src/function_layer/bounds3.rs:114-116 | The fold contains every box and is the default box for an empty list. |
| Bounds.UnionCommutative | src/function_layer/bounds3.rs:94-99 | The union is commutative. |
| Bounds.UnionAssociative | src/function_layer/bounds3.rs:94-99 | The union is associative. |
| Bounds.DefaultIsUnionIdentity | src/function_layer/bounds3.rs:120-126 | The default box is a left identity of the union for boxes whose max corner is at least `f32::MIN`. |
| Bounds.ArrBoundsSingleton | src/function_layer/bounds3.rs:114-116 | Folding one such box returns it. |
| Bounds.ArrBoundsMinAttained | src/function_layer/bounds3.rs:114-116 | Each min coordinate of the fold is +∞ or is some input's coordinate. |
| Bounds.ArrBoundsMaxAttained | src/function_layer/bounds3.rs:114-116 | Each max coordinate is `f32::MIN` or is some input's coordinate. |
| Bounds.ArrBoundsPermutation | src/function_layer/bounds3.rs:114-116 | Reordering the list does not change the fold. |
| Bounds.ArrBoundsCornerBelow | src/function_layer/bounds3.rs:114-116 | Reordered lists have corner coordinates bounding each other. |
| Bounds.ArrBoundsMaxAtLeastF32Min | src/function_layer/bounds3.rs:123-124 | Every max coordinate of a fold is at least `f32::MIN`. |
| Bounds.OverlapsSymmetric | src/function_layer/bounds3.rs:57-62 | `overlaps` is symmetric. |
| Bounds.OverlapsIffCommonPoint | src/function_layer/bounds3.rs:57-68 | Two ordered boxes overlap iff some point is `inside` both, so touching faces count. |
| Bounds.CornersInside | src/function_layer/bounds3.rs:64-68 | `inside` is closed: both corners of a finite ordered box are inside it. |
| Bounds.NearFarMonotone | src/function_layer/bounds3.rs:82-91 | The running near value only grows and the far value only shrinks over the axes. |
| Bounds.IntersectP | src/function_layer/bounds3.rs:79-92 | The early-exit loop over the three slabs returns the slab test on the unchanged ray. |
| Bounds.SlabTimes | src/function_layer/bounds3.rs:83-87 | The entry and exit parameters of slab i are those of the slab function, swapped when `inv_dir[i] < 0`. |
| Bounds.DefaultMisses | src/function_layer/bounds3.rs:79-92 | No ray with a non-zero inverse direction passes the slab test of the default box (`p_min = +∞`, `p_max = f32::MIN`, bounds3.rs:120-127). |
| Bounds.CrossedSlabsMiss | src/function_layer/bounds3.rs:90 | Once `t_near > t_far` after some slab, the full test fails, so the early `false` is right. |
| Bounds.SlabHitIffCommonParameter | src/function_layer/bounds3.rs:69-93 | The slab test holds iff some parameter in `[t_min, t_max]` lies in every axis slab, the slab being swapped when `inv_dir < 0`. |
| Bounds.SlabHitGivesParameter | src/function_layer/bounds3.rs:79-92 | When the test passes, the final `t_near` is finite, lies in `[t_min, t_max]` and lies in all three slabs. |
| Bounds.ParameterGivesSlabHit | src/function_layer/bounds3.rs:79-92 | A parameter in `[t_min, t_max]` that lies in all three slabs makes the test pass. |
| Bounds.NearFarBracket | src/function_layer/bounds3.rs:82-91 | A parameter inside the first k slabs lies between the running near and far values. |
| Rays.PointAt | src/function_layer/ray.rs:46-50 | `at(t) - origin = t · direction`, and `at(0)` is the origin. |
| Rays.Ray.constructor | src/function_layer/ray.rs:30-35 | A new ray has t = 0, `t_min = 1e-4`, `t_max = f32::MAX`, no differential and no medium. |
| Rays.Ray.FromO2D | src/function_layer/ray.rs:37-44 | `t_min = 1e-4`, `t_max` is the distance minus `1e-4`, and the direction is the normalised offset when the distance is positive. |
| Rays.Ray.At | src/function_layer/ray.rs:46-50 | The point is `PointAt` of the ray's state. |
| Rays.Ray.ChangeDir | src/function_layer/ray.rs:52-57 | Only the direction changes. |
| Rays.Ray.Reset | src/function_layer/ray.rs:30-35 | Only `t_min` and `t_max` change, back to their values in `new`. |
| Acceleration.BoundsOf | src/function_layer/acceleration/bvh.rs:70 | The box list has one entry per shape, in order. |
| Acceleration.BoundsOfAppend | src/function_layer/acceleration/bvh.rs:70-71 | The boxes of a concatenation are the two box lists concatenated. |
| Acceleration.BoundsOfPermutation | src/function_layer/acceleration/bvh.rs:70-71 | Reordered shapes give reordered box lists. |
| Acceleration.Scan | src/function_layer/acceleration/linear.rs:25-32 | Scanning a list changes only `t_max`. A winner is a listed shape, and `t_max` ends at its hit distance. With no winner the ray is unchanged. |
| Acceleration.ScanNarrows | src/function_layer/acceleration/linear.rs:26-31 | With a narrowing oracle, `t_max` never grows. |
| Acceleration.ScanAppend | src/function_layer/acceleration/bvh.rs:111-113 | Scanning a concatenation is scanning the first part, then the second with the narrowed ray, where the later winner wins. |
| Acceleration.ScanNearest | src/function_layer/acceleration/linear.rs:25-32 | With narrowing, nothing wins iff no shape hits in the window. Otherwise the winner is the nearest hit, and the earliest in the list of equally near ones, because a tie at the current `t_max` does not pass the strict window test. |
| Acceleration.ScanMissesOutsideBox | src/function_layer/acceleration/bvh.rs:93-95 | If the box around every shape is missed, scanning them finds nothing. |
| Acceleration.ScanShapes | src/function_layer/acceleration/linear.rs:25-32 | The loop that lets each successful test overwrite the result computes `Scan`. |
| Acceleration.GetIntersectAsWritten | src/function_layer/acceleration/acceleration.rs:16-24 | As the source destructures the tuple: None iff the query misses. The shape is looked up by the primitive id and the geometry id is passed as the primitive id. Out of bounds iff the primitive id is past the list. |
| Acceleration.GetIntersect | src/function_layer/acceleration/acceleration.rs:16-24 | As intended: None iff the query misses. The record has the final `t_max` as distance, the shape looked up by geometry id, and the primitive id. |
| Acceleration.GetIntersectFillsFromHitShape | src/function_layer/acceleration/acceleration.rs:19-22 | When geometry ids are list indices, the record is filled from the shape that hit, with its primitive id. |
| Acceleration.AsWrittenFillsFromWrongShape | src/function_layer/acceleration/acceleration.rs:19-22 | Two shapes where the second hits with primitive 0: the code as written fills the record from the first shape. |
| Acceleration.AsWrittenIndexesPastList | src/function_layer/acceleration/acceleration.rs:19-22 | One mesh hit on primitive 3: the code as written indexes past the shape list. |
| Linear.LinearAccel.constructor | src/function_layer/acceleration/linear.rs:8-12 | A new index has no shapes and the default box. |
| Linear.LinearAccel.AttachShape | src/function_layer/acceleration/acceleration.rs:27-29 | The shape is appended, and nothing else changes. |
| Linear.LinearAccel.RayIntersect | src/function_layer/acceleration/linear.rs:24-33 | The result is the last successful shape's query tuple in attach order, and the ray is left narrowed. |
| Linear.LinearAccel.GetIntersect | src/function_layer/acceleration/acceleration.rs:16-24 | The record is built with the corrected lookup (see ## Findings) from the scan's winner and final `t_max`, and the ray is left narrowed as the scan leaves it. |
| Linear.LinearFindsNearest | src/function_layer/acceleration/linear.rs:25-32 | The linear scan finds the nearest hit in the window, or nothing iff no shape hits there. |
| Bvh.Insert | src/function_layer/acceleration/bvh.rs:79-83 | Insertion keeps the multiset and sortedness by centroid key. |
| Bvh.InsertFront | src/function_layer/acceleration/bvh.rs:79-83 | A key no larger than the head keeps the list sorted when put in front. |
| Bvh.InsertBehind | src/function_layer/acceleration/bvh.rs:79-83 | A larger key inserted behind the head keeps the list sorted. |
| Bvh.SortByKey | src/function_layer/acceleration/bvh.rs:79-83 | The result is a sorted permutation. |
| Bvh.SelectNthUnstableBy | src/function_layer/acceleration/bvh.rs:79-83 | The result is a permutation whose n-th element separates smaller keys from larger ones. |
| Bvh.SplitShrinks | src/function_layer/acceleration/bvh.rs:77-85 | A range of more than 8 splits at `b + (e-b)/2 + 1` into two non-empty, strictly smaller ranges. |
| Bvh.WellBuiltFrame | src/function_layer/acceleration/bvh.rs:84-85 | A subtree stays well built when positions outside its range change. |
| Bvh.NthPartitions | src/function_layer/acceleration/bvh.rs:77-83 | Selecting the element at `mid` of `[b, e)` partitions the range at `b + mid + 1`. |
| Bvh.PartitionPermuted | src/function_layer/acceleration/bvh.rs:84-85 | Permuting each side independently keeps the partition. |
| Bvh.SpliceMultiset | src/function_layer/acceleration/bvh.rs:79 | Reordering only `shapes[b..e]` reorders the whole list. |
| Bvh.ArrBoundsOfPermutation | src/function_layer/acceleration/bvh.rs:70-71 | Every node's box, the union over the whole list, does not depend on its order. |
| Bvh.WellBuiltLeavesIn | src/function_layer/acceleration/bvh.rs:72-76 | The leaves of a build over a non-empty range read only valid positions. |
| Bvh.BuiltLeavesIn | src/function_layer/acceleration/bvh.rs:53-76 | The root built over the whole list has only valid leaves, also when the list is empty and the root is the single empty leaf with the default box. |
| Bvh.Traverse | src/function_layer/acceleration/bvh.rs:92-114 | Traversal changes only `t_max`, leaves the ray unchanged when nothing wins, and finds nothing over an empty list. |
| Bvh.MissedBoxIsScan | src/function_layer/acceleration/bvh.rs:93-95 | A failed box test answers exactly as scanning the range would. |
| Bvh.TraverseIsScan | src/function_layer/acceleration/bvh.rs:92-114 | After a build, traversing a node equals scanning its range in order, so leaves tile the range without overlap. |
| Bvh.InteriorIsScan | src/function_layer/acceleration/bvh.rs:111-113 | Scanning `[b, m)` and then `[m, e)`, with the later result preferred, equals scanning `[b, e)`. |
| Bvh.InteriorTraverse | src/function_layer/acceleration/bvh.rs:93-113 | At an interior node whose box test passes, traversal visits left and then right with the ray the left visit left, and prefers the right result. |
| Bvh.InteriorTraverseIsScan | src/function_layer/acceleration/bvh.rs:111-113 | At a built interior node whose box test passes, traversal equals scanning the node's range. |
| Bvh.SelectedSplice | src/function_layer/acceleration/bvh.rs:79-83 | Writing the selected slice back changes only `[b, e)` and partitions it. |
| Bvh.LeafBuilt | src/function_layer/acceleration/bvh.rs:72-76 | A range of at most 8 shapes becomes a leaf with `first = b` and `count = e - b`, built without moving any shape. |
| Bvh.InteriorBuilt | src/function_layer/acceleration/bvh.rs:77-88 | Two well-built halves of a partitioned range make a well-built interior node. |
| Bvh.TwoCalls | src/function_layer/acceleration/bvh.rs:84-85 | The two recursive calls together permute only `[b, e)`, and the second keeps the left half. |
| Bvh.BvhAccel.constructor | src/function_layer/acceleration/bvh.rs:29-33 | A new index has no root, no shapes and the default box. |
| Bvh.BvhAccel.AttachShape | src/function_layer/acceleration/acceleration.rs:27-29 | Appends the shape, and nothing else changes. |
| Bvh.BvhAccel.PartitionRange | src/function_layer/acceleration/bvh.rs:77-83 | `select_nth_unstable_by` on `shapes[b..e]` permutes only that range and leaves it partitioned at `b + mid + 1`. Root and box are unchanged. |
| Bvh.BvhAccel.RecursivelyBuild | src/function_layer/acceleration/bvh.rs:68-89 | Permutes only `shapes[b..e]`. The node is a leaf for at most 8 shapes with `first = b` and `count = e - b`, and otherwise splits a partitioned range. Every node's box is the union over the whole list. |
| Bvh.BvhAccel.Build | src/function_layer/acceleration/bvh.rs:53-61 | Permutes the shapes, and the root is well built over `[0, n)` with only valid leaves, also for an empty list. `acc.bounds` is the root's box. |
| Bvh.BvhAccel.GetIntersection | src/function_layer/acceleration/bvh.rs:92-114 | Computes `Traverse` and leaves the ray as it does. A leaf reached after a passed box test has a valid `first_shape_offset`. |
| Bvh.BvhAccel.RayIntersect | src/function_layer/acceleration/bvh.rs:44-51 | None without a root. Otherwise the traversal's `(geometry id, prim id, u, v)`, with the ray left as the traversal leaves it. Over an empty list the result is None and the ray is unchanged. |
| Bvh.BvhAccel.GetIntersect | src/function_layer/acceleration/acceleration.rs:16-24 | The record is built with the corrected lookup (see ## Findings) from the traversal's winner and final `t_max`, and the ray is left narrowed as the traversal leaves it. Without a root, or over an empty list, the result is a miss and the ray is unchanged. |
| Bvh.BuiltBvhFindsNearest | src/function_layer/acceleration/bvh.rs:92-114 | A built BVH finds the nearest hit in the window, or nothing iff no shape hits there. |
| Octrees.Pick | src/function_layer/acceleration/octree.rs:57-58 | Reads the shapes at the buffer's indices, in buffer order. |
| Octrees.Range | src/function_layer/acceleration/octree.rs:41 | The root buffer is `0..n` in order. |
| Octrees.Filter | src/function_layer/acceleration/octree.rs:100-107 | The child buffer is a valid index list no longer than the parent's. |
| Octrees.FilterMembers | src/function_layer/acceleration/octree.rs:100-107 | An index is in child buffer i iff it is in the parent buffer and its shape overlaps sub-box i. |
| Octrees.BuildNode | src/function_layer/acceleration/octree.rs:80-114 | There is no node iff the buffer is empty. |
| Octrees.BuildShape | src/function_layer/acceleration/octree.rs:86-92 | Built nodes are valid and at most `MAX_DEPTH + 1 - depth` levels high, with interior nodes only down to depth 4. Interior nodes have 8 child slots. |
| Octrees.TraverseIsScan | src/function_layer/acceleration/octree.rs:52-79 | Traversal equals scanning the flattened leaves in child order, with the last non-None child result winning. |
| Octrees.ChildrenIsScan | src/function_layer/acceleration/octree.rs:69-78 | Visiting the first k children equals scanning their flattened lists. |
| Octrees.FlattenChildrenMembers | src/function_layer/acceleration/octree.rs:69-78 | A shape is in the children's flattening iff it is in some child's. |
| Octrees.BuildFlattenWithin | src/function_layer/acceleration/octree.rs:80-114 | Every shape reachable in a built node is one of its buffer's shapes. |
| Octrees.InteriorFlattenWithin | src/function_layer/acceleration/octree.rs:93-113 | At an interior node, a shape below some child belongs to the node's own buffer. |
| Octrees.ChildFlattenWithin | src/function_layer/acceleration/octree.rs:100-111 | A shape below child j, which is built from the buffer filtered by sub-box j, belongs to the parent's buffer. |
| Octrees.BuildChild | src/function_layer/acceleration/octree.rs:93-111 | Child j is built at depth+1 from sub-box j of the parameter box and its filtered buffer. |
| Octrees.PickFilter | src/function_layer/acceleration/octree.rs:100-107 | Filtering only drops shapes. |
| Octrees.BuildContained | src/function_layer/acceleration/octree.rs:82-85 | Each node's box is the union of its own buffer's boxes, so it contains every shape below it. |
| Octrees.BuildKeepsOverlapping | src/function_layer/acceleration/octree.rs:93-111 | When the sub-boxes cover the parameter box, a shape overlapping that box stays reachable. |
| Octrees.ChildInFlatten | src/function_layer/acceleration/octree.rs:69-78 | A child's shapes are in the flattening of any prefix that includes the child. |
| Octrees.ContainedOverlaps | src/function_layer/acceleration/octree.rs:102-103 | An ordered box overlaps every box containing it. |
| Octrees.RootHoldsAllShapes | src/function_layer/acceleration/octree.rs:35-44 | With covering sub-boxes, the root over `0..n` reaches exactly the attached shapes. |
| Octrees.OctreeFindsNearest | src/function_layer/acceleration/octree.rs:52-79 | With covering sub-boxes, the octree finds the nearest hit in the window, or nothing iff no shape hits there. |
| Octrees.ScanOfSameShapes | src/function_layer/acceleration/octree.rs:57-65 | Scanning any list with the same members gives a nearest winner. |
| Octrees.Octree.constructor | src/function_layer/acceleration/octree.rs:14-18 | A new octree has no root, no shapes and the default box. |
| Octrees.Octree.AttachShape | src/function_layer/acceleration/acceleration.rs:27-29 | Appends the shape, and nothing else changes. |
| Octrees.Octree.RecursivelyBuild | src/function_layer/acceleration/octree.rs:80-114 | The method computes `BuildNode`. |
| Octrees.Octree.BuildChildren | src/function_layer/acceleration/octree.rs:108-111 | Child i is the build of sub-box i with its filtered buffer, one level deeper, for each of the eight. |
| Octrees.Octree.FillBuffers | src/function_layer/acceleration/octree.rs:94-107 | Each of the 8 buffers holds the overlapping indices of its sub-box, in order. |
| Octrees.Octree.Build | src/function_layer/acceleration/octree.rs:35-44 | The root is the build over `0..n` at depth 0, and `acc.bounds` is its box. With no shapes the source panics, which is reported as a flag. |
| Octrees.Octree.GetIntersection | src/function_layer/acceleration/octree.rs:52-79 | Computes `OTraverse` and leaves the ray as it does. |
| Octrees.Octree.ScanLeaf | src/function_layer/acceleration/octree.rs:55-67 | The leaf loop computes the scan of its buffer's shapes. |
| Octrees.Octree.VisitChildren | src/function_layer/acceleration/octree.rs:69-74 | The collected child results hold the children's scan as their last present element. |
| Octrees.Octree.LastPresent | src/function_layer/acceleration/octree.rs:75-78 | The reverse loop returns the last present element. |
| Octrees.LastSomeNone | src/function_layer/acceleration/octree.rs:75-78 | The reverse scan finds nothing iff every child result is None. |
| Octrees.LastSomeLast | src/function_layer/acceleration/octree.rs:75-78 | A result found is some present child result, and every result after it is None. |
| Octrees.Octree.RayIntersect | src/function_layer/acceleration/octree.rs:29-33 | None without a root. Otherwise the traversal's result. |
| Octrees.Octree.GetIntersect | src/function_layer/acceleration/acceleration.rs:16-24 | The record is built with the corrected lookup (see ## Findings) from the traversal's winner and final `t_max`, and the ray is left as the traversal leaves it. Without a root the result is a miss and the ray is unchanged. |
| Media.NewInterface | src/function_layer/medium/medium.rs:121-130 | Inside is kept. A missing outside defaults to inside. |
| Media.IsMediumTransition | src/function_layer/medium/medium.rs:131-138 | A transition happens iff inside and outside differ, so two absent media or the same handle are not a transition. |
| Media.NewInteraction | src/function_layer/medium/medium.rs:56-67 | The interaction records the point, time, direction and phase. Error and normal are zero, and the medium is both inside and outside, so there is no transition. |
| Media.IsValid | src/function_layer/medium/medium.rs:68 | Valid iff a phase function is present. |
| Media.DefaultInteractionInvalid | src/function_layer/medium/medium.rs:41-53 | The default interaction is invalid and is not a transition. |
| Media.F | src/function_layer/medium/medium.rs:31-34 | Every channel is the phase value. |
| GridDensity.Resized | src/function_layer/medium/grid_density.rs:38-39 | The result has exactly n entries, keeps the input's prefix and pads with zeros. |
| GridDensity.MaxDensity | src/function_layer/medium/grid_density.rs:40 | The maximum is some sample and at least every sample. |
| GridDensity.NewGrid | src/function_layer/medium/grid_density.rs:27-53 | None (the panic) iff `nx·ny·nz = 0`. The grid otherwise holds the resized samples and `sigma_t` is the red channel of `sigma_a + sigma_s`. `inv_max_density` is `1/max` and the other fields are kept. |
| GridDensity.D | src/function_layer/medium/grid_density.rs:55-60 | The lookup is 0 if x ≥ nx, y ≥ ny or z ≥ nz. Otherwise it reads the flat entry `(z·ny + y)·nx + x`. |
| GridDensity.IndexInRange | src/function_layer/medium/grid_density.rs:59 | A cell inside the grid has a flat index below `nx·ny·nz`. |
| GridDensity.IndexDecodes | src/function_layer/medium/grid_density.rs:59 | The flat index gives back x, y and z by division and remainder. |
| GridDensity.IndexInjective | src/function_layer/medium/grid_density.rs:59 | Distinct cells read distinct entries. |
| GridDensity.DivMod | src/function_layer/medium/grid_density.rs:59 | `(q n + r) / n = q` and `(q n + r) % n = r` for `r < n`. |
| GridDensity.LatticeOf | src/function_layer/medium/grid_density.rs:63-74 | The offsets into the lattice cell, `p·n - 0.5` minus its floor, lie in [0, 1). |
| GridDensity.DensityZeroOutside | src/function_layer/medium/grid_density.rs:62-94 | When the lattice cell is outside the grid on some axis, all 8 neighbours read 0, and a lerp that keeps 0 gives density 0. |
| GridDensity.DensityBounded | src/function_layer/medium/grid_density.rs:62-94 | With a convex lerp and non-negative samples, the trilinear density lies between 0 and the largest sample. |
| GridDensity.ScaledByMajorant | src/function_layer/medium/grid_density.rs:40 | A density between 0 and the maximum has acceptance ratio `density · inv_max_density` in [0, 1]. |
| GridDensity.NewGridTrackable | src/function_layer/medium/grid_density.rs:37-40 | A built medium has a finite `inv_max_density` and a non-zero `sigma_t` iff some kept sample is positive and `sigma_a.r + sigma_s.r ≠ 0`. |
| GridDensity.SampleWithin | src/function_layer/medium/grid_density.rs:116-119 | A failed unit-box test on the world ray returns weight 1 and leaves `mi` untouched. |
| GridDensity.TrackOutcomes | src/function_layer/medium/grid_density.rs:120-139 | Tracking ends either with weight 1 and `mi` untouched, or with weight `sigma_s / sigma_t` and a valid interaction. That interaction lies in this medium, has a Henyey-Greenstein phase with asymmetry g, `wo = -direction` and the ray's time. |
| GridDensity.TrackMoreFuel | src/function_layer/medium/grid_density.rs:121-138 | Once tracking has ended within n steps, a larger bound gives the same result. |
| GridDensity.Sample | src/function_layer/medium/grid_density.rs:108-140 | The tracking loop returns what `SampleWithin` specifies: the free-flight step `t -= ln(1-u)·inv_max/sigma_t`, the exit at `t_far` and the acceptance test. |
| GridDensity.Track | src/function_layer/medium/grid_density.rs:120-139 | The tracking loop from `t_near` returns what `TrackFrom` specifies. |
| GridDensity.TrackStep | src/function_layer/medium/grid_density.rs:122-137 | One step moves t by the free-flight distance. It ends at `t >= t_far` with weight 1 or on acceptance with a scattering, and otherwise leaves the rest to the next step. |
| Scenes.Scene.FromJson | src/function_layer/scene.rs:23-59 | Scene shapes are attached in file order, followed by each area light's shape carrying its light. Build runs once and permutes them, and the root is well built. The scene is ready for queries and light draws, also with no shapes at all. `infinite_lights` is the last environment light. The distribution holds every other light in file order with weight 1. |
| Scenes.LastEnvironmentNone | src/function_layer/scene.rs:36-40 | `infinite_lights` is None iff no light is an environment light. |
| Scenes.LastEnvironmentSome | src/function_layer/scene.rs:36-40 | A present `infinite_lights` is an environment light, and no environment light comes after it in file order. |
| Scenes.AttachAll | src/function_layer/scene.rs:25-29 | Appends the scene shapes to the index in file order. |
| Scenes.ClassifyLights | src/function_layer/scene.rs:32-50 | The light loop appends each area light's shape to the index, keeps the last environment light, and registers every other light in order. |
| Scenes.NewAttached | src/function_layer/scene.rs:24-50 | A new index holds the scene shapes followed by the promoted area-light shapes. The environment light and the registered lights are as the loop leaves them. |
| Scenes.NewIndex | src/function_layer/scene.rs:24-53 | After `build`, the index holds a permutation of the attached shapes under a well-built root with only valid leaves. |
| Scenes.Scene.RayIntersect | src/function_layer/scene.rs:61-63 | Delegates to the index's `get_intersect`: the traversal's record, with the ray left as the traversal leaves it. A scene without shapes misses and leaves the ray unchanged. |
| Scenes.Scene.SampleLight | src/function_layer/scene.rs:65-67 | Returns a registered light with pdf `1/n`. Only the light distribution needs to be set up. |
| Scenes.TotalOfUnit | src/function_layer/scene.rs:51-52 | With weight 1.0 the total is the number of lights. |
| Scenes.UniformBuckets | src/function_layer/scene.rs:51-52 | Every bucket of the light distribution has width `1/n`. |
| Scenes.PromotedCarriesLight | src/function_layer/scene.rs:41-48 | Each promoted shape is an area light's shape, given that light. |
| Scenes.PromotedCount | src/function_layer/scene.rs:41-48 | There are as many promoted shapes as area lights. |
| Scenes.RegisteredLights | src/function_layer/scene.rs:36-50 | A light is in the distribution iff it is not an environment light. |
| Integrators.ConvertPdf | src/function_layer/integrator/integrator.rs:15-28 | Spot: pdf × d². Area: pdf × d² / \|n · dir\|, undefined (None) iff perpendicular. Environment: unchanged. The intersection is never read. |
| Integrators.ConvertPdfNonNegative | src/function_layer/integrator/integrator.rs:15-28 | A non-negative pdf stays non-negative. |
| Integrators.ConstructIntegrator | src/function_layer/integrator/integrator.rs:30-38 | Only the four names are accepted, and the result's name is the one given. Any other name panics (None). |
| Integrators.ConstructFromTypeName | src/function_layer/integrator/integrator.rs:30-38 | Each integrator is built from its own name and only from it. |
| Integrators.Moved | src/function_layer/integrator/path_integrator.rs:77-79 | A moved ray has the hit point as origin, the sampled direction and the reset window. All else is kept. |
| Integrators.AddInfinite | src/function_layer/integrator/path_integrator.rs:35-37 | The miss branch adds weight × emission of the infinite light, if any. |
| Integrators.MoveRay | src/function_layer/integrator/path_integrator.rs:77-79 | Origin, `change_dir` and `reset` produce `Moved`. |
| Integrators.GatedEmission | src/function_layer/integrator/path_integrator.rs:42-46 | A hit emitter's emission is added, unweighted, only at depth 0 or after a specular bounce. |
| Integrators.DarkInfinite | src/function_layer/integrator/path_integrator.rs:35-37 | In a world that emits nothing, the miss branch keeps black black. |
| Integrators.DarkEmission | src/function_layer/integrator/path_integrator.rs:42-46 | In such a world, emitter gating keeps black black. |
| NormalIntegrators.NormalLi | src/function_layer/integrator/normal_integrator.rs:8-14 | The result is black on a miss, and `(n + 1) · 0.5` per channel on a hit. |
| NormalIntegrators.NormalLiInUnit | src/function_layer/integrator/normal_integrator.rs:12 | A normal with components in [-1, 1] gives channels in [0, 1]. |
| NormalIntegrators.NormalColourInverts | src/function_layer/integrator/normal_integrator.rs:12 | The normal is recovered as `2s - 1`. |
| PathIntegrators.PathStep | src/function_layer/integrator/path_integrator.rs:32-81 | A miss ends with the infinite-light term. A hit at `depth+1 >= max_depth` ends with the gated emission: unweighted, and only at depth 0 or after a specular bounce. Otherwise the spectrum becomes the illumination sampled on top of the gated emission, both when the path is killed by roulette or a black weight and when it continues. Continuing needs `depth+1 < max_depth`, no roulette kill after depth 2 and a non-black weight. It sets throughput to `t/0.95 × weight`, moves the ray and sets specular from the sample type. Stopping leaves the ray. |
| PathIntegrators.Li | src/function_layer/integrator/path_integrator.rs:26-83 | The loop returns the spectrum of `PathRun` and leaves the caller's ray where `PathRun` does. |
| PathIntegrators.PathIterationBound | src/function_layer/integrator/path_integrator.rs:47-50 | From depth d the loop runs at most `max_depth - d` times when d < `max_depth`, and at most once otherwise. |
| PathIntegrators.PathIterationBoundReached | src/function_layer/integrator/path_integrator.rs:47-74 | The bound is reached when every ray hits, roulette never kills and no weight is black. |
| PathIntegrators.PathDarkIsBlack | src/function_layer/integrator/path_integrator.rs:26-83 | In a world that emits nothing, the path tracer returns black. |
| VolPathIntegrators.MediumStep | src/function_layer/integrator/volpath.rs:31-34 | Throughput is multiplied by the medium's weight only when the ray carries a medium. Otherwise the interaction is the default one. |
| VolPathIntegrators.Roulette | src/function_layer/integrator/volpath.rs:121-125 | The path ends iff depth > 2 and the draw exceeds 0.95. Otherwise throughput is divided by 0.95 and depth is incremented. |
| VolPathIntegrators.SurfaceStep | src/function_layer/integrator/volpath.rs:64-119 | A miss ends with the infinite-light term. At `max_depth` the path ends after the gated emission. Below it, the spectrum becomes the illumination sampled on top of the gated emission, whether the path then stops (black weight, roulette) or continues. Continuing needs a non-black weight, moves the ray, sets the medium from the side of the normal the new direction lies on, and sets specular. |
| VolPathIntegrators.VolStep | src/function_layer/integrator/volpath.rs:29-126 | Black throughput ends the path, and an invalid interaction takes the surface branch. A valid one at `max_depth` ends with the spectrum unchanged. Below it, the spectrum becomes the medium illumination, whether roulette stops the path or it moves to the medium point with the phase direction, clears specular and divides by 0.95. Continuing always has depth < `max_depth`. |
| VolPathIntegrators.Li | src/function_layer/integrator/volpath.rs:23-128 | The loop returns the spectrum of `VolRun` and leaves the caller's ray where it does. |
| VolPathIntegrators.SurfaceBounce | src/function_layer/integrator/volpath.rs:64-119 | The surface branch of the loop ends the path or continues exactly as `SurfaceStep` says. Continuing hands over to the roulette. |
| VolPathIntegrators.VolIterationBound | src/function_layer/integrator/volpath.rs:41-43 | From depth d ≤ `max_depth` the loop runs at most `max_depth - d + 1` times. |
| VolPathIntegrators.VolDarkIsBlack | src/function_layer/integrator/volpath.rs:23-128 | In a world that emits nothing, volumetric path tracing returns black. |
| VolPathIntegrators.VolStepDark | src/function_layer/integrator/volpath.rs:29-126 | In a world that emits nothing, one iteration keeps a black spectrum black. |
| VolPathIntegrators.SurfaceStepDark | src/function_layer/integrator/volpath.rs:64-119 | In a world that emits nothing, the surface branch keeps a black spectrum black. |
| WhittedIntegrators.Plus | src/function_layer/integrator/whitted_integrator.rs:46 | Adding to an undefined spectrum stays undefined. Otherwise it is a plain sum. |
| WhittedIntegrators.Shadowed | src/function_layer/integrator/whitted_integrator.rs:42-47 | An occluded shadow ray adds nothing. An unoccluded one adds `beta × energy × f / pdf`, or makes the result undefined when the converted pdf is undefined or 0. |
| WhittedIntegrators.DrawnTerm | src/function_layer/integrator/whitted_integrator.rs:49-63 | No drawn light, or `pdf_light = 0`, adds nothing. Otherwise the sample's pdf is multiplied by `pdf_light`, and the shadow ray's `t_max` is the sampled distance. |
| WhittedIntegrators.ScaledPdf | src/function_layer/integrator/whitted_integrator.rs:60 | Only the pdf changes, to `pdf × pdf_light`. |
| WhittedIntegrators.InfiniteTerm | src/function_layer/integrator/whitted_integrator.rs:40-48 | Without an infinite light nothing is added. With one, its sample is taken with the `2 × bounce` sampler index and added through an unbounded shadow ray from the hit, seen from `-ray.direction`. |
| WhittedIntegrators.Emitted | src/function_layer/integrator/whitted_integrator.rs:24-26 | At a hit on a light, `beta × emission` seen from `-ray.direction` is added. At other hits the spectrum is unchanged. |
| WhittedIntegrators.WhittedStepOf | src/function_layer/integrator/whitted_integrator.rs:15-66 | The loop goes round again iff the ray hits and the sample is specular, with `beta × weight`, the moved ray, the emitter term added and no depth limit. A miss stops with the infinite light's emission added. A diffuse hit stops with the emitter term, then the direct-light terms, added. Both leave the ray unchanged. |
| WhittedIntegrators.WhittedRunAnyBound | src/function_layer/integrator/whitted_integrator.rs:15-67 | The result does not depend on which termination bound is used. |
| WhittedIntegrators.EndsWithinMore | src/function_layer/integrator/whitted_integrator.rs:15-67 | A loop that ends within n iterations ends within any larger number. |
| WhittedIntegrators.EndsAtOnce | src/function_layer/integrator/whitted_integrator.rs:31-39 | The loop ends after one iteration iff the ray misses or the hit is diffuse. |
| WhittedIntegrators.Li | src/function_layer/integrator/whitted_integrator.rs:11-69 | The loop returns what `WhittedRun` specifies and leaves the caller's ray there. |
| WhittedIntegrators.Gather | src/function_layer/integrator/whitted_integrator.rs:39-64 | The diffuse branch computes the infinite-light term, then the drawn-light term. |
| WhittedIntegrators.AddLightSample | src/function_layer/integrator/whitted_integrator.rs:42-47 | The shadow-ray test and contribution equal `Shadowed`. |

## Left out

- Floating point: all arithmetic is exact over `real`. NaN is modelled only where it decides a branch: the slab products, the Whitted spectrum (None) and the area-light pdf (None).
- Distributions.Distribution.constructor: requires a non-zero total. Zero weights would divide by zero and fill the table with NaN.
- Distributions.Distribution.Sample: requires `cdf[0] < u <= cdf[last]` and a sorted table. `u = cdf[0]` underflows the index and a larger `u` reads past the table.
- Distributions.BinarySearchBy: models `binary_search_by` by its contract, not by Rust's exact probe sequence. Among equal entries, which one is returned is open.
- Quadratic.SolveQuadratic: the square root is a parameter `s` with `s ≥ 0` and `s² = discriminant`.
- Bvh.SelectNthUnstableBy: `select_nth_unstable_by` is modelled by one admissible result, a sort of the range. The proofs use only its contract: a permutation partitioned at the n-th element.
- `init_internal_acceleration`, `fill_intersection` and the per-shape hit tests are outside the model. Each shape is a record, and hit tests are an oracle that succeeds only inside `(t_min, t_max)`.
- Acceleration.HitsInsideBounds: assumes that a primitive's hits lie inside its box. The nearest-hit lemmas need this; the shapes' code is not part of this model.
- Octrees.OctreeFindsNearest: assumes that `Bounds3::sub_bounds`, a parameter, covers its box. Without that, a shape can fall into no child, and the lemma then does not hold.
- Octrees.Octree.Build: the panic on an empty shape list is a returned flag.
- Geometry ids: the source never assigns them. The corrected lookup is proved for the case where they are list indices.
- Linear.LinearAccel.Build: only calls `init_internal_acceleration` on each shape, so it is a method without effect and has no row.
- Monte Carlo claims (unbiasedness, convergence) are not stated. They need probability over the sampler.
- Scenes.Scene.FromJson:
  - requires at least one non-environment light, because its distribution would divide by a zero total;
  - starts from lists of shapes and constructed lights, because JSON parsing and `construct_shape`/`construct_light` are outside the model;
  - models `Rc<RefCell<dyn Light>>` handles as numbers.
- Scenes.Scene.RayIntersect: the source passes `&Ray` to an index whose `ray_intersect` takes `&mut Ray`, and returns a raw query as an `Intersection`. It is modelled as the index's `get_intersect`, which narrows the ray it is given. The integrators do not call it: their scene query is the `World` record's `intersect`, a function of the ray state.
- Bvh and Scenes queries: over an empty shape list they require a ray whose cached inverse direction has no zero component (Rays.InverseNonZero). Every ray made by a constructor has one (Vectors.RecipVec); the source relies on this to skip reading `shapes[0]` of an empty list.
- Rays.Ray.FromO2D: with origin equal to destination, nalgebra's `normalize()` divides by zero and yields NaN components. The model keeps the zero offset as the direction instead.
- Integrators: every scene query, BSDF, light, sampler draw and `sample_interaction_illumination` is a function of the `World` record. `compute_ray_differentials` is left out.
- MediumInterface `inside()`/`outside()` are not shown in the source. They are read as the two fields.
- WhittedIntegrators.Li: the source's loop has no bound. A ghost bound within which it is known to end is a precondition, and results are proved independent of it.
- WhittedIntegrators: the source tests `light.is_none()` on the non-optional light that `sample_light` returns. The model follows its intent: the light draw may return nothing. A zero or undefined converted pdf makes the spectrum undefined (None), where the source would produce infinities or NaN.
- GridDensity.Sample:
  - the transform `local_ray`, `Bounds3::intersect_t`, `ln(1 - u)`, `lerp` and the sampler are parameters;
  - requires a finite `inv_max_density` and a non-zero `sigma_t`;
  - its loop has no bound of its own, so a ghost step bound is a precondition;
  - `Rc::new(self.clone())` is a handle parameter.
- GridDensity.ScaledByMajorant: states the [0, 1] bound for any density in the range that DensityBounded proves, not for `density(p)` directly.
- GridDensity: the `usize` cast saturates negatives to 0. The neighbour offsets `+1` are not bounded by the machine word.
- `GridDensityMedium::tr`, the homogeneous medium, `HenyeyGreenstein`/`phase_hg` and phase sampling are float transport maths. The phase function's value is a parameter.

## Findings

| source | as written | input that shows it | evidently intended | confidence | as-written member | corrected member |
|---|---|---|---|---|---|---|
| src/function_layer/acceleration/acceleration.rs:19-22 | The query tuple `(geometry id, prim id, u, v)` is destructured as `(prime_id, geom_id, u, v)`. The shape is then looked up by the primitive id, and the geometry id is passed as the primitive id. | Two shapes with geometry ids 0 and 1, the second hit on primitive 0: the record is filled from shape 0. A single mesh hit on primitive 3 indexes past a one-shape list. | Look the shape up by geometry id and pass the primitive id. | high, not executed | Acceleration.AsWrittenFillsFromWrongShape | Acceleration.GetIntersectFillsFromHitShape |
