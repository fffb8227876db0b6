# Bounding volume hierarchy over axis-aligned boxes

This project models the BVH of `src/bvh/`, and proves properties of the model.

- **Builder** (`bvh_build.c`): it sorts each slice of the primitive array in place by the node box's longest axis. It splits at `median = n / 2` and recurses on `[0, median)` and `[median, n)`. The right child gets the union of the boxes of `[median, n)`. The left child gets the union of the boxes of `[0, median]`, which includes the median primitive although that primitive belongs to the right slice.
- **Queries** (`bvh_check.c`): two depth-first walks that prune every subtree whose node box the test rejects.
  - The box query answers whether some root-to-leaf path passes the box test at every node and ends at a leaf with an overlapping counted primitive. On a built tree whose scene box covers the primitives, and with a box test that a larger box passes whenever a smaller one does, this is the same as some stored primitive's box overlapping the query box.
  - Each leaf answers the hit point of its lowest counted slot that the ray hits. The ray query returns the first non-zero point among these leaf answers, in leaf, left, right order. The zero vector means "no hit", so a hit exactly at the origin reads as no hit. Such a hit also hides the later slots of its own leaf, because the leaf loop returns the first hit point whatever its value.

Modules:

- `Geometry` (`geometry.dfy`): vectors, boxes, rays, `expand_aabb` and the union (hull) of a sequence of boxes.
- `Bvh` (`bvh.dfy`): the node and tree datatypes, the `is_leaf` macro, and `Env`. `Env` holds the calls into code outside the core as function-valued fields:
  - raylib's `CheckCollisionBoxes` and `GetRayCollisionBox`;
  - `primitive_get_bounding_box`;
  - the longest-axis sort key;
  - `qsort`.

  The primitive itself is a type parameter `P`. Three things are assumed about `qsort`. It is a deterministic function of the box and the slice's contents. It keeps the slice's length, which is the `SortFn` type of the field. And it returns a permutation of the slice, ordered by the key, which is `Env.SortValid()`. The order among equal keys is left open.
- `BvhBuild` (`bvh_build.dfy`): the builder.
  - The methods `Qsort`, `LeftAabb`, `RightAabb`, `CreateImpl` and `TreeCreate` work in place on an `array`, as the C code does.
  - `CreateImpl` and `TreeCreate` are proved to produce exactly what the function `Build` computes: the node, and the slice's contents after all the sorts below it.
  - `Qsort` is proved to write the sort's result over the slice and change nothing else.
  - `LeftAabb` and `RightAabb` are proved to return the union (`Hull`) of the boxes they fold.
  - The lemmas about `Build` state what the built tree holds.
- `BvhCheck` (`bvh_check.dfy`): the two queries, as recursive functions, with soundness and completeness lemmas. The C leaf loops are read-only scans with an early return, so they are the recursive scans `LeafCollides` and `FirstRayHit`.
- `BvhProperties` (`bvh_properties.dfy`): what the queries answer on trees that the builder makes.

What the code does, as opposed to what its comments say:

- The comment at `bvh_build.c:84` says a slice of fewer than two primitives becomes a leaf holding them. The code returns NULL, and the model follows the code.
- As a consequence, some primitives end up in no leaf.
  - The number of stored primitives is `StoredCount(n)`. For `n >= 2` it equals `n` exactly when `n` is a power of two (`StoredCountFullIffPowerOfTwo`). For `n` of 0 or 1 nothing is stored.
  - With three primitives, the first of the sorted slice is stored nowhere. A box query that overlaps only that primitive answers "no collision" (`ThreePrimitivesMissFirstSorted`).
- Every node the builder makes is either a leaf with count 2, or an internal node with count 0 and a right child. The size-1 branch of `bvh_node_create` is therefore never reached from the builder (`BuildShaped`, `ShapedLeafIffTwo`).

## Model

| member | source | states |
|---|---|---|
| Geometry.IsZeroVector | src/bvh/bvh_check.c:8 | the macro holds exactly when the vector is the zero vector |
| Geometry.ExpandAabb | src/bvh/bvh_build.c:35-50 | the result contains both operands |
| Geometry.ExpandLeast | src/bvh/bvh_build.c:35-50 | every box that contains both operands contains their union, so the union is the smallest such box |
| Geometry.ExpandCommutative | src/bvh/bvh_build.c:35-50 | the union does not depend on operand order |
| Geometry.ExpandAssociative | src/bvh/bvh_build.c:35-50 | the union does not depend on grouping |
| Geometry.ExpandIdempotent | src/bvh/bvh_build.c:35-50 | the union of a box with itself is that box |
| Geometry.ExpandAbsorbs | src/bvh/bvh_build.c:35-50 | expanding a box by one it already contains changes nothing |
| Geometry.HullContainsEach | src/bvh/bvh_build.c:99-113 | the union of a sequence of boxes contains each of them |
| Geometry.HullLeast | src/bvh/bvh_build.c:99-113 | the union is contained in every box that contains all of them |
| Geometry.ExpandAllIsSeedAndHull | src/bvh/bvh_build.c:101-105 | an accumulator seeded with a box and expanded by each box in turn is the seed joined with the union of the rest |
| Geometry.SeedFromMemberIsHull | src/bvh/bvh_build.c:101-105 | seeding the accumulator with one of the folded boxes (the median's) gives exactly their union |
| Geometry.HullConcat | src/bvh/bvh_build.c:99-113 | the union of a concatenation is the union of the two unions |
| Geometry.HullSameElements | src/bvh/bvh_build.c:99-113 | the union depends only on which boxes occur, not on their order or multiplicity |
| Bvh.IsLeaf | src/bvh/bvh_check.c:7 | a node is a leaf exactly when no node lies below it: every path from it that reaches a node is the empty path |
| Bvh.NothingBelowIffNoChildren | src/bvh/bvh_check.c:7 | a node has two NULL children exactly when no non-empty path from it reaches a node |
| Bvh.SortLength | src/bvh/bvh_build.c:93 | (assumed) the sort keeps the slice's length; this is the `SortFn` type of the sort, not a proved property of the model |
| Bvh.SortPermutes | src/bvh/bvh_build.c:93 | (assumed) under `Env.SortValid()`, the sort's result is a permutation of the slice |
| Bvh.SortKeepsElements | src/bvh/bvh_build.c:93 | (assumed) under `Env.SortValid()`, a primitive is in the sorted slice exactly when it was in the slice |
| BvhBuild.NodeCreate | src/bvh/bvh_build.c:54-79 | the node has the given box and no children; one primitive fills both slots and counts 1, two are stored in the given order and count 2, anything else counts 0 |
| BvhBuild.Build | src/bvh/bvh_build.c:81-120 | the slice keeps its length; fewer than two primitives give NULL; a node has the box it was handed; every count is within the two-slot store |
| BvhBuild.Qsort | src/bvh/bvh_build.c:93 | the slice is replaced by the sort's result, which is an ordered permutation of what it held; the rest of the array is unchanged |
| BvhBuild.LeftAabb | src/bvh/bvh_build.c:97-105 | the left accumulator is the union of the boxes from the slice start up to and including the median |
| BvhBuild.RightAabb | src/bvh/bvh_build.c:107-113 | the right accumulator is the union of the boxes from the median to the slice end |
| BvhBuild.CreateImpl | src/bvh/bvh_build.c:81-120 | the returned node is `Build`'s node for the slice's old contents; the slice then holds `Build`'s contents and the rest of the array is unchanged |
| BvhBuild.TreeCreate | src/bvh/bvh_build.c:26-31 | the root is `Build`'s node for the whole prefix of the array, and the array holds `Build`'s contents |
| BvhBuild.BuildSplit | src/bvh/bvh_build.c:90-117 | more than two primitives give a node that stores nothing, has a right child, and whose leaves are its children's leaves; the two halves together are a permutation of the slice |
| BvhBuild.BuildPermutes | src/bvh/bvh_build.c:93-117 | after the build the slice holds the same primitives as before, each as often |
| BvhBuild.BuildPair | src/bvh/bvh_build.c:70-76 | two primitives give a leaf holding both in their order before the sort, counted 2 |
| BvhBuild.BuildThree | src/bvh/bvh_build.c:84-117 | with three primitives the leaves hold only the last two of the sorted slice |
| BvhBuild.BuildStored | src/bvh/bvh_build.c:84-117 | the leaves hold `StoredCount(n)` primitives, all drawn from the slice with multiplicity |
| BvhBuild.StoredCountAtMost | src/bvh/bvh_build.c:84-117 | no more primitives are stored than are given |
| BvhBuild.StoredCountFullIffPowerOfTwo | src/bvh/bvh_build.c:84-117 | for two or more primitives, all are stored exactly when their number is a power of two |
| BvhBuild.BuildStoresAllWhenCountFull | src/bvh/bvh_build.c:84-117 | when the count is full, the leaves hold exactly the slice's primitives |
| BvhBuild.BuildShaped | src/bvh/bvh_build.c:62-117 | every node built is a leaf counting 2 or an internal node counting 0 with a right child |
| BvhBuild.ShapedLeafIffTwo | src/bvh/bvh_build.c:62-76 | in such a tree a node is a leaf exactly when its count is 2, and no count is 1 |
| BvhBuild.BuildChildBoxes | src/bvh/bvh_build.c:97-117 | the right child's box is the union of the right half's boxes; the left child's box is the union up to and including the median; together they span the union of the slice |
| BvhBuild.HullOfHalves | src/bvh/bvh_build.c:97-113 | the two overlapping halves of a permutation of the slice together have the slice's union |
| BvhBuild.BuildCovers | src/bvh/bvh_build.c:97-117 | when the given box contains every primitive's box, every node's box contains the boxes of all primitives stored below it |
| BvhBuild.FreeOrder | src/bvh/bvh_build.c:8-18 | the order in which `free_bvh_node` releases nodes, defined as left subtree, right subtree, node. The contract states that NULL releases nothing and that a node is released last. It does not state that the left subtree comes before the right |
| BvhBuild.FreeOrderReleasesNodes | src/bvh/bvh_build.c:8-18 | every node of the tree is released, and nothing else is |
| BvhBuild.FreeOrderPostOrder | src/bvh/bvh_build.c:8-18 | no node is released twice, and each is released after all of its descendants |
| BvhCheck.LeafCollides | src/bvh/bvh_check.c:22-33 | the leaf scan succeeds exactly when some counted slot's primitive box passes the box test |
| BvhCheck.CheckCollisionImpl | src/bvh/bvh_check.c:11-37 | a yes needs a node whose box passes the test, so NULL and rejected subtrees answer no |
| BvhCheck.DetectCollision | src/bvh/bvh_check.c:39-42 | yes exactly when some root-to-leaf path passes the test at every node and ends at a leaf with an overlapping counted primitive |
| BvhCheck.CollisionIffHitPath | src/bvh/bvh_check.c:11-37 | the same characterisation, for every subtree |
| BvhCheck.CollisionSound | src/bvh/bvh_check.c:11-37 | a yes always comes from a stored primitive overlapping the query |
| BvhCheck.NoStoredOverlapNoCollision | src/bvh/bvh_check.c:11-37 | when no stored primitive overlaps the query, the answer is no |
| BvhCheck.CollisionComplete | src/bvh/bvh_check.c:11-37 | with covering boxes and a monotone box test, every stored overlapping primitive is found |
| BvhCheck.LeafCollidesIgnoresUncounted | src/bvh/bvh_check.c:25 | slots at or above the count never affect the box scan |
| BvhCheck.FirstRayHit | src/bvh/bvh_check.c:58-71 | the leaf loop from slot `i` on: any answer is the hit point of some counted slot the ray hits; which slot is given by `FirstRayHitFinds` |
| BvhCheck.FirstRayHitFinds | src/bvh/bvh_check.c:58-71 | the ray scan answers nothing exactly when no counted slot is hit, and otherwise the point of the lowest hit slot |
| BvhCheck.FirstRayHitIgnoresUncounted | src/bvh/bvh_check.c:61 | slots at or above the count never affect the ray scan |
| BvhCheck.CheckCollisionRayImpl | src/bvh/bvh_check.c:45-88 | a non-zero answer needs a node whose box the ray hits |
| BvhCheck.DetectCollisionRay | src/bvh/bvh_check.c:90-93 | the answer is the first non-zero candidate in leaf, left, right order |
| BvhCheck.FirstNonZero | src/bvh/bvh_check.c:74-87 | zero exactly when every candidate is zero, otherwise one of the candidates |
| BvhCheck.FirstNonZeroIsEarliest | src/bvh/bvh_check.c:74-87 | every candidate before the answer is zero |
| BvhCheck.RayIsFirstCandidate | src/bvh/bvh_check.c:45-88 | the walk returns the first non-zero candidate, where each leaf reached contributes one candidate, the point of its first hit slot; a leaf whose first hit is at the origin contributes zero, which is passed over together with that leaf's later slots; a non-zero left answer stops the walk before the right subtree |
| BvhCheck.LeafZeroHitHidesLaterSlots | src/bvh/bvh_check.c:61-78 | a leaf whose first counted slot is hit exactly at the origin answers zero, whatever its later slots hold |
| BvhCheck.CandidatesFromHitPaths | src/bvh/bvh_check.c:53-71 | every candidate comes from a leaf reached through boxes the ray hits, and is the hit point of a stored primitive |
| BvhCheck.RaySound | src/bvh/bvh_check.c:45-88 | a non-zero answer is the hit point of a stored primitive reached through boxes the ray hits |
| BvhCheck.RayComplete | src/bvh/bvh_check.c:45-88 | with covering boxes, a monotone ray test and no hit exactly at the origin, a ray hitting any stored primitive gets a non-zero answer |
| BvhProperties.BuiltTree | src/bvh/bvh_build.c:26-31 | the built tree is well formed and shaped, and its root is NULL exactly when there are fewer than two primitives |
| BvhProperties.SmallSceneFindsNothing | src/bvh/bvh_build.c:85-88 | with fewer than two primitives both queries find nothing |
| BvhProperties.BoxQueryOnBuiltTree | src/bvh/bvh_check.c:11-42 | on a built tree whose scene box contains every primitive's box (`SceneCovers`), and with a monotone box test (`BoxTestMonotone`), the box query answers yes exactly when some stored primitive overlaps the query |
| BvhProperties.BoxQueryFindsAllWhenPowerOfTwo | src/bvh/bvh_build.c:96-117 | for a number of primitives that is at least 2 and a power of two, with a covering scene box (`SceneCovers`) and a monotone box test (`BoxTestMonotone`), every primitive overlapping the query is found |
| BvhProperties.ThreePrimitivesMissFirstSorted | src/bvh/bvh_build.c:84-117 | with three primitives, a query overlapping only the first sorted one gets "no collision" although that primitive overlaps it |
| BvhProperties.RayQueryOnBuiltTree | src/bvh/bvh_check.c:45-93 | on a built tree a non-zero answer is a stored primitive's hit point; with a covering scene box (`SceneCovers`), a monotone ray test (`RayTestMonotone`) and no stored primitive hit at the origin, a hit on any stored primitive gives a non-zero answer |

## Left out

- raylib's `CheckCollisionBoxes` and `GetRayCollisionBox`, `primitive_get_bounding_box` and `compare_by_longest_axis` are outside the core. They are uninterpreted fields of `Env`. The primitive type, `primitive.h` and `util/longest_axis.h` are not part of this model.
- Bvh.SortValid: `qsort` is assumed to be a deterministic function of the box and the slice's contents, and to return an ordered permutation. The order among equal keys is not pinned, so which primitives are dropped or paired when keys tie is not determined.
- BvhBuild.Qsort: the library's swap sequence is not modelled. The method copies the sort's result into the slice, which is the same end state.
- BvhBuild.NodeCreate: for more than two primitives the C code leaves both slots uninitialised. The model leaves the store empty. Only the count, 0, is read.
- BvhCheck.CollisionComplete and BvhCheck.RayComplete: both assume that a box containing another passes the box or ray test whenever the inner one does. raylib's tests are not modelled, so this monotonicity is a premise.
- BvhCheck.RayComplete: it also assumes no stored primitive is hit exactly at the origin. The zero vector doubles as "no hit", so such a hit reads as no hit and hides the later slots of its own leaf.
- `GetRayCollisionBox`'s distance and normal are never read by the core and are not modelled.
- Coordinates are mathematical integers. IEEE `float`, and the NaN and signed-zero behaviour of `fmin`/`fmax`, are not modelled.
- `malloc` and `free`, allocation failure, and `bvh_tree_free` are not modelled. `free_bvh_node` is modelled only through the order in which it releases nodes (`FreeOrder`).
