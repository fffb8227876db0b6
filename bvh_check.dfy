/** The BVH queries of src/bvh/bvh_check.c. The box query answers whether some
    root-to-leaf path passes the box test at every node and ends at a leaf with a
    counted primitive whose box passes it too; with covering node boxes and a
    monotone box test this is "some stored primitive overlaps the query". The ray
    query returns the first non-zero point among the leaves' first hits, in leaf,
    left, right order, with the zero vector standing for "no hit". Both prune
    every subtree whose node box the test rejects.

    The C leaf loops are read-only scans with an early return; they are the
    recursive scans `LeafCollides` and `FirstRayHit` over the slot index. */
module BvhCheck {
  import opened Geometry
  import opened Bvh

  datatype Option<T> = None | Some(value: T)

  /** The leaf loop of `check_bvh_collision_impl` from slot `i` on: some slot
      below the count holds a primitive whose box passes the box test. */
  function LeafCollides<P(!new)>(env: Env<P>, primitives: seq<P>, size: nat, i: nat, query: Box): (r: bool)
    requires size <= |primitives|
    ensures r <==> exists j :: i <= j < size && env.checkCollisionBoxes(env.primitiveBox(primitives[j]), query)
    decreases size - i
  {
    if i >= size then false
    else if env.checkCollisionBoxes(env.primitiveBox(primitives[i]), query) then true
    else LeafCollides(env, primitives, size, i + 1, query)
  }

  /** `check_bvh_collision_impl`: NULL gives no collision; a node whose box fails
      the test gives no collision without looking further; otherwise a leaf's
      counted slots are tested, then the left and the right subtree. */
  function CheckCollisionImpl<P(!new)>(env: Env<P>, node: Node<P>, query: Box): (r: bool)
    requires WellFormed(node)
    ensures r ==> node.Node? && env.checkCollisionBoxes(node.boundingBox, query)
  {
    match node
    case Null => false
    case Node(box, left, right, primitives, size) =>
      if env.checkCollisionBoxes(box, query) then
        (IsLeaf(node) && LeafCollides(env, primitives, size, 0, query))
        || CheckCollisionImpl(env, left, query) || CheckCollisionImpl(env, right, query)
      else false
  }

  /** `bvh_tree_detect_collision`. */
  function DetectCollision<P(!new)>(env: Env<P>, tree: Tree<P>, query: Box): (r: bool)
    requires WellFormed(tree.root)
    ensures r <==> exists p :: BoxHitAlong(env, tree.root, query, p)
  {
    CollisionIffHitPath(env, tree.root, query);
    CheckCollisionImpl(env, tree.root, query)
  }

  /** Along `p` from `node` every node exists and its box passes the box test, and
      the node `p` ends at is a leaf with a counted slot whose primitive's box
      passes it too. */
  ghost predicate BoxHitAlong<P(!new)>(env: Env<P>, node: Node<P>, query: Box, p: Path)
    requires WellFormed(node)
    decreases |p|
  {
    && node.Node?
    && env.checkCollisionBoxes(node.boundingBox, query)
    && if p == [] then
         IsLeaf(node)
         && exists j :: 0 <= j < node.primitivesSize && env.checkCollisionBoxes(env.primitiveBox(node.primitives[j]), query)
       else BoxHitAlong(env, if p[0] then node.right else node.left, query, p[1..])
  }

  /** The box query answers yes exactly when some root-to-leaf path passes the box
      test at every node and ends at a leaf with an overlapping counted primitive. */
  lemma {:induction false} CollisionIffHitPath<P(!new)>(env: Env<P>, node: Node<P>, query: Box)
    requires WellFormed(node)
    ensures CheckCollisionImpl(env, node, query) <==> exists p :: BoxHitAlong(env, node, query, p)
    decreases node
  {
    if node.Node? && env.checkCollisionBoxes(node.boundingBox, query) {
      CollisionIffHitPath(env, node.left, query);
      CollisionIffHitPath(env, node.right, query);
      if CheckCollisionImpl(env, node, query) {
        if IsLeaf(node) && LeafCollides(env, node.primitives, node.primitivesSize, 0, query) {
          assert BoxHitAlong(env, node, query, []);
        } else if CheckCollisionImpl(env, node.left, query) {
          var p :| BoxHitAlong(env, node.left, query, p);
          assert ([false] + p)[1..] == p;
          assert BoxHitAlong(env, node, query, [false] + p);
        } else {
          var p :| BoxHitAlong(env, node.right, query, p);
          assert ([true] + p)[1..] == p;
          assert BoxHitAlong(env, node, query, [true] + p);
        }
      }
      if exists p :: BoxHitAlong(env, node, query, p) {
        var p :| BoxHitAlong(env, node, query, p);
        if p != [] {
          assert BoxHitAlong(env, if p[0] then node.right else node.left, query, p[1..]);
        }
      }
    } else {
      forall p ensures !BoxHitAlong(env, node, query, p) {
      }
    }
  }

  /** A yes from the box query always names a stored primitive that overlaps the query. */
  lemma {:induction false} CollisionSound<P(!new)>(env: Env<P>, node: Node<P>, query: Box)
    requires WellFormed(node)
    requires CheckCollisionImpl(env, node, query)
    ensures exists x :: x in Stored(node) && env.checkCollisionBoxes(env.primitiveBox(x), query)
    decreases node
  {
    if IsLeaf(node) && LeafCollides(env, node.primitives, node.primitivesSize, 0, query) {
      var j :| 0 <= j < node.primitivesSize && env.checkCollisionBoxes(env.primitiveBox(node.primitives[j]), query);
      assert node.primitives[..node.primitivesSize][j] == node.primitives[j];
    } else if CheckCollisionImpl(env, node.left, query) {
      CollisionSound(env, node.left, query);
      var x :| x in Stored(node.left) && env.checkCollisionBoxes(env.primitiveBox(x), query);
      assert x in Stored(node);
    } else {
      CollisionSound(env, node.right, query);
      var x :| x in Stored(node.right) && env.checkCollisionBoxes(env.primitiveBox(x), query);
      assert x in Stored(node);
    }
  }

  /** Put the other way round: when no stored primitive overlaps the query, the
      box query answers no. */
  lemma NoStoredOverlapNoCollision<P(!new)>(env: Env<P>, node: Node<P>, query: Box)
    requires WellFormed(node)
    requires forall x :: x in Stored(node) ==> !env.checkCollisionBoxes(env.primitiveBox(x), query)
    ensures !CheckCollisionImpl(env, node, query)
  {
    if CheckCollisionImpl(env, node, query) {
      CollisionSound(env, node, query);
    }
  }

  /** In a tree whose boxes cover what is stored below them, and with a box test
      that a larger box passes whenever a smaller one does, every stored
      primitive overlapping the query is found. */
  lemma {:induction false} CollisionComplete<P(!new)>(env: Env<P>, node: Node<P>, query: Box, x: P)
    requires WellFormed(node) && Covers(env, node) && env.BoxTestMonotone()
    requires x in Stored(node) && env.checkCollisionBoxes(env.primitiveBox(x), query)
    ensures CheckCollisionImpl(env, node, query)
    decreases node
  {
    assert Contains(node.boundingBox, env.primitiveBox(x));
    assert env.checkCollisionBoxes(node.boundingBox, query);
    if IsLeaf(node) {
      var j :| 0 <= j < node.primitivesSize && node.primitives[..node.primitivesSize][j] == x;
      assert node.primitives[j] == x;
    } else if x in Stored(node.left) {
      CollisionComplete(env, node.left, query, x);
    } else {
      CollisionComplete(env, node.right, query, x);
    }
  }

  /** The leaf loop of `check_bvh_collision_ray_impl` from slot `i` on: the hit
      point of the lowest counted slot whose primitive's box the ray hits. */
  function FirstRayHit<P(!new)>(env: Env<P>, primitives: seq<P>, size: nat, i: nat, ray: Ray): (r: Option<Vec3>)
    requires size <= |primitives|
    ensures r.Some? ==> exists j :: i <= j < size
                                   && env.getRayCollisionBox(ray, env.primitiveBox(primitives[j])) == RayCollision(true, r.value)
    decreases size - i
  {
    if i >= size then None
    else
      var collision := env.getRayCollisionBox(ray, env.primitiveBox(primitives[i]));
      if collision.hit then Some(collision.point)
      else FirstRayHit(env, primitives, size, i + 1, ray)
  }

  /** The leaf loop answers nothing exactly when the ray hits no counted slot from
      `i` on, and otherwise answers the hit point of the first slot it hits. */
  lemma {:induction false} FirstRayHitFinds<P(!new)>(env: Env<P>, primitives: seq<P>, size: nat, i: nat, ray: Ray)
    requires size <= |primitives|
    ensures var r := FirstRayHit(env, primitives, size, i, ray);
            && (r.None? <==> forall j :: i <= j < size ==> !env.getRayCollisionBox(ray, env.primitiveBox(primitives[j])).hit)
            && (r.Some? ==> exists j :: i <= j < size && RayHitsFirst(env, primitives, i, j, ray)
                                      && r.value == env.getRayCollisionBox(ray, env.primitiveBox(primitives[j])).point)
    decreases size - i
  {
    if i < size && !env.getRayCollisionBox(ray, env.primitiveBox(primitives[i])).hit {
      FirstRayHitFinds(env, primitives, size, i + 1, ray);
      var r := FirstRayHit(env, primitives, size, i + 1, ray);
      if r.Some? {
        var j :| i + 1 <= j < size && RayHitsFirst(env, primitives, i + 1, j, ray)
                 && r.value == env.getRayCollisionBox(ray, env.primitiveBox(primitives[j])).point;
        assert RayHitsFirst(env, primitives, i, j, ray);
      }
    } else if i < size {
      assert RayHitsFirst(env, primitives, i, i, ray);
    }
  }

  /** The ray hits slot `j`'s primitive and none of the slots from `i` up to `j`. */
  ghost predicate RayHitsFirst<P(!new)>(env: Env<P>, primitives: seq<P>, i: nat, j: nat, ray: Ray)
    requires j < |primitives|
  {
    && env.getRayCollisionBox(ray, env.primitiveBox(primitives[j])).hit
    && forall k :: i <= k < j ==> !env.getRayCollisionBox(ray, env.primitiveBox(primitives[k])).hit
  }

  /** `check_bvh_collision_ray_impl`: NULL and a node whose box the ray misses give
      the zero vector; a leaf returns the first hit point among its counted slots
      (even a zero one); otherwise the left subtree's answer unless it is zero,
      then the right subtree's answer unless it is zero, then zero. */
  function CheckCollisionRayImpl<P(!new)>(env: Env<P>, node: Node<P>, ray: Ray): (r: Vec3)
    requires WellFormed(node)
    ensures r != Zero ==> node.Node? && env.getRayCollisionBox(ray, node.boundingBox).hit
  {
    match node
    case Null => Zero
    case Node(box, left, right, primitives, size) =>
      if !env.getRayCollisionBox(ray, box).hit then Zero
      else
        var leafHit := if IsLeaf(node) then FirstRayHit(env, primitives, size, 0, ray) else None;
        if leafHit.Some? then leafHit.value
        else
          var l := CheckCollisionRayImpl(env, left, ray);
          if !IsZeroVector(l) then l
          else
            var r := CheckCollisionRayImpl(env, right, ray);
            if !IsZeroVector(r) then r else Zero
  }

  /** `bvh_tree_detect_collision_ray`. */
  function DetectCollisionRay<P(!new)>(env: Env<P>, tree: Tree<P>, ray: Ray): (r: Vec3)
    requires WellFormed(tree.root)
    ensures r == FirstNonZero(Candidates(env, tree.root, ray))
  {
    RayIsFirstCandidate(env, tree.root, ray);
    CheckCollisionRayImpl(env, tree.root, ray)
  }

  /** The answers the ray query's leaves give, in the order the walk reaches them
      (leaf slots, then the left subtree, then the right subtree), skipping every
      subtree whose box the ray misses. */
  function Candidates<P(!new)>(env: Env<P>, node: Node<P>, ray: Ray): seq<Vec3>
    requires WellFormed(node)
  {
    match node
    case Null => []
    case Node(box, left, right, primitives, size) =>
      if !env.getRayCollisionBox(ray, box).hit then []
      else
        var leafHit := if IsLeaf(node) then FirstRayHit(env, primitives, size, 0, ray) else None;
        (if leafHit.Some? then [leafHit.value] else []) + Candidates(env, left, ray) + Candidates(env, right, ray)
  }

  /** The first non-zero vector of `vs`, or zero if there is none. */
  function FirstNonZero(vs: seq<Vec3>): (r: Vec3)
    ensures r == Zero <==> forall v :: v in vs ==> v == Zero
    ensures r != Zero ==> r in vs
  {
    if vs == [] then Zero
    else if vs[0] != Zero then assert vs[0] in vs; vs[0]
    else
      assert forall v :: v in vs <==> v == vs[0] || v in vs[1..];
      FirstNonZero(vs[1..])
  }

  /** The answer is the earliest non-zero vector: everything before it is zero. */
  lemma {:induction false} FirstNonZeroIsEarliest(vs: seq<Vec3>)
    requires FirstNonZero(vs) != Zero
    ensures exists i :: 0 <= i < |vs| && vs[i] == FirstNonZero(vs) && forall k :: 0 <= k < i ==> vs[k] == Zero
  {
    if vs[0] == Zero {
      FirstNonZeroIsEarliest(vs[1..]);
      var i :| 0 <= i < |vs[1..]| && vs[1..][i] == FirstNonZero(vs[1..]) && forall k :: 0 <= k < i ==> vs[1..][k] == Zero;
      assert vs[i + 1] == FirstNonZero(vs);
      assert forall k :: 0 <= k < i + 1 ==> vs[k] == Zero by {
        forall k | 0 <= k < i + 1 ensures vs[k] == Zero {
          if k > 0 {
            assert vs[k] == vs[1..][k - 1];
          }
        }
      }
    } else {
      assert vs[0] == FirstNonZero(vs);
    }
  }

  lemma FirstNonZeroConcat(a: seq<Vec3>, b: seq<Vec3>)
    ensures FirstNonZero(a + b) == if FirstNonZero(a) != Zero then FirstNonZero(a) else FirstNonZero(b)
    decreases |a|
  {
    if a != [] {
      assert (a + b)[1..] == a[1..] + b;
      FirstNonZeroConcat(a[1..], b);
    } else {
      assert a + b == b;
    }
  }

  /** The ray query returns the first non-zero answer among the leaves it reaches,
      in leaf, left, right order: a zero hit point cannot be told from a miss and
      the walk goes on past it, and once the left subtree answers non-zero the
      right subtree is never consulted. */
  lemma {:induction false} RayIsFirstCandidate<P(!new)>(env: Env<P>, node: Node<P>, ray: Ray)
    requires WellFormed(node)
    ensures CheckCollisionRayImpl(env, node, ray) == FirstNonZero(Candidates(env, node, ray))
    decreases node
  {
    if node.Node? && env.getRayCollisionBox(ray, node.boundingBox).hit {
      RayIsFirstCandidate(env, node.left, ray);
      RayIsFirstCandidate(env, node.right, ray);
      var leafHit := if IsLeaf(node) then FirstRayHit(env, node.primitives, node.primitivesSize, 0, ray) else None;
      var head := if leafHit.Some? then [leafHit.value] else [];
      var cl, cr := Candidates(env, node.left, ray), Candidates(env, node.right, ray);
      assert Candidates(env, node, ray) == head + (cl + cr);
      FirstNonZeroConcat(head, cl + cr);
      FirstNonZeroConcat(cl, cr);
      if leafHit.Some? {
        // a leaf's children are NULL, so nothing follows its own answer
        assert cl == [] && cr == [];
        assert cl + cr == [];
      }
    }
  }

  /** A leaf whose first counted slot is hit exactly at the origin answers zero,
      whatever its later slots hold: the leaf loop returns that point, and the
      caller reads it as "no hit". */
  lemma LeafZeroHitHidesLaterSlots<P(!new)>(env: Env<P>, node: Node<P>, ray: Ray)
    requires WellFormed(node) && node.Node? && IsLeaf(node) && 0 < node.primitivesSize
    requires env.getRayCollisionBox(ray, env.primitiveBox(node.primitives[0])) == RayCollision(true, Zero)
    ensures CheckCollisionRayImpl(env, node, ray) == Zero
  {
  }

  /** Along `p` from `node` every node exists and its box is hit by the ray, and
      the node `p` ends at is a leaf whose first hit slot's primitive is hit at `v`. */
  ghost predicate RayHitAlong<P(!new)>(env: Env<P>, node: Node<P>, ray: Ray, p: Path, v: Vec3)
    requires WellFormed(node)
    decreases |p|
  {
    && node.Node?
    && env.getRayCollisionBox(ray, node.boundingBox).hit
    && if p == [] then
         IsLeaf(node) && FirstRayHit(env, node.primitives, node.primitivesSize, 0, ray) == Some(v)
       else RayHitAlong(env, if p[0] then node.right else node.left, ray, p[1..], v)
  }

  /** Every candidate answer comes from a leaf reached through boxes the ray hits,
      and is the hit point of a primitive stored there. */
  lemma {:induction false} CandidatesFromHitPaths<P(!new)>(env: Env<P>, node: Node<P>, ray: Ray, v: Vec3)
    requires WellFormed(node)
    requires v in Candidates(env, node, ray)
    ensures exists p :: RayHitAlong(env, node, ray, p, v)
    ensures exists x :: x in Stored(node) && env.getRayCollisionBox(ray, env.primitiveBox(x)) == RayCollision(true, v)
    decreases node
  {
    var leafHit := if IsLeaf(node) then FirstRayHit(env, node.primitives, node.primitivesSize, 0, ray) else None;
    var head := if leafHit.Some? then [leafHit.value] else [];
    var cl, cr := Candidates(env, node.left, ray), Candidates(env, node.right, ray);
    assert Candidates(env, node, ray) == head + cl + cr;
    if v in head {
      assert RayHitAlong(env, node, ray, [], v);
      FirstRayHitFinds(env, node.primitives, node.primitivesSize, 0, ray);
      var j :| 0 <= j < node.primitivesSize && RayHitsFirst(env, node.primitives, 0, j, ray)
               && v == env.getRayCollisionBox(ray, env.primitiveBox(node.primitives[j])).point;
      assert node.primitives[..node.primitivesSize][j] == node.primitives[j];
    } else if v in cl {
      CandidatesFromHitPaths(env, node.left, ray, v);
      var p :| RayHitAlong(env, node.left, ray, p, v);
      assert ([false] + p)[1..] == p;
      assert RayHitAlong(env, node, ray, [false] + p, v);
      var x :| x in Stored(node.left) && env.getRayCollisionBox(ray, env.primitiveBox(x)) == RayCollision(true, v);
      assert x in Stored(node);
    } else {
      CandidatesFromHitPaths(env, node.right, ray, v);
      var p :| RayHitAlong(env, node.right, ray, p, v);
      assert ([true] + p)[1..] == p;
      assert RayHitAlong(env, node, ray, [true] + p, v);
      var x :| x in Stored(node.right) && env.getRayCollisionBox(ray, env.primitiveBox(x)) == RayCollision(true, v);
      assert x in Stored(node);
    }
  }

  /** A non-zero answer of the ray query is the hit point of a stored primitive
      reached through boxes the ray hits. */
  lemma RaySound<P(!new)>(env: Env<P>, node: Node<P>, ray: Ray)
    requires WellFormed(node)
    requires CheckCollisionRayImpl(env, node, ray) != Zero
    ensures var v := CheckCollisionRayImpl(env, node, ray);
            && (exists p :: RayHitAlong(env, node, ray, p, v))
            && exists x :: x in Stored(node) && env.getRayCollisionBox(ray, env.primitiveBox(x)) == RayCollision(true, v)
  {
    RayIsFirstCandidate(env, node, ray);
    CandidatesFromHitPaths(env, node, ray, CheckCollisionRayImpl(env, node, ray));
  }

  /** In a tree whose boxes cover what is stored below them, with a ray test that
      a larger box passes whenever a smaller one does, and where no stored
      primitive the ray hits is hit exactly at the origin, a ray hitting any stored
      primitive gets a non-zero answer. */
  lemma {:induction false} RayComplete<P(!new)>(env: Env<P>, node: Node<P>, ray: Ray, x: P)
    requires WellFormed(node) && Covers(env, node) && env.RayTestMonotone()
    requires forall y :: y in Stored(node) && env.getRayCollisionBox(ray, env.primitiveBox(y)).hit
                         ==> env.getRayCollisionBox(ray, env.primitiveBox(y)).point != Zero
    requires x in Stored(node) && env.getRayCollisionBox(ray, env.primitiveBox(x)).hit
    ensures CheckCollisionRayImpl(env, node, ray) != Zero
    decreases node
  {
    assert Contains(node.boundingBox, env.primitiveBox(x));
    assert env.getRayCollisionBox(ray, node.boundingBox).hit;
    if IsLeaf(node) {
      var j :| 0 <= j < node.primitivesSize && node.primitives[..node.primitivesSize][j] == x;
      assert node.primitives[j] == x;
      var h := FirstRayHit(env, node.primitives, node.primitivesSize, 0, ray);
      FirstRayHitFinds(env, node.primitives, node.primitivesSize, 0, ray);
      var k :| 0 <= k < node.primitivesSize && RayHitsFirst(env, node.primitives, 0, k, ray)
               && h.value == env.getRayCollisionBox(ray, env.primitiveBox(node.primitives[k])).point;
      assert node.primitives[k] in Stored(node) by {
        assert node.primitives[..node.primitivesSize][k] == node.primitives[k];
      }
    } else if x in Stored(node.left) {
      RayComplete(env, node.left, ray, x);
    } else {
      assert forall y :: y in Stored(node.right) ==> y in Stored(node);
      RayComplete(env, node.right, ray, x);
    }
  }

  /** Slots at or above the count are never consulted: two stores that agree on
      the counted slots give the same answers (so the copy of the only primitive
      that `bvh_node_create` puts in a size-1 node's second slot is never read). */
  lemma {:induction false} LeafCollidesIgnoresUncounted<P(!new)>(env: Env<P>, a: seq<P>, b: seq<P>, size: nat, i: nat,
                                                                 query: Box)
    requires size <= |a| && size <= |b| && a[..size] == b[..size]
    ensures LeafCollides(env, a, size, i, query) == LeafCollides(env, b, size, i, query)
    decreases size - i
  {
    if i < size {
      assert a[i] == a[..size][i] == b[..size][i] == b[i];
      LeafCollidesIgnoresUncounted(env, a, b, size, i + 1, query);
    }
  }

  lemma {:induction false} FirstRayHitIgnoresUncounted<P(!new)>(env: Env<P>, a: seq<P>, b: seq<P>, size: nat, i: nat,
                                                                ray: Ray)
    requires size <= |a| && size <= |b| && a[..size] == b[..size]
    ensures FirstRayHit(env, a, size, i, ray) == FirstRayHit(env, b, size, i, ray)
    decreases size - i
  {
    if i < size {
      assert a[i] == a[..size][i] == b[..size][i] == b[i];
      FirstRayHitIgnoresUncounted(env, a, b, size, i + 1, ray);
    }
  }
}
