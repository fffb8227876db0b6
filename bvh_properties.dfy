/** What the queries answer on trees the builder makes: `bvh_tree_create`
    followed by `bvh_tree_detect_collision` or `bvh_tree_detect_collision_ray`. */
module BvhProperties {
  import opened Geometry
  import opened Bvh
  import opened BvhBuild
  import opened BvhCheck

  /** The tree `bvh_tree_create` makes from `s`, as a value. */
  function BuiltTree<P(!new)>(env: Env<P>, s: seq<P>, sceneBox: Box): (tree: Tree<P>)
    requires env.SortValid()
    ensures WellFormed(tree.root) && Shaped(tree.root)
    ensures tree.root.Null? <==> |s| < 2
  {
    BuildShaped(env, s, sceneBox);
    Tree(Build(env, s, sceneBox).0)
  }

  /** The scene box contains the box of every primitive. */
  ghost predicate SceneCovers<P(!new)>(env: Env<P>, s: seq<P>, sceneBox: Box)
  {
    forall x :: x in s ==> Contains(sceneBox, env.primitiveBox(x))
  }

  /** Fewer than two primitives give an empty tree, which reports no collision
      and the zero vector for every ray. */
  lemma SmallSceneFindsNothing<P(!new)>(env: Env<P>, s: seq<P>, sceneBox: Box, query: Box, ray: Ray)
    requires env.SortValid() && |s| < 2
    ensures !DetectCollision(env, BuiltTree(env, s, sceneBox), query)
    ensures DetectCollisionRay(env, BuiltTree(env, s, sceneBox), ray) == Zero
  {
  }

  /** On a built tree whose scene box covers the primitives, the box query answers
      yes exactly when some primitive stored in a leaf overlaps the query. */
  lemma BoxQueryOnBuiltTree<P(!new)>(env: Env<P>, s: seq<P>, sceneBox: Box, query: Box)
    requires env.SortValid() && env.BoxTestMonotone() && SceneCovers(env, s, sceneBox)
    ensures var tree := BuiltTree(env, s, sceneBox);
            DetectCollision(env, tree, query)
            <==> exists x :: x in Stored(tree.root) && env.checkCollisionBoxes(env.primitiveBox(x), query)
  {
    var root := BuiltTree(env, s, sceneBox).root;
    BuildCovers(env, s, sceneBox);
    if DetectCollision(env, Tree(root), query) {
      CollisionSound(env, root, query);
    }
    if exists x :: x in Stored(root) && env.checkCollisionBoxes(env.primitiveBox(x), query) {
      var x :| x in Stored(root) && env.checkCollisionBoxes(env.primitiveBox(x), query);
      CollisionComplete(env, root, query, x);
    }
  }

  /** When the number of primitives is a power of two, every primitive is stored
      and the box query on the built tree misses none of them. */
  lemma BoxQueryFindsAllWhenPowerOfTwo<P(!new)>(env: Env<P>, s: seq<P>, sceneBox: Box, query: Box, x: P)
    requires env.SortValid() && env.BoxTestMonotone() && SceneCovers(env, s, sceneBox)
    requires |s| >= 2 && IsPowerOfTwo(|s|)
    requires x in s && env.checkCollisionBoxes(env.primitiveBox(x), query)
    ensures DetectCollision(env, BuiltTree(env, s, sceneBox), query)
  {
    StoredCountFullIffPowerOfTwo(|s|);
    BuildStoresAllWhenCountFull(env, s, sceneBox);
    var root := BuiltTree(env, s, sceneBox).root;
    assert x in multiset(Stored(root));
    BoxQueryOnBuiltTree(env, s, sceneBox, query);
  }

  /** With three primitives the first of the sorted slice is stored in no leaf, so
      a query overlapping only that primitive is answered "no collision", unlike
      what storing every primitive in a leaf would give. */
  lemma ThreePrimitivesMissFirstSorted<P(!new)>(env: Env<P>, s: seq<P>, sceneBox: Box, query: Box)
    requires env.SortValid() && |s| == 3
    requires var sorted := env.qsort(sceneBox, s);
             && env.checkCollisionBoxes(env.primitiveBox(sorted[0]), query)
             && !env.checkCollisionBoxes(env.primitiveBox(sorted[1]), query)
             && !env.checkCollisionBoxes(env.primitiveBox(sorted[2]), query)
    ensures var sorted := env.qsort(sceneBox, s);
            && sorted[0] in s && env.checkCollisionBoxes(env.primitiveBox(sorted[0]), query)
            && !DetectCollision(env, BuiltTree(env, s, sceneBox), query)
  {
    var sorted := env.qsort(sceneBox, s);
    SortKeepsElements(env, sceneBox, s, sorted[0]);
    var root := Build(env, s, sceneBox).0;
    assert !CheckCollisionImpl(env, root, query) by {
      BuildThree(env, s, sceneBox);
      assert Stored(root) == [sorted[1], sorted[2]];
      NoStoredOverlapNoCollision(env, root, query);
    }
  }

  /** On a built tree, a non-zero answer of the ray query is the hit point of a
      stored primitive; and when the scene box covers the primitives and no hit
      lands exactly on the origin, any stored primitive the ray hits gives a
      non-zero answer. */
  lemma RayQueryOnBuiltTree<P(!new)>(env: Env<P>, s: seq<P>, sceneBox: Box, ray: Ray)
    requires env.SortValid()
    ensures var tree := BuiltTree(env, s, sceneBox);
            var v := DetectCollisionRay(env, tree, ray);
            v != Zero ==> exists x :: x in Stored(tree.root) && env.getRayCollisionBox(ray, env.primitiveBox(x)) == RayCollision(true, v)
    ensures var tree := BuiltTree(env, s, sceneBox);
            (&& env.RayTestMonotone() && SceneCovers(env, s, sceneBox)
             && (forall y :: y in Stored(tree.root) && env.getRayCollisionBox(ray, env.primitiveBox(y)).hit
                            ==> env.getRayCollisionBox(ray, env.primitiveBox(y)).point != Zero)
             && (exists x :: x in Stored(tree.root) && env.getRayCollisionBox(ray, env.primitiveBox(x)).hit))
            ==> DetectCollisionRay(env, tree, ray) != Zero
  {
    var root := BuiltTree(env, s, sceneBox).root;
    if CheckCollisionRayImpl(env, root, ray) != Zero {
      RaySound(env, root, ray);
    }
    if && env.RayTestMonotone() && SceneCovers(env, s, sceneBox)
       && (forall y :: y in Stored(root) && env.getRayCollisionBox(ray, env.primitiveBox(y)).hit
                      ==> env.getRayCollisionBox(ray, env.primitiveBox(y)).point != Zero)
       && (exists x :: x in Stored(root) && env.getRayCollisionBox(ray, env.primitiveBox(x)).hit)
    {
      var x :| x in Stored(root) && env.getRayCollisionBox(ray, env.primitiveBox(x)).hit;
      BuildCovers(env, s, sceneBox);
      RayComplete(env, root, ray, x);
    }
  }
}
