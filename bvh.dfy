/** The BVH's data: the node tree, the tree handle, and the calls into code
    outside the core (raylib's box and ray tests, the primitive's own bounding
    box, the longest-axis ordering and `qsort`), which are carried as
    function-valued fields of `Env` and are otherwise left unspecified. */
module Bvh {
  import opened Geometry

  /** A sort routine that works in place on the slice it is given: whatever
      order it produces, the result has the input's length. */
  type SortFn<!P(!new)> = f: (Box, seq<P>) -> seq<P> | forall box, s :: |f(box, s)| == |s|
    witness (box: Box, s: seq<P>) => s

  /** The collaborators the core calls but does not define, over an opaque
      primitive type `P`.
      - primitiveBox: `primitive_get_bounding_box`
      - sortKey: the position that `compare_by_longest_axis(box)` orders primitives by
      - qsort: `qsort` of a slice with that comparator (deterministic, not necessarily stable)
      - checkCollisionBoxes: raylib's `CheckCollisionBoxes`
      - getRayCollisionBox: raylib's `GetRayCollisionBox` */
  datatype Env<!P(!new)> = Env(
    primitiveBox: P -> Box,
    sortKey: (Box, P) -> int,
    qsort: SortFn<P>,
    checkCollisionBoxes: (Box, Box) -> bool,
    getRayCollisionBox: (Ray, Box) -> RayCollision)
  {
    /** `s` is ordered by the key that the comparator for `box` uses. */
    ghost predicate SortedBy(box: Box, s: seq<P>) {
      forall i, j :: 0 <= i < j < |s| ==> sortKey(box, s[i]) <= sortKey(box, s[j])
    }

    /** What `qsort` promises for `s` beyond keeping the length: the result is a
        permutation of `s`, ordered by the key. The order among equal keys is left open. */
    ghost predicate SortsCorrectly(box: Box, s: seq<P>) {
      multiset(qsort(box, s)) == multiset(s) && SortedBy(box, qsort(box, s))
    }

    /** `qsort` sorts every slice correctly. */
    ghost predicate SortValid() {
      forall box, s :: SortsCorrectly(box, s)
    }

    /** The box test can only succeed more often on a larger box (true of raylib's
        overlap test); needed only for the completeness theorems. */
    ghost predicate BoxTestMonotone() {
      forall outer, inner, q {:trigger Contains(outer, inner), checkCollisionBoxes(inner, q)} ::
        Contains(outer, inner) && checkCollisionBoxes(inner, q) ==> checkCollisionBoxes(outer, q)
    }

    /** A ray that hits a box also hits every box containing it. */
    ghost predicate RayTestMonotone() {
      forall outer, inner, ray {:trigger Contains(outer, inner), getRayCollisionBox(ray, inner)} ::
        Contains(outer, inner) && getRayCollisionBox(ray, inner).hit ==> getRayCollisionBox(ray, outer).hit
    }
  }

  /** The sort keeps the length of the slice it is given. */
  lemma SortLength<P(!new)>(env: Env<P>, box: Box, s: seq<P>)
    ensures |env.qsort(box, s)| == |s|
  {
  }

  /** The sort is a permutation. */
  lemma SortPermutes<P(!new)>(env: Env<P>, box: Box, s: seq<P>)
    requires env.SortValid()
    ensures multiset(env.qsort(box, s)) == multiset(s)
  {
    assert env.SortsCorrectly(box, s);
  }

  /** The sort neither loses nor invents primitives. */
  lemma SortKeepsElements<P(!new)>(env: Env<P>, box: Box, s: seq<P>, x: P)
    requires env.SortValid()
    ensures x in env.qsort(box, s) <==> x in s
  {
    SortPermutes(env, box, s);
    assert x in env.qsort(box, s) <==> x in multiset(env.qsort(box, s));
  }

  /** `BVH_Node *`: `Null` is the NULL pointer. `primitives` is the node's inline
      two-slot store and `primitivesSize` how many of its slots are meaningful. */
  datatype Node<P> =
    | Null
    | Node(boundingBox: Box, left: Node<P>, right: Node<P>, primitives: seq<P>, primitivesSize: nat)

  /** `BVH_Tree`: the handle owning the root. */
  datatype Tree<P> = Tree(root: Node<P>)

  /** The `is_leaf` macro: no node lies below a leaf. */
  predicate IsLeaf<P>(node: Node<P>)
    requires node.Node?
    ensures IsLeaf(node) <==> forall p :: Reaches(node, p) ==> p == []
  {
    NothingBelowIffNoChildren(node);
    node.left.Null? && node.right.Null?
  }

  /** A node has no child exactly when every path from it that reaches a node is empty. */
  lemma NothingBelowIffNoChildren<P>(node: Node<P>)
    requires node.Node?
    ensures node.left.Null? && node.right.Null? <==> forall p :: Reaches(node, p) ==> p == []
  {
    if node.left.Null? && node.right.Null? {
      forall p | p != [] ensures !Reaches(node, p) {
        assert !Reaches(if p[0] then node.right else node.left, p[1..]);
      }
    } else {
      var w: Path := if node.left.Node? then [false] else [true];
      assert w[1..] == [];
      assert Reaches(node, w) && w != [];
      assert exists p :: Reaches(node, p) && p != [];
    }
  }

  /** Following `p` from `node` ends at a node, never at NULL. */
  predicate Reaches<P>(node: Node<P>, p: Path)
    decreases |p|
  {
    node.Node? && (p == [] || Reaches(if p[0] then node.right else node.left, p[1..]))
  }

  /** Every node's count stays within its two-slot store. */
  predicate WellFormed<P>(node: Node<P>) {
    match node
    case Null => true
    case Node(_, left, right, primitives, size) =>
      size <= |primitives| <= 2 && WellFormed(left) && WellFormed(right)
  }

  /** The primitives that leaves hold in their counted slots, left to right.
      Only these are ever consulted by the queries. */
  function Stored<P>(node: Node<P>): seq<P>
    requires WellFormed(node)
  {
    match node
    case Null => []
    case Node(_, left, right, primitives, size) =>
      if IsLeaf(node) then primitives[..size] else Stored(left) + Stored(right)
  }

  /** A path from a node: `false` steps to the left child, `true` to the right. */
  type Path = seq<bool>

  /** Every node's box contains the box of every primitive stored in the leaves below it. */
  ghost predicate Covers<P(!new)>(env: Env<P>, node: Node<P>)
    requires WellFormed(node)
  {
    match node
    case Null => true
    case Node(box, left, right, _, _) =>
      && (forall x :: x in Stored(node) ==> Contains(box, env.primitiveBox(x)))
      && Covers(env, left) && Covers(env, right)
  }
}
