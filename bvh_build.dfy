/** The BVH builder of src/bvh/bvh_build.c.

    `Build` is the value the recursive builder computes from a slice of the
    primitive array: the node it returns and the slice's contents afterwards.
    The methods `CreateImpl` and `TreeCreate` perform the build in place on an
    array and are proved to produce exactly `Build`'s result; `Qsort` writes the
    sort's result over a slice, and `LeftAabb` and `RightAabb` compute the unions
    of boxes that `Build` hands the children. The lemmas then say what `Build`'s
    result is. */
module BvhBuild {
  import opened Geometry
  import opened Bvh

  /** The boxes of the primitives of `s`, in order. */
  function Boxes<P(!new)>(env: Env<P>, s: seq<P>): (bs: seq<Box>)
    ensures |bs| == |s| && forall i :: 0 <= i < |s| ==> bs[i] == env.primitiveBox(s[i])
  {
    seq(|s|, i requires 0 <= i < |s| => env.primitiveBox(s[i]))
  }

  /** `whole` with the slice starting at `lo` replaced by `part`. */
  function Splice<P>(whole: seq<P>, lo: nat, part: seq<P>): (r: seq<P>)
    requires lo + |part| <= |whole|
    ensures |r| == |whole|
  {
    whole[..lo] + part + whole[lo + |part|..]
  }

  /** A slice inside the written range reads the written part ... */
  lemma SpliceInside<P>(whole: seq<P>, lo: nat, part: seq<P>, i: nat, j: nat)
    requires lo + |part| <= |whole| && lo <= i <= j <= lo + |part|
    ensures Splice(whole, lo, part)[i..j] == part[i - lo..j - lo]
  {
    var r := Splice(whole, lo, part);
    assert r[i..j] == (whole[..lo] + part + whole[lo + |part|..])[i..j];
    forall k | 0 <= k < j - i ensures r[i..j][k] == part[i - lo..j - lo][k] {
      assert r[i..j][k] == r[i + k];
    }
  }

  /** ... and one outside it reads what was there before. */
  lemma SpliceOutside<P>(whole: seq<P>, lo: nat, part: seq<P>, i: nat, j: nat)
    requires lo + |part| <= |whole| && i <= j <= |whole|
    requires j <= lo || lo + |part| <= i
    ensures Splice(whole, lo, part)[i..j] == whole[i..j]
  {
    var r := Splice(whole, lo, part);
    forall k | 0 <= k < j - i ensures r[i..j][k] == whole[i..j][k] {
      assert r[i..j][k] == r[i + k];
    }
  }

  /** Writing a slice in two adjacent pieces is writing their concatenation. */
  lemma SpliceTwice<P>(whole: seq<P>, lo: nat, first: seq<P>, mid: seq<P>, second: seq<P>)
    requires lo + |first| + |second| <= |whole| && |mid| == |first| + |second|
    ensures Splice(Splice(Splice(whole, lo, mid), lo, first), lo + |first|, second)
         == Splice(whole, lo, first + second)
  {
    var r := Splice(Splice(Splice(whole, lo, mid), lo, first), lo + |first|, second);
    var t := Splice(whole, lo, first + second);
    forall k | 0 <= k < |r| ensures r[k] == t[k] {
    }
  }

  /** `bvh_node_create`: a node with the given box and no children. A slice of one
      primitive fills both slots with it and counts 1; a slice of two stores both,
      in the given order, and counts 2; any other slice stores nothing. */
  function NodeCreate<P>(primitives: seq<P>, box: Box): (node: Node<P>)
    ensures node.Node? && node.boundingBox == box && IsLeaf(node) && WellFormed(node)
    ensures node.primitivesSize == (if |primitives| <= 2 then |primitives| else 0)
    ensures Stored(node) == if |primitives| <= 2 then primitives else []
    ensures |primitives| == 1 ==> node.primitives == [primitives[0], primitives[0]]
  {
    if |primitives| == 1 then Node(box, Null, Null, [primitives[0], primitives[0]], 1)
    else if |primitives| == 2 then Node(box, Null, Null, [primitives[0], primitives[1]], 2)
    else Node(box, Null, Null, [], 0)
  }

  /** `bvh_tree_create_impl` on a slice holding `s`: the node returned, and the
      slice's contents after the in-place sorts of this call and all calls below it.
      The left child gets the union of the boxes of `sorted[0..median]` (median
      included) and the right child the union of those of `sorted[median..n)`. */
  function Build<P(!new)>(env: Env<P>, s: seq<P>, box: Box): (r: (Node<P>, seq<P>))
    ensures |r.1| == |s|
    ensures WellFormed(r.0)
    ensures r.0.Null? <==> |s| < 2
    ensures r.0.Node? ==> r.0.boundingBox == box
    decreases |s|
  {
    if |s| < 2 then (Null, s)
    else
      var node := NodeCreate(s, box);
      var sorted := env.qsort(box, s);
      SortLength(env, box, s);
      var median := |s| / 2;
      var leftBox := Hull(Boxes(env, sorted[..median + 1]));
      var rightBox := Hull(Boxes(env, sorted[median..]));
      var left := Build(env, sorted[..median], leftBox);
      var right := Build(env, sorted[median..], rightBox);
      (node.(left := left.0, right := right.0), left.1 + right.1)
  }

  /** `qsort(primitives, n, ..., compare_by_longest_axis(box))` on the slice
      `a[lo..hi]`: the slice becomes the sorted permutation of what it held,
      nothing else changes. */
  method Qsort<P(!new)>(env: Env<P>, a: array<P>, lo: nat, hi: nat, box: Box)
    requires env.SortValid()
    requires lo <= hi <= a.Length
    modifies a
    ensures a[..] == Splice(old(a[..]), lo, env.qsort(box, old(a[lo..hi])))
    ensures multiset(a[lo..hi]) == multiset(old(a[lo..hi]))
    ensures env.SortedBy(box, a[lo..hi])
  {
    ghost var s := a[lo..hi];
    var sorted := env.qsort(box, a[lo..hi]);
    SortLength(env, box, s);
    for i := lo to hi
      invariant forall k :: 0 <= k < a.Length ==> a[k] == if lo <= k < i then sorted[k - lo] else old(a[k])
    {
      a[i] := sorted[i - lo];
    }
    assert a[lo..hi] == sorted;
    assert a[..] == Splice(old(a[..]), lo, sorted);
    assert env.SortsCorrectly(box, s);
  }

  /** The left accumulator of `bvh_tree_create_impl`: seeded with the box of the
      median primitive `a[mid]`, then expanded by the box of every primitive from
      the start of the slice up to and including the median. It is the union of
      those boxes. */
  method LeftAabb<P(!new)>(env: Env<P>, a: array<P>, lo: nat, mid: nat) returns (leftBox: Box)
    requires lo <= mid < a.Length
    ensures leftBox == Hull(Boxes(env, a[lo..mid + 1]))
  {
    var medianPrimitive := a[mid];
    leftBox := env.primitiveBox(medianPrimitive);
    for i := lo to mid + 1
      invariant leftBox == ExpandAll(env.primitiveBox(medianPrimitive), Boxes(env, a[lo..i]))
    {
      assert Boxes(env, a[lo..i + 1])[..i - lo] == Boxes(env, a[lo..i]);
      leftBox := ExpandAabb(leftBox, env.primitiveBox(a[i]));
    }
    SeedFromMemberIsHull(Boxes(env, a[lo..mid + 1]), mid - lo);
  }

  /** The right accumulator: seeded with the median primitive's box, then expanded
      by the box of every primitive after the median. It is the union of the boxes
      from the median to the end of the slice. */
  method RightAabb<P(!new)>(env: Env<P>, a: array<P>, mid: nat, hi: nat) returns (rightBox: Box)
    requires mid < hi <= a.Length
    ensures rightBox == Hull(Boxes(env, a[mid..hi]))
  {
    var medianPrimitive := a[mid];
    rightBox := env.primitiveBox(medianPrimitive);
    for i := mid + 1 to hi
      invariant rightBox == ExpandAll(env.primitiveBox(medianPrimitive), Boxes(env, a[mid + 1..i]))
    {
      assert Boxes(env, a[mid + 1..i + 1])[..i - mid - 1] == Boxes(env, a[mid + 1..i]);
      rightBox := ExpandAabb(rightBox, env.primitiveBox(a[i]));
    }
    assert Boxes(env, a[mid..hi])[1..] == Boxes(env, a[mid + 1..hi]);
  }

  /** `bvh_tree_create_impl` on the slice `a[lo..hi]` (the C code passes the
      slice as a pointer and a length; the left recursion gets `primitives, median`
      and the right one `primitives + median, n - median`). */
  method CreateImpl<P(!new)>(env: Env<P>, a: array<P>, lo: nat, hi: nat, box: Box) returns (node: Node<P>)
    requires env.SortValid()
    requires lo <= hi <= a.Length
    modifies a
    ensures node == Build(env, old(a[lo..hi]), box).0
    ensures a[..] == Splice(old(a[..]), lo, Build(env, old(a[lo..hi]), box).1)
    decreases hi - lo
  {
    var n := hi - lo;
    if n < 2 {
      return Null;
    }
    ghost var a0 := a[..];
    assert |a0[lo..hi]| == n;
    node := NodeCreate(a[lo..hi], box);

    Qsort(env, a, lo, hi, box);
    ghost var a1 := a[..];

    var median := n / 2;
    var mid := lo + median;
    var leftBox := LeftAabb(env, a, lo, mid);
    var rightBox := RightAabb(env, a, mid, hi);

    var left := CreateImpl(env, a, lo, mid, leftBox);
    ghost var a2 := a[..];
    var right := CreateImpl(env, a, mid, hi, rightBox);

    ghost var sorted := env.qsort(box, a0[lo..hi]);
    SortLength(env, box, a0[lo..hi]);
    CreateImplStates((t, b) => Build(env, t, b), t => Boxes(env, t),
                     a0, lo, median, mid, hi, sorted, a1, a2, a[..], leftBox, rightBox);
    assert 2 <= |a0[lo..hi]| && median == |a0[lo..hi]| / 2;
    assert leftBox == Hull(Boxes(env, sorted[..median + 1]));
    assert rightBox == Hull(Boxes(env, sorted[median..]));
    BuildComposes(env, a0[lo..hi], box, median, sorted, leftBox, rightBox,
                  Build(env, sorted[..median], leftBox), Build(env, sorted[median..], rightBox));

    node := node.(left := left, right := right);
  }

  /** After the sort has written `sorted` over `[lo..hi)`, the pieces the
      recursions and the box accumulators read are the pieces of `sorted`. */
  lemma SortedPieces<P>(a0: seq<P>, lo: nat, mid: nat, hi: nat, m: nat, sorted: seq<P>, a1: seq<P>)
    requires mid == lo + m && mid < hi <= |a0| && |sorted| == hi - lo
    requires a1 == Splice(a0, lo, sorted)
    ensures a1[lo..mid] == sorted[..m] && a1[lo..mid + 1] == sorted[..m + 1] && a1[mid..hi] == sorted[m..]
  {
    SpliceInside(a0, lo, sorted, lo, mid + 1);
    SpliceInside(a0, lo, sorted, mid, hi);
    SpliceInside(a0, lo, sorted, lo, mid);
  }

  /** The array states one `CreateImpl` call on `[lo..hi)` passes through, for
      any builder `build` and any function `boxes` of a slice: the sort
      writes `sorted` over the slice (`a1`), the left recursion writes its result
      over `[lo..mid)` (`a2`) and the right one over `[mid..hi)` (`a3`). Each
      recursion and each box is then computed from the matching piece of `sorted`,
      and together the recursions write the concatenation of their results. */
  lemma CreateImplStates<P>(build: (seq<P>, Box) -> (Node<P>, seq<P>), boxes: seq<P> -> seq<Box>,
                            a0: seq<P>, lo: nat, m: nat, mid: nat, hi: nat, sorted: seq<P>,
                            a1: seq<P>, a2: seq<P>, a3: seq<P>, leftBox: Box, rightBox: Box)
    requires lo < mid < hi <= |a0| && mid == lo + m && |sorted| == hi - lo
    requires a1 == Splice(a0, lo, sorted)
    requires |build(a1[lo..mid], leftBox).1| == m
    requires a2 == Splice(a1, lo, build(a1[lo..mid], leftBox).1)
    requires |build(a2[mid..hi], rightBox).1| == hi - mid
    requires a3 == Splice(a2, mid, build(a2[mid..hi], rightBox).1)
    ensures boxes(a1[lo..mid + 1]) == boxes(sorted[..m + 1]) && boxes(a1[mid..hi]) == boxes(sorted[m..])
    ensures build(a1[lo..mid], leftBox) == build(sorted[..m], leftBox)
    ensures build(a2[mid..hi], rightBox) == build(sorted[m..], rightBox)
    ensures a3 == Splice(a0, lo, build(sorted[..m], leftBox).1 + build(sorted[m..], rightBox).1)
  {
    var l := build(a1[lo..mid], leftBox);
    var r := build(a2[mid..hi], rightBox);
    SortedPieces(a0, lo, mid, hi, m, sorted, a1);
    SpliceOutside(a1, lo, l.1, mid, hi);
    SpliceTwice(a0, lo, l.1, sorted, r.1);
  }

  /** `Build` on a slice of at least two primitives assembles the node created for
      the slice with the results of building the two halves of the sorted slice. */
  lemma BuildComposes<P(!new)>(env: Env<P>, s: seq<P>, box: Box, m: nat, sorted: seq<P>,
                               leftBox: Box, rightBox: Box, l: (Node<P>, seq<P>), r: (Node<P>, seq<P>))
    requires 2 <= |s| && m == |s| / 2
    requires sorted == env.qsort(box, s)
    requires leftBox == Hull(Boxes(env, sorted[..m + 1]))
    requires rightBox == Hull(Boxes(env, sorted[m..]))
    requires l == Build(env, sorted[..m], leftBox)
    requires r == Build(env, sorted[m..], rightBox)
    ensures var created := NodeCreate(s, box);
            Build(env, s, box) == (created.(left := l.0, right := r.0), l.1 + r.1)
  {
  }

  /** One level of `Build` on a slice of at least two primitives. */
  lemma BuildStep<P(!new)>(env: Env<P>, s: seq<P>, box: Box)
    requires 2 <= |s|
    ensures var sorted := env.qsort(box, s);
            var m := |s| / 2;
            var l := Build(env, sorted[..m], Hull(Boxes(env, sorted[..m + 1])));
            var r := Build(env, sorted[m..], Hull(Boxes(env, sorted[m..])));
            var created := NodeCreate(s, box);
            Build(env, s, box) == (created.(left := l.0, right := r.0), l.1 + r.1)
  {
  }

  /** A slice of more than two primitives gives an internal node that stores
      nothing itself: its children are built from the two halves of the sorted
      slice, the right one always exists, and its leaves hold exactly theirs. */
  lemma BuildSplit<P(!new)>(env: Env<P>, s: seq<P>, box: Box)
    returns (sorted: seq<P>, m: nat, l: (Node<P>, seq<P>), r: (Node<P>, seq<P>))
    requires env.SortValid() && 2 < |s|
    ensures sorted == env.qsort(box, s) && |sorted| == |s| && m == |s| / 2 && 0 < m < |s|
    ensures l == Build(env, sorted[..m], Hull(Boxes(env, sorted[..m + 1])))
    ensures r == Build(env, sorted[m..], Hull(Boxes(env, sorted[m..])))
    ensures Build(env, s, box) == (Node(box, l.0, r.0, [], 0), l.1 + r.1)
    ensures r.0.Node? && !IsLeaf(Build(env, s, box).0)
    ensures Stored(Build(env, s, box).0) == Stored(l.0) + Stored(r.0)
    ensures multiset(sorted) == multiset(s) && multiset(sorted[..m]) + multiset(sorted[m..]) == multiset(s)
  {
    sorted := env.qsort(box, s);
    SortLength(env, box, s);
    m := |s| / 2;
    assert 0 < m && m + 2 <= |sorted|;
    l := Build(env, sorted[..m], Hull(Boxes(env, sorted[..m + 1])));
    r := Build(env, sorted[m..], Hull(Boxes(env, sorted[m..])));
    BuildStep(env, s, box);
    SortPermutes(env, box, s);
    SplitMultiset(sorted, m);
    InternalStored(Build(env, s, box).0, box, l.0, r.0);
  }

  /** Cutting a sequence in two keeps every element, with its multiplicity. */
  lemma SplitMultiset<P>(s: seq<P>, m: nat)
    requires m <= |s|
    ensures multiset(s[..m]) + multiset(s[m..]) == multiset(s)
  {
    assert s == s[..m] + s[m..];
  }

  /** A node that stores nothing itself and has a right child is no leaf, and its
      leaves are those of its children, left first. */
  lemma InternalStored<P>(node: Node<P>, box: Box, left: Node<P>, right: Node<P>)
    requires node == Node(box, left, right, [], 0) && right.Node?
    requires WellFormed(left) && WellFormed(right)
    ensures WellFormed(node) && !IsLeaf(node) && Stored(node) == Stored(left) + Stored(right)
  {
  }

  /** The build only reorders the slice: afterwards it holds the same primitives,
      each as often as before. */
  lemma {:induction false} BuildPermutes<P(!new)>(env: Env<P>, s: seq<P>, box: Box)
    requires env.SortValid()
    ensures multiset(Build(env, s, box).1) == multiset(s)
    decreases |s|
  {
    if |s| > 2 {
      var sorted, m, l, r := BuildSplit(env, s, box);
      BuildPermutes(env, sorted[..m], Hull(Boxes(env, sorted[..m + 1])));
      BuildPermutes(env, sorted[m..], Hull(Boxes(env, sorted[m..])));
      assert multiset(l.1 + r.1) == multiset(l.1) + multiset(r.1);
    } else if |s| == 2 {
      BuildStep(env, s, box);
      var sorted := env.qsort(box, s);
      SortPermutes(env, box, s);
      SortLength(env, box, s);
      assert Build(env, s, box).1 == sorted[..1] + sorted[1..];
      assert sorted == sorted[..1] + sorted[1..];
    }
  }

  /** `bvh_tree_create`: the tree's root is the builder's node for the whole array prefix. */
  method TreeCreate<P(!new)>(env: Env<P>, primitives: array<P>, primitivesSize: nat, sceneBox: Box)
    returns (tree: Tree<P>)
    requires env.SortValid()
    requires primitivesSize <= primitives.Length
    modifies primitives
    ensures tree.root == Build(env, old(primitives[..primitivesSize]), sceneBox).0
    ensures primitives[..] == Splice(old(primitives[..]), 0, Build(env, old(primitives[..primitivesSize]), sceneBox).1)
  {
    var root := CreateImpl(env, primitives, 0, primitivesSize, sceneBox);
    tree := Tree(root);
  }

  /** How many primitives the leaves of a tree built from `n` primitives hold:
      slices of fewer than two primitives give no node at all, a slice of two
      gives a leaf holding both, and larger slices split at `n / 2`. */
  function StoredCount(n: nat): nat
  {
    if n < 2 then 0 else if n == 2 then 2 else StoredCount(n / 2) + StoredCount(n - n / 2)
  }

  /** The tree built from `s` holds `StoredCount(|s|)` primitives, all drawn from `s`
      (with multiplicity). */
  lemma {:induction false} BuildStored<P(!new)>(env: Env<P>, s: seq<P>, box: Box)
    requires env.SortValid()
    ensures |Stored(Build(env, s, box).0)| == StoredCount(|s|)
    ensures multiset(Stored(Build(env, s, box).0)) <= multiset(s)
    decreases |s|
  {
    if |s| == 2 {
      BuildPair(env, s, box);
    } else if |s| > 2 {
      var sorted, m, l, r := BuildSplit(env, s, box);
      BuildStored(env, sorted[..m], Hull(Boxes(env, sorted[..m + 1])));
      BuildStored(env, sorted[m..], Hull(Boxes(env, sorted[m..])));
      StoredStep(Stored(l.0), Stored(r.0), s, sorted, m);
    }
  }

  /** A slice stored completely loses nothing: then the leaves hold exactly `s`'s elements. */
  lemma BuildStoresAllWhenCountFull<P(!new)>(env: Env<P>, s: seq<P>, box: Box)
    requires env.SortValid() && StoredCount(|s|) == |s|
    ensures multiset(Stored(Build(env, s, box).0)) == multiset(s)
  {
    BuildStored(env, s, box);
    var st := Stored(Build(env, s, box).0);
    SubmultisetOfSameSize(multiset(st), multiset(s));
  }

  /** The counting step of `BuildStored`: leaves holding `sl` and `sr`, drawn from
      the two halves of a permutation of `s`, together hold `StoredCount(|s|)`
      primitives drawn from `s`. */
  lemma StoredStep<P>(sl: seq<P>, sr: seq<P>, s: seq<P>, sorted: seq<P>, m: nat)
    requires 2 < |s| && |sorted| == |s| && m == |s| / 2
    requires |sl| == StoredCount(|sorted[..m]|) && |sr| == StoredCount(|sorted[m..]|)
    requires multiset(sl) <= multiset(sorted[..m]) && multiset(sr) <= multiset(sorted[m..])
    requires multiset(sorted[..m]) + multiset(sorted[m..]) == multiset(s)
    ensures |sl + sr| == StoredCount(|s|) && multiset(sl + sr) <= multiset(s)
  {
    assert |sorted[..m]| == m && |sorted[m..]| == |s| - m;
    assert multiset(sl + sr) == multiset(sl) + multiset(sr);
  }

  lemma {:induction false} SubmultisetOfSameSize<T>(a: multiset<T>, b: multiset<T>)
    requires a <= b && |a| == |b|
    ensures a == b
    decreases |b|
  {
    if |a| > 0 {
      var x :| x in a;
      SubmultisetOfSameSize(a - multiset{x}, b - multiset{x});
      assert a == (a - multiset{x}) + multiset{x};
      assert b == (b - multiset{x}) + multiset{x};
    } else {
      assert a == multiset{} && b == multiset{};
    }
  }

  /** Nothing is stored more often than it is given. */
  lemma {:induction false} StoredCountAtMost(n: nat)
    ensures StoredCount(n) <= n
  {
    if n > 2 {
      StoredCountAtMost(n / 2);
      StoredCountAtMost(n - n / 2);
    }
  }

  /** `n` is a power of two. */
  predicate IsPowerOfTwo(n: nat)
  {
    n == 1 || (n >= 2 && n % 2 == 0 && IsPowerOfTwo(n / 2))
  }

  /** Every primitive of a slice of at least two ends up in a leaf exactly when the
      slice's length is a power of two; for any other length some are stored nowhere. */
  lemma {:induction false} StoredCountFullIffPowerOfTwo(n: nat)
    requires n >= 2
    ensures StoredCount(n) == n <==> IsPowerOfTwo(n)
  {
    if n > 2 {
      var k := n / 2;
      StoredCountAtMost(k);
      StoredCountAtMost(n - k);
      if n % 2 == 0 {
        if k >= 2 {
          StoredCountFullIffPowerOfTwo(k);
        }
      } else {
        assert !IsPowerOfTwo(n);
        if k == 1 {
          assert StoredCount(n) == 2;
        } else {
          StoredCountFullIffPowerOfTwo(k);
          StoredCountFullIffPowerOfTwo(k + 1);
          OddNotPowerOfTwo(k, k + 1);
        }
      }
    }
  }

  /** Of two consecutive numbers, both at least two, at most one is a power of two. */
  lemma OddNotPowerOfTwo(k: nat, k1: nat)
    requires k >= 2 && k1 == k + 1
    ensures !(IsPowerOfTwo(k) && IsPowerOfTwo(k1))
  {
  }

  /** Two primitives make a leaf holding both in the order they had before the
      sort, counted 2: the median is 1 and both halves are single primitives, which
      give no node. */
  lemma BuildPair<P(!new)>(env: Env<P>, s: seq<P>, box: Box)
    requires |s| == 2
    ensures Build(env, s, box).0 == Node(box, Null, Null, s, 2)
  {
    BuildStep(env, s, box);
    assert s == [s[0], s[1]];
  }

  /** The shape of every node the builder makes: a leaf holds exactly two
      primitives, an internal node holds none and has a right child. Hence a
      node is a leaf iff its count is 2, and no node ever has count 1. */
  predicate Shaped<P>(node: Node<P>)
  {
    match node
    case Null => true
    case Node(_, left, right, primitives, size) =>
      && (if IsLeaf(node) then size == 2 && |primitives| == 2 else size == 0 && primitives == [] && right.Node?)
      && Shaped(left) && Shaped(right)
  }

  lemma {:induction false} BuildShaped<P(!new)>(env: Env<P>, s: seq<P>, box: Box)
    requires env.SortValid()
    ensures Shaped(Build(env, s, box).0)
    decreases |s|
  {
    if |s| == 2 {
      BuildPair(env, s, box);
    } else if |s| > 2 {
      var sorted, m, l, r := BuildSplit(env, s, box);
      BuildShaped(env, sorted[..m], Hull(Boxes(env, sorted[..m + 1])));
      BuildShaped(env, sorted[m..], Hull(Boxes(env, sorted[m..])));
    }
  }

  /** In a shaped tree a node is a leaf exactly when it counts two primitives. */
  lemma ShapedLeafIffTwo<P>(node: Node<P>)
    requires Shaped(node) && node.Node?
    ensures IsLeaf(node) <==> node.primitivesSize == 2
    ensures node.primitivesSize != 1
  {
  }

  /** With three primitives the leaves hold only the last two of the sorted slice:
      the first one, alone in the left half, is stored nowhere. */
  lemma BuildThree<P(!new)>(env: Env<P>, s: seq<P>, box: Box)
    requires env.SortValid() && |s| == 3
    ensures Stored(Build(env, s, box).0) == env.qsort(box, s)[1..]
  {
    var sorted, m, l, r := BuildSplit(env, s, box);
    BuildPair(env, sorted[1..], Hull(Boxes(env, sorted[1..])));
  }

  /** The boxes the builder gives a node's children: the left one contains the box
      of every primitive of the left half and of the median primitive, the right
      one is the union of the right half's boxes, and together they span exactly
      the union of the boxes of the whole slice. */
  lemma BuildChildBoxes<P(!new)>(env: Env<P>, s: seq<P>, box: Box)
    requires env.SortValid() && 2 < |s|
    ensures var node := Build(env, s, box).0;
            var sorted := env.qsort(box, s);
            var m := |s| / 2;
            && node.right.boundingBox == Hull(Boxes(env, sorted[m..]))
            && (forall i :: m <= i < |s| ==> Contains(node.right.boundingBox, env.primitiveBox(sorted[i])))
            && (node.left.Node? ==>
                  && node.left.boundingBox == Hull(Boxes(env, sorted[..m + 1]))
                  && (forall i :: 0 <= i <= m ==> Contains(node.left.boundingBox, env.primitiveBox(sorted[i])))
                  && ExpandAabb(node.left.boundingBox, node.right.boundingBox) == Hull(Boxes(env, s)))
  {
    var sorted, m, l, r := BuildSplit(env, s, box);
    var lb, rb := Boxes(env, sorted[..m + 1]), Boxes(env, sorted[m..]);
    forall i | m <= i < |s| ensures Contains(Hull(rb), env.primitiveBox(sorted[i])) {
      HullContainsEach(rb, i - m);
    }
    forall i | 0 <= i <= m ensures Contains(Hull(lb), env.primitiveBox(sorted[i])) {
      HullContainsEach(lb, i);
    }
    HullOfHalves(env, s, sorted, m);
  }

  /** Splitting a permutation of `s` at `m`, with the element at `m` in both
      halves, the two hulls together are the hull of `s`. */
  lemma HullOfHalves<P(!new)>(env: Env<P>, s: seq<P>, sorted: seq<P>, m: nat)
    requires |sorted| == |s| && multiset(sorted) == multiset(s) && m < |s|
    ensures ExpandAabb(Hull(Boxes(env, sorted[..m + 1])), Hull(Boxes(env, sorted[m..]))) == Hull(Boxes(env, s))
  {
    var lb, rb := Boxes(env, sorted[..m + 1]), Boxes(env, sorted[m..]);
    HullConcat(lb, rb);
    forall b ensures b in lb + rb <==> b in Boxes(env, s) {
      if b in lb + rb {
        var i :| 0 <= i < |lb + rb| && (lb + rb)[i] == b;
        var x := if i <= m then sorted[i] else sorted[i - 1];
        assert x in multiset(sorted);
        assert x in s;
        var j :| 0 <= j < |s| && s[j] == x;
        assert Boxes(env, s)[j] == b;
      }
      if b in Boxes(env, s) {
        var j :| 0 <= j < |s| && Boxes(env, s)[j] == b;
        assert s[j] in multiset(sorted);
        var i :| 0 <= i < |sorted| && sorted[i] == s[j];
        if i <= m {
          assert lb[i] == b;
        } else {
          assert rb[i - m] == b;
        }
      }
    }
    HullSameElements(lb + rb, Boxes(env, s));
  }

  /** When the box handed to `Build` contains the box of every primitive of the
      slice, every node's box contains the boxes of all primitives stored below it. */
  lemma {:induction false} BuildCovers<P(!new)>(env: Env<P>, s: seq<P>, box: Box)
    requires env.SortValid()
    requires forall x :: x in s ==> Contains(box, env.primitiveBox(x))
    ensures Covers(env, Build(env, s, box).0)
    decreases |s|
  {
    if |s| == 2 {
      BuildPair(env, s, box);
    } else if |s| > 2 {
      var sorted, m, l, r := BuildSplit(env, s, box);
      HullCoversPrefix(env, sorted[..m + 1], m);
      assert sorted[..m + 1][..m] == sorted[..m];
      HullCoversPrefix(env, sorted[m..], |s| - m);
      assert sorted[m..][..|s| - m] == sorted[m..];
      BuildCovers(env, sorted[..m], Hull(Boxes(env, sorted[..m + 1])));
      BuildCovers(env, sorted[m..], Hull(Boxes(env, sorted[m..])));
      BuildStored(env, s, box);
      CoversStep(env, Build(env, s, box).0, box, l.0, r.0, s);
    }
  }

  /** The hull of the boxes of `t` contains the box of every primitive of any prefix of `t`. */
  lemma HullCoversPrefix<P(!new)>(env: Env<P>, t: seq<P>, k: nat)
    requires k <= |t| && t != []
    ensures forall x :: x in t[..k] ==> Contains(Hull(Boxes(env, t)), env.primitiveBox(x))
  {
    forall x | x in t[..k] ensures Contains(Hull(Boxes(env, t)), env.primitiveBox(x)) {
      var i :| 0 <= i < k && t[..k][i] == x;
      HullContainsEach(Boxes(env, t), i);
    }
  }

  /** An internal node whose box contains the boxes of primitives drawn from `s`
      covers what its leaves store, provided both children do. */
  lemma CoversStep<P(!new)>(env: Env<P>, node: Node<P>, box: Box, left: Node<P>, right: Node<P>, s: seq<P>)
    requires node == Node(box, left, right, [], 0) && right.Node?
    requires WellFormed(left) && WellFormed(right) && Covers(env, left) && Covers(env, right)
    requires multiset(Stored(node)) <= multiset(s)
    requires forall x :: x in s ==> Contains(box, env.primitiveBox(x))
    ensures Covers(env, node)
  {
    forall x | x in Stored(node) ensures Contains(box, env.primitiveBox(x)) {
      assert x in multiset(Stored(node));
    }
  }

  /** Each path of `ps` preceded by one more step. */
  function Under(step: bool, ps: seq<Path>): (r: seq<Path>)
    ensures |r| == |ps| && forall i :: 0 <= i < |ps| ==> r[i] == [step] + ps[i]
  {
    seq(|ps|, i requires 0 <= i < |ps| => [step] + ps[i])
  }

  /** The order in which `free_bvh_node` releases the nodes below `node`, each
      named by its path from `node`: the left subtree, the right subtree, then the
      node itself. */
  function FreeOrder<P>(node: Node<P>): (order: seq<Path>)
    ensures order == [] <==> node.Null?
    ensures node.Node? ==> order[|order| - 1] == []
  {
    match node
    case Null => []
    case Node(_, left, right, _, _) => Under(false, FreeOrder(left)) + Under(true, FreeOrder(right)) + [[]]
  }

  lemma InUnder(step: bool, ps: seq<Path>, p: Path)
    ensures p in Under(step, ps) <==> |p| > 0 && p[0] == step && p[1..] in ps
  {
    if p in Under(step, ps) {
      var i :| 0 <= i < |ps| && Under(step, ps)[i] == p;
      assert p[1..] == ps[i];
    }
    if |p| > 0 && p[0] == step && p[1..] in ps {
      var i :| 0 <= i < |ps| && ps[i] == p[1..];
      assert Under(step, ps)[i] == p;
    }
  }

  /** Every node of the tree is released, and nothing else is. */
  lemma {:induction false} FreeOrderReleasesNodes<P>(node: Node<P>, p: Path)
    ensures p in FreeOrder(node) <==> Reaches(node, p)
    decreases node
  {
    if node.Node? {
      var ol, or := Under(false, FreeOrder(node.left)), Under(true, FreeOrder(node.right));
      assert FreeOrder(node) == ol + or + [[]];
      InUnder(false, FreeOrder(node.left), p);
      InUnder(true, FreeOrder(node.right), p);
      if p != [] {
        FreeOrderReleasesNodes(if p[0] then node.right else node.left, p[1..]);
      }
    }
  }

  /** A node released earlier is never the same as, nor an ancestor of, one
      released later: each node is released once, and only after all of its
      descendants. */
  lemma {:induction false} FreeOrderPostOrder<P>(node: Node<P>)
    ensures forall i, j :: 0 <= i < j < |FreeOrder(node)| ==> !(FreeOrder(node)[i] <= FreeOrder(node)[j])
    decreases node
  {
    if node.Node? {
      var fl, fr := FreeOrder(node.left), FreeOrder(node.right);
      FreeOrderPostOrder(node.left);
      FreeOrderPostOrder(node.right);
      var ol, or := Under(false, fl), Under(true, fr);
      var o := FreeOrder(node);
      assert o == ol + or + [[]];
      forall i, j | 0 <= i < j < |o| ensures !(o[i] <= o[j]) {
        if j == |o| - 1 {
          assert o[j] == [] && |o[i]| > 0;
        } else if j < |ol| {
          assert o[i] == [false] + fl[i] && o[j] == [false] + fl[j];
          assert !(fl[i] <= fl[j]);
          StepPrefix(false, fl[i], fl[j]);
        } else if i < |ol| {
          assert o[i] == [false] + fl[i] && o[j] == [true] + fr[j - |ol|];
          assert o[i][0] != o[j][0];
        } else {
          assert o[i] == [true] + fr[i - |ol|] && o[j] == [true] + fr[j - |ol|];
          assert !(fr[i - |ol|] <= fr[j - |ol|]);
          StepPrefix(true, fr[i - |ol|], fr[j - |ol|]);
        }
      }
    }
  }

  lemma StepPrefix(step: bool, p: Path, q: Path)
    ensures [step] + p <= [step] + q <==> p <= q
  {
    if [step] + p <= [step] + q {
      assert p == ([step] + p)[1..] && q[..|p|] == ([step] + q)[1..|p| + 1];
    }
  }
}
