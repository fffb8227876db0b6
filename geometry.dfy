/** Vectors, axis-aligned bounding boxes and rays, with the box union that the
    BVH builder uses to grow its left and right accumulators (`expand_aabb`).
    Coordinates are mathematical integers: the IEEE details of `fmin`/`fmax`
    (NaN, signed zero) are not modelled. */
module Geometry {

  datatype Vec3 = Vec3(x: int, y: int, z: int)

  /** raylib's `Vector3Zero()`, the "no hit" value of the ray query. */
  const Zero := Vec3(0, 0, 0)

  /** The `is_zero_vector` macro: all three components are zero. */
  predicate IsZeroVector(v: Vec3)
    ensures IsZeroVector(v) <==> v == Zero
  {
    v.x == 0 && v.y == 0 && v.z == 0
  }

  datatype Box = Box(min: Vec3, max: Vec3)

  datatype Ray = Ray(position: Vec3, direction: Vec3)

  /** What raylib's `GetRayCollisionBox` reports; only `hit` and `point` are read by the core. */
  datatype RayCollision = RayCollision(hit: bool, point: Vec3)

  /** `outer` contains `inner`: on every axis, outer's lower bound is at or below
      inner's and outer's upper bound is at or above inner's. */
  predicate Contains(outer: Box, inner: Box) {
    && outer.min.x <= inner.min.x && outer.min.y <= inner.min.y && outer.min.z <= inner.min.z
    && inner.max.x <= outer.max.x && inner.max.y <= outer.max.y && inner.max.z <= outer.max.z
  }

  function Min(a: int, b: int): int { if a <= b then a else b }
  function Max(a: int, b: int): int { if a <= b then b else a }

  /** `expand_aabb`: the smallest box containing both `a` and `b`. */
  function ExpandAabb(a: Box, b: Box): (r: Box)
    ensures Contains(r, a) && Contains(r, b)
  {
    Box(Vec3(Min(a.min.x, b.min.x), Min(a.min.y, b.min.y), Min(a.min.z, b.min.z)),
        Vec3(Max(a.max.x, b.max.x), Max(a.max.y, b.max.y), Max(a.max.z, b.max.z)))
  }

  /** No box smaller than the union contains both operands. */
  lemma ExpandLeast(a: Box, b: Box, c: Box)
    requires Contains(c, a) && Contains(c, b)
    ensures Contains(c, ExpandAabb(a, b))
  {
  }

  /** Containment is a partial order on boxes: two boxes that contain each other are equal. */
  lemma ContainsAntisymmetric(a: Box, b: Box)
    requires Contains(a, b) && Contains(b, a)
    ensures a == b
  {
  }

  lemma ExpandCommutative(a: Box, b: Box)
    ensures ExpandAabb(a, b) == ExpandAabb(b, a)
  {
  }

  lemma ExpandAssociative(a: Box, b: Box, c: Box)
    ensures ExpandAabb(ExpandAabb(a, b), c) == ExpandAabb(a, ExpandAabb(b, c))
  {
  }

  lemma ExpandIdempotent(a: Box)
    ensures ExpandAabb(a, a) == a
  {
  }

  /** Expanding a box by one it already contains changes nothing. */
  lemma ExpandAbsorbs(a: Box, h: Box)
    requires Contains(h, a)
    ensures ExpandAabb(a, h) == h && ExpandAabb(h, a) == h
  {
  }

  /** The accumulator of the builder's loops: `seed` expanded by each box of `bs` in turn. */
  function ExpandAll(seed: Box, bs: seq<Box>): Box
    decreases |bs|
  {
    if bs == [] then seed else ExpandAabb(ExpandAll(seed, bs[..|bs| - 1]), bs[|bs| - 1])
  }

  /** The union of a non-empty sequence of boxes. */
  function Hull(bs: seq<Box>): Box
    requires bs != []
  {
    ExpandAll(bs[0], bs[1..])
  }

  /** The hull contains every box of the sequence ... */
  lemma {:induction false} HullContainsEach(bs: seq<Box>, i: nat)
    requires i < |bs|
    ensures Contains(Hull(bs), bs[i])
    decreases |bs|
  {
    if |bs| > 1 {
      var init := bs[..|bs| - 1];
      assert bs[1..][..|bs[1..]| - 1] == init[1..];
      assert Hull(bs) == ExpandAabb(Hull(init), bs[|bs| - 1]);
      if i < |bs| - 1 {
        HullContainsEach(init, i);
        assert init[i] == bs[i];
      }
    }
  }

  /** ... and is contained in every box that contains them all. */
  lemma {:induction false} HullLeast(bs: seq<Box>, c: Box)
    requires bs != []
    requires forall i :: 0 <= i < |bs| ==> Contains(c, bs[i])
    ensures Contains(c, Hull(bs))
    decreases |bs|
  {
    if |bs| > 1 {
      var init := bs[..|bs| - 1];
      assert bs[1..][..|bs[1..]| - 1] == init[1..];
      assert Hull(bs) == ExpandAabb(Hull(init), bs[|bs| - 1]);
      forall i | 0 <= i < |init| ensures Contains(c, init[i]) {
        assert init[i] == bs[i];
      }
      HullLeast(init, c);
      ExpandLeast(Hull(init), bs[|bs| - 1], c);
    }
  }

  /** Folding from a seed is the seed expanded by the hull of the rest. */
  lemma {:induction false} ExpandAllIsSeedAndHull(seed: Box, bs: seq<Box>)
    requires bs != []
    ensures ExpandAll(seed, bs) == ExpandAabb(seed, Hull(bs))
    decreases |bs|
  {
    if |bs| > 1 {
      var init := bs[..|bs| - 1];
      ExpandAllIsSeedAndHull(seed, init);
      assert bs[1..][..|bs[1..]| - 1] == init[1..];
      assert Hull(bs) == ExpandAabb(Hull(init), bs[|bs| - 1]);
      ExpandAssociative(seed, Hull(init), bs[|bs| - 1]);
    }
  }

  /** Seeding the fold with one of the folded boxes gives exactly the hull: the
      builder's left accumulator, seeded with the median box and then expanded by
      the boxes up to and including the median, is the union of those boxes. */
  lemma SeedFromMemberIsHull(bs: seq<Box>, k: nat)
    requires k < |bs|
    ensures ExpandAll(bs[k], bs) == Hull(bs)
  {
    ExpandAllIsSeedAndHull(bs[k], bs);
    HullContainsEach(bs, k);
    ExpandAbsorbs(bs[k], Hull(bs));
  }

  /** Two sequences holding the same boxes, in any order or multiplicity, have the same hull. */
  lemma HullSameElements(bs: seq<Box>, cs: seq<Box>)
    requires bs != [] && cs != []
    requires forall b :: b in bs <==> b in cs
    ensures Hull(bs) == Hull(cs)
  {
    forall i | 0 <= i < |cs| ensures Contains(Hull(bs), cs[i]) {
      assert cs[i] in bs;
      var j :| 0 <= j < |bs| && bs[j] == cs[i];
      HullContainsEach(bs, j);
    }
    HullLeast(cs, Hull(bs));
    forall i | 0 <= i < |bs| ensures Contains(Hull(cs), bs[i]) {
      assert bs[i] in cs;
      var j :| 0 <= j < |cs| && cs[j] == bs[i];
      HullContainsEach(cs, j);
    }
    HullLeast(bs, Hull(cs));
    ContainsAntisymmetric(Hull(bs), Hull(cs));
  }

  /** The hull of a concatenation is the union of the two hulls. */
  lemma HullConcat(bs: seq<Box>, cs: seq<Box>)
    requires bs != [] && cs != []
    ensures Hull(bs + cs) == ExpandAabb(Hull(bs), Hull(cs))
  {
    var u := ExpandAabb(Hull(bs), Hull(cs));
    forall i | 0 <= i < |bs + cs| ensures Contains(u, (bs + cs)[i]) {
      if i < |bs| {
        HullContainsEach(bs, i);
      } else {
        HullContainsEach(cs, i - |bs|);
      }
    }
    HullLeast(bs + cs, u);
    forall i | 0 <= i < |bs| ensures Contains(Hull(bs + cs), bs[i]) {
      HullContainsEach(bs + cs, i);
    }
    HullLeast(bs, Hull(bs + cs));
    forall i | 0 <= i < |cs| ensures Contains(Hull(bs + cs), cs[i]) {
      HullContainsEach(bs + cs, |bs| + i);
    }
    HullLeast(cs, Hull(bs + cs));
    ContainsAntisymmetric(Hull(bs + cs), u);
  }
}
