/**
 * Axis-aligned boxes (`bounds3.rs`). The minimum corner is an extended-real
 * triple because the empty box has `p_min = +inf`; the maximum corner is a real
 * triple because the empty box has the finite `p_max = f32::MIN`.
 */
module Bounds {
  import opened Wrappers
  import opened ExtReal
  import opened Vectors
  import opened Rays

  datatype Bounds3 = Bounds3(pMin: EVec3, pMax: Vec3)

  /** No minimum corner is `-inf`; every box the renderer builds has this shape. */
  predicate WellFormed(b: Bounds3) {
    !b.pMin.x.NegInf? && !b.pMin.y.NegInf? && !b.pMin.z.NegInf?
  }

  /** Every corner coordinate is finite. */
  predicate IsFinite(b: Bounds3) {
    b.pMin.x.Fin? && b.pMin.y.Fin? && b.pMin.z.Fin?
  }

  /** `p_min <= p_max` on every axis. */
  predicate Ordered(b: Bounds3) {
    Le(b.pMin.x, Fin(b.pMax.x)) && Le(b.pMin.y, Fin(b.pMax.y)) && Le(b.pMin.z, Fin(b.pMax.z))
  }

  /** `outer` contains `inner` corner by corner. */
  predicate ContainsBox(outer: Bounds3, inner: Bounds3) {
    && Le(outer.pMin.x, inner.pMin.x) && Le(outer.pMin.y, inner.pMin.y) && Le(outer.pMin.z, inner.pMin.z)
    && inner.pMax.x <= outer.pMax.x && inner.pMax.y <= outer.pMax.y && inner.pMax.z <= outer.pMax.z
  }

  /** `Bounds3::inside`: closed on all six faces. */
  predicate Inside(p: Vec3, b: Bounds3) {
    && Le(b.pMin.x, Fin(p.x)) && p.x <= b.pMax.x
    && Le(b.pMin.y, Fin(p.y)) && p.y <= b.pMax.y
    && Le(b.pMin.z, Fin(p.z)) && p.z <= b.pMax.z
  }

  /** `Bounds3::new`: the corners are sorted per axis. */
  function New(p1: Vec3, p2: Vec3): (b: Bounds3)
    ensures IsFinite(b) && Ordered(b)
    ensures Inside(p1, b) && Inside(p2, b)
    ensures forall c: Bounds3 {:trigger ContainsBox(c, b)} :: Inside(p1, c) && Inside(p2, c) ==> ContainsBox(c, b)
  {
    Bounds3(EVec3(Fin(RMin(p1.x, p2.x)), Fin(RMin(p1.y, p2.y)), Fin(RMin(p1.z, p2.z))),
            Vec3(RMax(p1.x, p2.x), RMax(p1.y, p2.y), RMax(p1.z, p2.z)))
  }

  function RMin(a: real, b: real): real {
    if a <= b then a else b
  }

  function RMax(a: real, b: real): real {
    if a <= b then b else a
  }

  /** `Bounds3::default()`, the fold identity: `p_min = +inf`, `p_max = f32::MIN`. */
  function Default(): (b: Bounds3)
    ensures WellFormed(b)
    ensures forall p: Vec3 {:trigger Inside(p, b)} :: !Inside(p, b)
  {
    Bounds3(EVec3(PosInf, PosInf, PosInf), Vec3(F32_MIN, F32_MIN, F32_MIN))
  }

  /** `Bounds3::empty()`, the same value as the default. */
  function Empty(): (b: Bounds3)
    ensures b == Default()
  {
    Bounds3(EVec3(PosInf, PosInf, PosInf), Vec3(F32_MIN, F32_MIN, F32_MIN))
  }

  /** The maximum corner is a finite single-precision value on every axis. */
  predicate MaxAboveF32Min(b: Bounds3) {
    b.pMax.x >= F32_MIN && b.pMax.y >= F32_MIN && b.pMax.z >= F32_MIN
  }

  /** `diagonal`: `p_max - p_min` (`-inf` on an axis whose minimum is `+inf`). */
  function Diagonal(b: Bounds3): EVec3 {
    EVec3(RealSub(b.pMax.x, b.pMin.x), RealSub(b.pMax.y, b.pMin.y), RealSub(b.pMax.z, b.pMin.z))
  }

  /**
   * `max_extent`: the axis of largest extent; on a tie the later axis wins,
   * so X needs a strictly larger extent than both others.
   */
  function MaxExtent(b: Bounds3): (a: Axis)
    ensures forall c: Axis :: Le(Diagonal(b).Get(c), Diagonal(b).Get(a))
    ensures a == X ==> Lt(Diagonal(b).y, Diagonal(b).x) && Lt(Diagonal(b).z, Diagonal(b).x)
    ensures a == Y ==> Le(Diagonal(b).x, Diagonal(b).y) && Lt(Diagonal(b).z, Diagonal(b).y)
    ensures a == Z ==> Le(Diagonal(b).x, Diagonal(b).z) && Le(Diagonal(b).y, Diagonal(b).z)
  {
    var d := Diagonal(b);
    if Lt(d.y, d.x) && Lt(d.z, d.x) then X else if Lt(d.z, d.y) then Y else Z
  }

  /** `centroid_axis`: the midpoint of the box along `a`. */
  function CentroidAxis(b: Bounds3, a: Axis): (c: Ext)
    ensures b.pMin.Get(a).Fin? ==> c == Fin(0.5 * b.pMin.Get(a).r + 0.5 * b.pMax.Get(a))
  {
    AddReal(ScalePos(0.5, b.pMin.Get(a)), 0.5 * b.pMax.Get(a))
  }

  /** `union_point`: the smallest box containing `b` and `p`. */
  function UnionPoint(b: Bounds3, p: Vec3): (r: Bounds3)
    ensures ContainsBox(r, b) && Inside(p, r)
    ensures forall c: Bounds3 {:trigger ContainsBox(c, r)} :: ContainsBox(c, b) && Inside(p, c) ==> ContainsBox(c, r)
    ensures WellFormed(b) ==> WellFormed(r)
  {
    Bounds3(EVec3(Min(b.pMin.x, Fin(p.x)), Min(b.pMin.y, Fin(p.y)), Min(b.pMin.z, Fin(p.z))),
            Vec3(RMax(b.pMax.x, p.x), RMax(b.pMax.y, p.y), RMax(b.pMax.z, p.z)))
  }

  /** `expand`: grows the box in place to the value `union_point` returns. */
  method Expand(b: Bounds3, p: Vec3) returns (b': Bounds3)
    ensures b' == UnionPoint(b, p)
    ensures ContainsBox(b', b) && Inside(p, b')
  {
    b' := b.(pMin := EVec3(Min(b.pMin.x, Fin(p.x)), Min(b.pMin.y, Fin(p.y)), Min(b.pMin.z, Fin(p.z))));
    b' := b'.(pMax := Vec3(RMax(b.pMax.x, p.x), RMax(b.pMax.y, p.y), RMax(b.pMax.z, p.z)));
  }

  /** `intersect`: exactly the points inside both boxes. */
  function Intersect(b1: Bounds3, b2: Bounds3): (r: Bounds3)
    ensures forall p: Vec3 {:trigger Inside(p, r)} :: Inside(p, r) <==> Inside(p, b1) && Inside(p, b2)
    ensures ContainsBox(b1, r) && ContainsBox(b2, r)
    ensures WellFormed(b1) && WellFormed(b2) ==> WellFormed(r)
  {
    Bounds3(EVec3(Max(b1.pMin.x, b2.pMin.x), Max(b1.pMin.y, b2.pMin.y), Max(b1.pMin.z, b2.pMin.z)),
            Vec3(RMin(b1.pMax.x, b2.pMax.x), RMin(b1.pMax.y, b2.pMax.y), RMin(b1.pMax.z, b2.pMax.z)))
  }

  /** One coordinate of `offset`: divided only when the extent is positive. */
  function OffsetAxis(lo: Ext, hi: real, x: real): Ext {
    if lo.Fin? && hi > lo.r then Fin((x - lo.r) / (hi - lo.r)) else RealSub(x, lo)
  }

  /**
   * `offset`: the position of `p` relative to the box, `p_min` going to 0 and
   * `p_max` to 1 on every axis of positive extent.
   */
  function Offset(b: Bounds3, p: Vec3): (o: EVec3)
    requires WellFormed(b)
    ensures forall i :: 0 <= i < 3 && b.pMin.At(i).Fin? && b.pMin.At(i).r == p.At(i) ==> o.At(i) == Fin(0.0)
    ensures forall i :: 0 <= i < 3 && b.pMin.At(i).Fin? && b.pMax.At(i) > b.pMin.At(i).r && p.At(i) == b.pMax.At(i)
              ==> o.At(i) == Fin(1.0)
    ensures forall i :: 0 <= i < 3 && b.pMin.At(i).Fin? && b.pMax.At(i) <= b.pMin.At(i).r
              ==> o.At(i) == Fin(p.At(i) - b.pMin.At(i).r)
    ensures Inside(p, b) ==>
              (forall i :: 0 <= i < 3 && b.pMin.At(i).Fin? && b.pMax.At(i) > b.pMin.At(i).r
                 ==> Le(Fin(0.0), o.At(i)) && Le(o.At(i), Fin(1.0)))
  {
    OffsetBounds(b.pMin.x, b.pMax.x, p.x);
    OffsetBounds(b.pMin.y, b.pMax.y, p.y);
    OffsetBounds(b.pMin.z, b.pMax.z, p.z);
    OffsetCorners(b.pMin.x, b.pMax.x, p.x);
    OffsetCorners(b.pMin.y, b.pMax.y, p.y);
    OffsetCorners(b.pMin.z, b.pMax.z, p.z);
    EVec3(OffsetAxis(b.pMin.x, b.pMax.x, p.x), OffsetAxis(b.pMin.y, b.pMax.y, p.y),
          OffsetAxis(b.pMin.z, b.pMax.z, p.z))
  }

  lemma OffsetBounds(lo: Ext, hi: real, x: real)
    ensures lo.Fin? && lo.r <= x <= hi && hi > lo.r ==>
              Le(Fin(0.0), OffsetAxis(lo, hi, x)) && Le(OffsetAxis(lo, hi, x), Fin(1.0))
  {
    if lo.Fin? && lo.r <= x <= hi && hi > lo.r {
      var n, d := x - lo.r, hi - lo.r;
      var q := n / d;
      assert q * d == n;
      if q > 1.0 {
        assert (q - 1.0) * d > 0.0;
      }
    }
  }

  lemma OffsetCorners(lo: Ext, hi: real, x: real)
    ensures lo.Fin? && x == lo.r ==> OffsetAxis(lo, hi, x) == Fin(0.0)
    ensures lo.Fin? && hi > lo.r && x == hi ==> OffsetAxis(lo, hi, x) == Fin(1.0)
  {
    if lo.Fin? && hi > lo.r && x == hi {
      var d := hi - lo.r;
      assert d / d == 1.0;
    }
  }

  /** `overlaps`: the closed boxes meet on every axis, touching faces included. */
  predicate Overlaps(b1: Bounds3, b2: Bounds3) {
    && Le(b2.pMin.x, Fin(b1.pMax.x)) && Le(b1.pMin.x, Fin(b2.pMax.x))
    && Le(b2.pMin.y, Fin(b1.pMax.y)) && Le(b1.pMin.y, Fin(b2.pMax.y))
    && Le(b2.pMin.z, Fin(b1.pMax.z)) && Le(b1.pMin.z, Fin(b2.pMax.z))
  }

  /** `union_bounds`: the smallest box containing both. */
  function UnionBounds(b1: Bounds3, b2: Bounds3): (r: Bounds3)
    ensures ContainsBox(r, b1) && ContainsBox(r, b2)
    ensures forall c: Bounds3 {:trigger ContainsBox(c, r)} :: ContainsBox(c, b1) && ContainsBox(c, b2) ==> ContainsBox(c, r)
    ensures WellFormed(b1) && WellFormed(b2) ==> WellFormed(r)
  {
    Bounds3(EVec3(Min(b1.pMin.x, b2.pMin.x), Min(b1.pMin.y, b2.pMin.y), Min(b1.pMin.z, b2.pMin.z)),
            Vec3(RMax(b1.pMax.x, b2.pMax.x), RMax(b1.pMax.y, b2.pMax.y), RMax(b1.pMax.z, b2.pMax.z)))
  }

  /** `arr_bounds`: `union_bounds` folded over the list from the default box. */
  function ArrBounds(v: seq<Bounds3>): (r: Bounds3)
    ensures forall i :: 0 <= i < |v| ==> ContainsBox(r, v[i])
    ensures |v| == 0 ==> r == Default()
    ensures (forall i :: 0 <= i < |v| ==> WellFormed(v[i])) ==> WellFormed(r)
  {
    if |v| == 0 then Default() else UnionBounds(ArrBounds(v[..|v| - 1]), v[|v| - 1])
  }

  lemma UnionCommutative(b1: Bounds3, b2: Bounds3)
    ensures UnionBounds(b1, b2) == UnionBounds(b2, b1)
  {
  }

  lemma UnionAssociative(b1: Bounds3, b2: Bounds3, b3: Bounds3)
    ensures UnionBounds(UnionBounds(b1, b2), b3) == UnionBounds(b1, UnionBounds(b2, b3))
  {
  }

  /** The default box is the identity of `union_bounds` on boxes with single-precision maxima. */
  lemma DefaultIsUnionIdentity(b: Bounds3)
    requires MaxAboveF32Min(b)
    ensures UnionBounds(Default(), b) == b
  {
  }

  lemma ArrBoundsSingleton(b: Bounds3)
    requires MaxAboveF32Min(b)
    ensures ArrBounds([b]) == b
  {
    assert [b][..0] == [];
    DefaultIsUnionIdentity(b);
  }

  /** Every minimum coordinate of `arr_bounds` is `+inf` or is attained by some input. */
  lemma {:induction false} ArrBoundsMinAttained(v: seq<Bounds3>, a: Axis)
    ensures ArrBounds(v).pMin.Get(a) == PosInf
            || exists i :: 0 <= i < |v| && ArrBounds(v).pMin.Get(a) == v[i].pMin.Get(a)
  {
    if |v| > 0 {
      var init := v[..|v| - 1];
      ArrBoundsMinAttained(init, a);
      if ArrBounds(v).pMin.Get(a) != v[|v| - 1].pMin.Get(a) {
        assert ArrBounds(v).pMin.Get(a) == ArrBounds(init).pMin.Get(a);
        if ArrBounds(init).pMin.Get(a) != PosInf {
          var i :| 0 <= i < |init| && ArrBounds(init).pMin.Get(a) == init[i].pMin.Get(a);
          assert v[i] == init[i];
        }
      }
    }
  }

  /** Every maximum coordinate of `arr_bounds` is `f32::MIN` or is attained by some input. */
  lemma {:induction false} ArrBoundsMaxAttained(v: seq<Bounds3>, a: Axis)
    ensures ArrBounds(v).pMax.Get(a) == F32_MIN
            || exists i :: 0 <= i < |v| && ArrBounds(v).pMax.Get(a) == v[i].pMax.Get(a)
  {
    if |v| > 0 {
      var init := v[..|v| - 1];
      ArrBoundsMaxAttained(init, a);
      if ArrBounds(v).pMax.Get(a) != v[|v| - 1].pMax.Get(a) {
        assert ArrBounds(v).pMax.Get(a) == ArrBounds(init).pMax.Get(a);
        if ArrBounds(init).pMax.Get(a) != F32_MIN {
          var i :| 0 <= i < |init| && ArrBounds(init).pMax.Get(a) == init[i].pMax.Get(a);
          assert v[i] == init[i];
        }
      }
    }
  }

  /** `arr_bounds` does not depend on the order of its inputs: it is the same on a permutation. */
  lemma ArrBoundsPermutation(v: seq<Bounds3>, w: seq<Bounds3>)
    requires multiset(v) == multiset(w)
    ensures ArrBounds(v) == ArrBounds(w)
  {
    forall a: Axis
      ensures ArrBounds(v).pMin.Get(a) == ArrBounds(w).pMin.Get(a)
      ensures ArrBounds(v).pMax.Get(a) == ArrBounds(w).pMax.Get(a)
    {
      ArrBoundsCornerBelow(v, w, a);
      ArrBoundsCornerBelow(w, v, a);
      LeAntisym(ArrBounds(v).pMin.Get(a), ArrBounds(w).pMin.Get(a));
    }
    assert ArrBounds(v).pMin == EVec3(ArrBounds(v).pMin.Get(X), ArrBounds(v).pMin.Get(Y), ArrBounds(v).pMin.Get(Z));
    assert ArrBounds(w).pMin == EVec3(ArrBounds(w).pMin.Get(X), ArrBounds(w).pMin.Get(Y), ArrBounds(w).pMin.Get(Z));
    assert ArrBounds(v).pMax == Vec3(ArrBounds(v).pMax.Get(X), ArrBounds(v).pMax.Get(Y), ArrBounds(v).pMax.Get(Z));
    assert ArrBounds(w).pMax == Vec3(ArrBounds(w).pMax.Get(X), ArrBounds(w).pMax.Get(Y), ArrBounds(w).pMax.Get(Z));
  }

  lemma ArrBoundsCornerBelow(v: seq<Bounds3>, w: seq<Bounds3>, a: Axis)
    requires multiset(v) == multiset(w)
    ensures Le(ArrBounds(w).pMin.Get(a), ArrBounds(v).pMin.Get(a))
    ensures ArrBounds(v).pMax.Get(a) <= ArrBounds(w).pMax.Get(a)
  {
    ArrBoundsMinAttained(v, a);
    if ArrBounds(v).pMin.Get(a) != PosInf {
      var i :| 0 <= i < |v| && ArrBounds(v).pMin.Get(a) == v[i].pMin.Get(a);
      assert v[i] in multiset(w);
      var j :| 0 <= j < |w| && w[j] == v[i];
      assert ContainsBox(ArrBounds(w), w[j]);
    }
    ArrBoundsMaxAttained(v, a);
    if ArrBounds(v).pMax.Get(a) != F32_MIN {
      var i :| 0 <= i < |v| && ArrBounds(v).pMax.Get(a) == v[i].pMax.Get(a);
      assert v[i] in multiset(w);
      var j :| 0 <= j < |w| && w[j] == v[i];
      assert ContainsBox(ArrBounds(w), w[j]);
    } else {
      ArrBoundsMaxAtLeastF32Min(w, a);
    }
  }

  lemma {:induction false} ArrBoundsMaxAtLeastF32Min(v: seq<Bounds3>, a: Axis)
    ensures ArrBounds(v).pMax.Get(a) >= F32_MIN
  {
    if |v| > 0 {
      ArrBoundsMaxAtLeastF32Min(v[..|v| - 1], a);
    }
  }

  lemma OverlapsSymmetric(b1: Bounds3, b2: Bounds3)
    ensures Overlaps(b1, b2) <==> Overlaps(b2, b1)
  {
  }

  /**
   * For well-formed, non-inverted boxes, `overlaps` holds exactly when some
   * point is inside both; a shared face is enough.
   */
  lemma OverlapsIffCommonPoint(b1: Bounds3, b2: Bounds3)
    requires WellFormed(b1) && WellFormed(b2) && Ordered(b1) && Ordered(b2)
    ensures Overlaps(b1, b2) <==> exists p: Vec3 :: Inside(p, b1) && Inside(p, b2)
  {
    if Overlaps(b1, b2) {
      var p := Vec3(Max(b1.pMin.x, b2.pMin.x).r, Max(b1.pMin.y, b2.pMin.y).r, Max(b1.pMin.z, b2.pMin.z).r);
      assert Inside(p, b1) && Inside(p, b2);
    }
  }

  /** Both corners of a finite, non-inverted box are inside it: `inside` is closed. */
  lemma CornersInside(b: Bounds3)
    requires IsFinite(b) && Ordered(b)
    ensures Inside(Vec3(b.pMin.x.r, b.pMin.y.r, b.pMin.z.r), b)
    ensures Inside(b.pMax, b)
  {
  }

  // ---------------------------------------------------------------- slab test

  /** The two slab parameters of axis `i`, swapped when the inverse direction is negative; `None` is NaN. */
  function SlabPair(b: Bounds3, r: RayState, i: nat): (Option<Ext>, Option<Ext>)
    requires i < 3
  {
    var t0 := Mul(SubReal(b.pMin.At(i), r.origin.At(i)), r.invDir.At(i));
    var t1 := Mul(Fin(b.pMax.At(i) - r.origin.At(i)), r.invDir.At(i));
    if Lt(r.invDir.At(i), Fin(0.0)) then (t1, t0) else (t0, t1)
  }

  /** `t_near` after the first `k` axes. */
  function Near(b: Bounds3, r: RayState, k: nat): Ext
    requires k <= 3
  {
    if k == 0 then Fin(r.tMin) else MaxIgnoringNaN(Near(b, r, k - 1), SlabPair(b, r, k - 1).0)
  }

  /** `t_far` after the first `k` axes. */
  function Far(b: Bounds3, r: RayState, k: nat): Ext
    requires k <= 3
  {
    if k == 0 then Fin(r.tMax) else MinIgnoringNaN(Far(b, r, k - 1), SlabPair(b, r, k - 1).1)
  }

  /** The slab test passes: the clipped interval is non-empty after all three axes. */
  predicate SlabHit(b: Bounds3, r: RayState) {
    Le(Near(b, r, 3), Far(b, r, 3))
  }

  lemma {:induction false} NearFarMonotone(b: Bounds3, r: RayState, k: nat)
    requires k <= 3
    ensures Le(Near(b, r, k), Near(b, r, 3)) && Le(Far(b, r, 3), Far(b, r, k))
    decreases 3 - k
  {
    if k < 3 {
      NearFarMonotone(b, r, k + 1);
      LeTrans(Near(b, r, k), Near(b, r, k + 1), Near(b, r, 3));
      LeTrans(Far(b, r, 3), Far(b, r, k + 1), Far(b, r, k));
    }
  }

  /**
   * `intersect_p`: clips `[t_min, t_max]` against each axis slab in turn and
   * gives up as soon as the interval is empty. It reads the ray and changes nothing.
   */
  method IntersectP(b: Bounds3, ray: Ray) returns (hit: bool)
    ensures hit == SlabHit(b, ray.State())
  {
    ghost var s := ray.State();
    var tNear := Fin(ray.tMin);
    var tFar := Fin(ray.tMax);
    for i := 0 to 3
      invariant tNear == Near(b, s, i) && tFar == Far(b, s, i)
      invariant i > 0 ==> Le(tNear, tFar)
    {
      var t0, t1 := SlabTimes(b, ray, i);
      tNear := MaxIgnoringNaN(tNear, t0);
      tFar := MinIgnoringNaN(tFar, t1);
      if Lt(tFar, tNear) {
        CrossedSlabsMiss(b, s, i + 1);
        return false;
      }
    }
    return true;
  }

  /** The entry and exit parameters of slab `i`, swapped when the ray runs backwards along that axis. */
  method SlabTimes(b: Bounds3, ray: Ray, i: nat) returns (t0: Option<Ext>, t1: Option<Ext>)
    requires i < 3
    ensures (t0, t1) == SlabPair(b, ray.State(), i)
  {
    t0 := Mul(SubReal(b.pMin.At(i), ray.origin.At(i)), ray.invDir.At(i));
    t1 := Mul(Fin(b.pMax.At(i) - ray.origin.At(i)), ray.invDir.At(i));
    if Lt(ray.invDir.At(i), Fin(0.0)) {
      t0, t1 := t1, t0;
    }
  }

  /**
   * The default box `(+inf, f32::MIN)` fails every slab test whose cached
   * inverse on the first axis is not zero, which no reciprocal is: the
   * first slab already leaves an empty window.
   */
  lemma DefaultMisses(r: RayState)
    requires r.invDir.x != Fin(0.0)
    ensures !SlabHit(Default(), r)
  {
    var b := Default();
    var inv := r.invDir.x;
    assert b.pMin.At(0) == PosInf && r.invDir.At(0) == inv;
    if Lt(inv, Fin(0.0)) {
      assert SlabPair(b, r, 0).1 == Some(NegInf);
      assert Far(b, r, 1) == NegInf;
    } else {
      assert SlabPair(b, r, 0).0 == Some(PosInf);
      assert Near(b, r, 1) == PosInf;
    }
    CrossedSlabsMiss(b, r, 1);
  }

  /** Once the window has crossed after `k` slabs, the box is missed: the early `return false`. */
  lemma CrossedSlabsMiss(b: Bounds3, s: RayState, k: nat)
    requires k <= 3 && Lt(Far(b, s, k), Near(b, s, k))
    ensures !SlabHit(b, s)
  {
    NearFarMonotone(b, s, k);
    if Le(Near(b, s, 3), Far(b, s, 3)) {
      LeTrans(Near(b, s, k), Near(b, s, 3), Far(b, s, 3));
      LeTrans(Near(b, s, k), Far(b, s, 3), Far(b, s, k));
    }
  }

  /** Parameter `t` lies in the slab interval of axis `i` (a NaN bound constrains nothing). */
  predicate InSlab(b: Bounds3, r: RayState, i: nat, t: real)
    requires i < 3
  {
    (SlabPair(b, r, i).0.None? || Le(SlabPair(b, r, i).0.value, Fin(t)))
    && (SlabPair(b, r, i).1.None? || Le(Fin(t), SlabPair(b, r, i).1.value))
  }

  /** The slab test passes exactly when some parameter in `[t_min, t_max]` lies in all three slabs. */
  lemma SlabHitIffCommonParameter(b: Bounds3, r: RayState)
    ensures SlabHit(b, r) <==>
            exists t: real :: r.tMin <= t <= r.tMax && InSlab(b, r, 0, t) && InSlab(b, r, 1, t) && InSlab(b, r, 2, t)
  {
    if SlabHit(b, r) {
      SlabHitGivesParameter(b, r);
    }
    if exists t: real :: r.tMin <= t <= r.tMax && InSlab(b, r, 0, t) && InSlab(b, r, 1, t) && InSlab(b, r, 2, t) {
      var t: real :| r.tMin <= t <= r.tMax && InSlab(b, r, 0, t) && InSlab(b, r, 1, t) && InSlab(b, r, 2, t);
      ParameterGivesSlabHit(b, r, t);
    }
  }

  /** When the slab test passes, the final near value lies in every slab. */
  lemma SlabHitGivesParameter(b: Bounds3, r: RayState)
    requires SlabHit(b, r)
    ensures Near(b, r, 3).Fin?
    ensures var t := Near(b, r, 3).r;
      r.tMin <= t <= r.tMax && InSlab(b, r, 0, t) && InSlab(b, r, 1, t) && InSlab(b, r, 2, t)
  {
    NearFarMonotone(b, r, 0);
    var n, f := Near(b, r, 3), Far(b, r, 3);
    assert Le(Fin(r.tMin), n) && Le(f, Fin(r.tMax));
    LeTrans(n, f, Fin(r.tMax));
    var t := n.r;
    forall i | 0 <= i < 3 ensures InSlab(b, r, i, t) {
      NearFarMonotone(b, r, i + 1);
      if SlabPair(b, r, i).0.Some? {
        LeTrans(SlabPair(b, r, i).0.value, Near(b, r, i + 1), n);
      }
      if SlabPair(b, r, i).1.Some? {
        LeTrans(Fin(t), f, Far(b, r, i + 1));
        LeTrans(Fin(t), Far(b, r, i + 1), SlabPair(b, r, i).1.value);
      }
    }
  }

  /** A parameter in the window and in every slab makes the slab test pass. */
  lemma ParameterGivesSlabHit(b: Bounds3, r: RayState, t: real)
    requires r.tMin <= t <= r.tMax && InSlab(b, r, 0, t) && InSlab(b, r, 1, t) && InSlab(b, r, 2, t)
    ensures SlabHit(b, r)
  {
    NearFarBracket(b, r, t, 3);
    LeTrans(Near(b, r, 3), Fin(t), Far(b, r, 3));
  }

  lemma {:induction false} NearFarBracket(b: Bounds3, r: RayState, t: real, k: nat)
    requires k <= 3 && r.tMin <= t <= r.tMax
    requires forall i :: 0 <= i < k ==> InSlab(b, r, i, t)
    ensures Le(Near(b, r, k), Fin(t)) && Le(Fin(t), Far(b, r, k))
  {
    if k > 0 {
      NearFarBracket(b, r, t, k - 1);
      assert InSlab(b, r, k - 1, t);
    }
  }
}
