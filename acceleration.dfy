/**
 * What every spatial index shares (`acceleration.rs`): the attached shapes,
 * the primitive test they answer, the "last success wins" scan that every
 * leaf performs while hits narrow the ray's `t_max`, and turning a hit tuple
 * into an intersection record.
 */
module Acceleration {
  import opened Wrappers
  import opened ExtReal
  import opened Vectors
  import opened Rays
  import opened Bounds

  /** A handle to a light object. */
  type LightRef = nat

  /**
   * The parts of a shape the core reads: its geometry id (never assigned by
   * the core, so 0 unless set elsewhere), its bounds and its area light.
   * `handle` stands for the identity of the shared shape object.
   */
  datatype Shape = Shape(handle: nat, geometryId: nat, bounds: Bounds3, light: Option<LightRef>)

  /** A successful primitive test: primitive id, surface parameters and the hit distance. */
  datatype PrimHit = PrimHit(primId: nat, u: real, v: real, t: real)

  /**
   * `ray_intersect_shape`, answered for a shape and the ray's current fields.
   * The shape also sets the ray's `t_max` to the reported distance; the model
   * performs that write at the call site.
   */
  type HitOracle = (Shape, RayState) -> Option<PrimHit>

  /** The contract of a primitive test: a reported hit lies strictly inside `(t_min, t_max)`. */
  ghost predicate Narrowing(hit: HitOracle) {
    forall sh: Shape, s: RayState {:trigger hit(sh, s)} :: hit(sh, s).Some? ==> s.tMin < hit(sh, s).value.t < s.tMax
  }

  /** The tuple an index returns: `(geometry id, prim id, u, v)`. */
  datatype QueryHit = QueryHit(geometryId: nat, primId: nat, u: real, v: real)

  /** The shape that hit last and what its test reported. */
  datatype Winner = Winner(shape: Shape, hit: PrimHit) {
    function Query(): QueryHit {
      QueryHit(shape.geometryId, hit.primId, hit.u, hit.v)
    }
  }

  /** The tuple reported for a scan's winner, if any. */
  function ToQuery(w: Option<Winner>): Option<QueryHit> {
    if w.Some? then Some(w.value.Query()) else None
  }

  /** The kinds of spatial index. */
  datatype AccelerationType = Embree | Linear | Octree | Bvh

  /** The bounds of every shape, in order. */
  function BoundsOf(shapes: seq<Shape>): (r: seq<Bounds3>)
    ensures |r| == |shapes| && forall i :: 0 <= i < |shapes| ==> r[i] == shapes[i].bounds
  {
    seq(|shapes|, i requires 0 <= i < |shapes| => shapes[i].bounds)
  }

  lemma BoundsOfAppend(a: seq<Shape>, b: seq<Shape>)
    ensures BoundsOf(a + b) == BoundsOf(a) + BoundsOf(b)
  {
  }

  lemma RemoveAt<T>(t: seq<T>, k: nat)
    requires k < |t|
    ensures multiset(t) == multiset(t[..k] + t[k + 1..]) + multiset{t[k]}
  {
    assert t == t[..k] + [t[k]] + t[k + 1..];
  }

  lemma MultisetCancel<T>(a: multiset<T>, b: multiset<T>, x: T)
    requires a + multiset{x} == b + multiset{x}
    ensures a == b
  {
    assert a == a + multiset{x} - multiset{x};
  }

  lemma BoundsOfRemoveAt(t: seq<Shape>, k: nat)
    requires k < |t|
    ensures BoundsOf(t[..k] + t[k + 1..]) == BoundsOf(t)[..k] + BoundsOf(t)[k + 1..]
  {
  }

  /** Reordering the shapes reorders their bounds alike. */
  lemma {:induction false} BoundsOfPermutation(s: seq<Shape>, t: seq<Shape>)
    requires multiset(s) == multiset(t)
    ensures multiset(BoundsOf(s)) == multiset(BoundsOf(t))
    decreases |s|
  {
    if |s| == 0 {
      assert |t| == |multiset(t)| == 0;
    } else {
      var n := |s|;
      var x := s[n - 1];
      RemoveAt(s, n - 1);
      assert s[..n - 1] + s[n..] == s[..n - 1];
      assert x in multiset(t);
      var k :| 0 <= k < |t| && t[k] == x;
      var rest := t[..k] + t[k + 1..];
      RemoveAt(t, k);
      MultisetCancel(multiset(s[..n - 1]), multiset(rest), x);
      BoundsOfPermutation(s[..n - 1], rest);
      BoundsRemoveAt(s, n - 1);
      BoundsRemoveAt(t, k);
    }
  }

  /** Dropping the shape at `k` drops its bounds from the multiset of bounds. */
  lemma BoundsRemoveAt(t: seq<Shape>, k: nat)
    requires k < |t|
    ensures multiset(BoundsOf(t)) == multiset(BoundsOf(t[..k] + t[k + 1..])) + multiset{t[k].bounds}
  {
    BoundsOfRemoveAt(t, k);
    RemoveAt(BoundsOf(t), k);
  }

  /** The variables of a leaf loop: the current winner and the ray's fields. */
  datatype ScanState = ScanState(winner: Option<Winner>, ray: RayState)

  /** One iteration: a successful test sets `t_max` to the hit distance and becomes the winner. */
  function Test(st: ScanState, sh: Shape, hit: HitOracle): ScanState {
    match hit(sh, st.ray)
    case None => st
    case Some(h) => ScanState(Some(Winner(sh, h)), st.ray.(tMax := h.t))
  }

  /**
   * The loop of a leaf over `list`, in order. Only `t_max` of the ray can
   * change, a winner is one of the tested shapes and leaves `t_max` at its
   * own distance, and without a winner nothing changes.
   */
  function Scan(list: seq<Shape>, hit: HitOracle, s: RayState): (r: ScanState)
    ensures r.ray == s.(tMax := r.ray.tMax)
    ensures r.winner.Some? ==> r.winner.value.shape in list && r.ray.tMax == r.winner.value.hit.t
    ensures r.winner.None? ==> r.ray == s
  {
    if |list| == 0 then ScanState(None, s)
    else Test(Scan(list[..|list| - 1], hit, s), list[|list| - 1], hit)
  }

  /** With narrowing primitive tests, `t_max` never grows. */
  lemma {:induction false} ScanNarrows(list: seq<Shape>, hit: HitOracle, s: RayState)
    requires Narrowing(hit)
    ensures Scan(list, hit, s).ray.tMax <= s.tMax
  {
    if |list| > 0 {
      var init := Scan(list[..|list| - 1], hit, s);
      ScanNarrows(list[..|list| - 1], hit, s);
      var h := hit(list[|list| - 1], init.ray);
      if h.Some? {
        assert h.value.t < init.ray.tMax;
      }
    }
  }

  /** Two results in visiting order: the later one wins when it has a winner. */
  function Combine(first: ScanState, second: ScanState): ScanState {
    ScanState(if second.winner.Some? then second.winner else first.winner, second.ray)
  }

  /** Scanning two lists one after the other is combining the two scans. */
  lemma {:induction false} ScanAppend(l1: seq<Shape>, l2: seq<Shape>, hit: HitOracle, s: RayState)
    ensures Scan(l1 + l2, hit, s) == Combine(Scan(l1, hit, s), Scan(l2, hit, Scan(l1, hit, s).ray))
  {
    var a := Scan(l1, hit, s);
    if |l2| == 0 {
      assert l1 + l2 == l1;
    } else {
      var init := l2[..|l2| - 1];
      assert (l1 + l2)[..|l1 + l2| - 1] == l1 + init;
      ScanAppend(l1, init, hit, s);
    }
  }

  /** A candidate hit reported only when its distance is strictly inside `(lo, hi)`. */
  function Window(c: Option<PrimHit>, lo: real, hi: real): Option<PrimHit> {
    if c.Some? && lo < c.value.t < hi then c else None
  }

  predicate InWindow(c: Option<PrimHit>, lo: real, hi: real) {
    c.Some? && lo < c.value.t < hi
  }

  /**
   * For one ray, every shape has a fixed candidate hit, and its test reports
   * that candidate exactly when it lies strictly inside the current window.
   */
  ghost predicate WindowOracle(hit: HitOracle, s0: RayState, cand: Shape -> Option<PrimHit>) {
    forall sh: Shape, tm: real :: hit(sh, s0.(tMax := tm)) == Window(cand(sh), s0.tMin, tm)
  }

  /**
   * `list[k]` has the nearest candidate in the window, and every earlier shape
   * with a candidate in the window is strictly farther.
   */
  predicate IsNearest(list: seq<Shape>, cand: Shape -> Option<PrimHit>, lo: real, hi: real, k: int) {
    && 0 <= k < |list|
    && InWindow(cand(list[k]), lo, hi)
    && forall j :: 0 <= j < |list| && InWindow(cand(list[j]), lo, hi) ==>
         && cand(list[k]).value.t <= cand(list[j]).value.t
         && (j < k ==> cand(list[k]).value.t < cand(list[j]).value.t)
  }

  /**
   * "Last success wins" is "nearest hit": the scan has no winner iff no
   * candidate lies in the window, and otherwise its winner is the nearest
   * candidate, the earliest of equally near ones.
   */
  lemma {:induction false} ScanNearest(list: seq<Shape>, hit: HitOracle, s0: RayState, cand: Shape -> Option<PrimHit>, tm: real)
    requires WindowOracle(hit, s0, cand)
    ensures var r := Scan(list, hit, s0.(tMax := tm));
      && (r.winner.None? <==> forall j :: 0 <= j < |list| ==> !InWindow(cand(list[j]), s0.tMin, tm))
      && (r.winner.Some? ==> exists k :: IsNearest(list, cand, s0.tMin, tm, k) && r.winner.value == Winner(list[k], cand(list[k]).value))
  {
    var s := s0.(tMax := tm);
    var lo := s0.tMin;
    if |list| > 0 {
      var n := |list|;
      var init := list[..n - 1];
      var x := list[n - 1];
      ScanNearest(init, hit, s0, cand, tm);
      var a := Scan(init, hit, s);
      assert a.ray == s0.(tMax := a.ray.tMax);
      assert hit(x, a.ray) == Window(cand(x), lo, a.ray.tMax);
      var r := Scan(list, hit, s);
      assert r == Test(a, x, hit);
      if a.winner.None? {
        assert a.ray == s;
        if InWindow(cand(x), lo, tm) {
          assert IsNearest(list, cand, lo, tm, n - 1);
        } else {
          assert forall j :: 0 <= j < n ==> !InWindow(cand(list[j]), lo, tm) by {
            forall j | 0 <= j < n ensures !InWindow(cand(list[j]), lo, tm) {
              if j < n - 1 {
                assert list[j] == init[j];
              }
            }
          }
        }
      } else {
        var k :| IsNearest(init, cand, lo, tm, k) && a.winner.value == Winner(init[k], cand(init[k]).value);
        var tk := cand(init[k]).value.t;
        assert a.ray.tMax == tk;
        assert list[k] == init[k];
        if InWindow(cand(x), lo, tk) {
          assert IsNearest(list, cand, lo, tm, n - 1) by {
            forall j | 0 <= j < n && InWindow(cand(list[j]), lo, tm)
              ensures cand(x).value.t <= cand(list[j]).value.t
              ensures j < n - 1 ==> cand(x).value.t < cand(list[j]).value.t
            {
              if j < n - 1 {
                assert list[j] == init[j];
              }
            }
          }
        } else {
          assert IsNearest(list, cand, lo, tm, k) by {
            forall j | 0 <= j < n && InWindow(cand(list[j]), lo, tm)
              ensures tk <= cand(list[j]).value.t
              ensures j < k ==> tk < cand(list[j]).value.t
            {
              if j < n - 1 {
                assert list[j] == init[j];
              }
            }
          }
        }
      }
    }
  }

  /**
   * A candidate hit point lies inside its shape's bounds: whenever a
   * candidate is in the window, the slab test of any box containing the
   * shape's bounds passes for that window.
   */
  ghost predicate HitsInsideBounds(cand: Shape -> Option<PrimHit>, s0: RayState) {
    forall box: Bounds3, sh: Shape, tm: real ::
      ContainsBox(box, sh.bounds) && InWindow(cand(sh), s0.tMin, tm) ==> SlabHit(box, s0.(tMax := tm))
  }

  /** When the slab test of a box around every shape of `list` fails, scanning `list` does nothing. */
  lemma ScanMissesOutsideBox(list: seq<Shape>, hit: HitOracle, s0: RayState, cand: Shape -> Option<PrimHit>, tm: real, box: Bounds3)
    requires WindowOracle(hit, s0, cand) && HitsInsideBounds(cand, s0)
    requires forall j :: 0 <= j < |list| ==> ContainsBox(box, list[j].bounds)
    requires !SlabHit(box, s0.(tMax := tm))
    ensures Scan(list, hit, s0.(tMax := tm)) == ScanState(None, s0.(tMax := tm))
  {
    ScanNearest(list, hit, s0, cand, tm);
  }

  /**
   * The loop of a leaf: each shape is tested in order against the ray, a hit
   * narrows `t_max`, and the last shape that hit is the winner.
   */
  method ScanShapes(list: seq<Shape>, ray: Ray, hit: HitOracle) returns (w: Option<Winner>)
    modifies ray
    ensures w == Scan(list, hit, old(ray.State())).winner
    ensures ray.State() == Scan(list, hit, old(ray.State())).ray
  {
    w := None;
    ghost var s0 := ray.State();
    for i := 0 to |list|
      invariant ScanState(w, ray.State()) == Scan(list[..i], hit, s0)
    {
      assert list[..i + 1][..i] == list[..i];
      var res := hit(list[i], ray.State());
      if res.Some? {
        ray.tMax := res.value.t;
        w := Some(Winner(list[i], res.value));
      }
    }
    assert list[..|list|] == list;
  }

  /** An intersection record, filled by `shapes[shapeIndex].fill_intersection(distance, primId, u, v)`. */
  datatype Intersection = Intersection(distance: real, shapeIndex: nat, primId: nat, u: real, v: real)

  /** The outcome of `get_intersect`: no hit, a record, or a panic on an out-of-range shape index. */
  datatype Lookup = Miss | Record(its: Intersection) | IndexOutOfBounds

  /**
   * `get_intersect` as written: the tuple `(geometry id, prim id, u, v)` is
   * destructured as `(prime_id, geom_id, u, v)`, so the shape is looked up by
   * the primitive id and the geometry id is passed on as the primitive id.
   */
  function GetIntersectAsWritten(shapes: seq<Shape>, q: Option<QueryHit>, tMax: real): (r: Lookup)
    ensures r.Miss? <==> q.None?
    ensures r.Record? ==> r.its == Intersection(tMax, q.value.primId, q.value.geometryId, q.value.u, q.value.v)
    ensures q.Some? ==> (r.IndexOutOfBounds? <==> q.value.primId >= |shapes|)
  {
    match q
    case None => Miss
    case Some(QueryHit(primeId, geomId, u, v)) =>
      if geomId < |shapes| then Record(Intersection(tMax, geomId, primeId, u, v)) else IndexOutOfBounds
  }

  /**
   * `get_intersect` with the tuple read in the order the indices produce it:
   * the shape is looked up by the geometry id, and the record's distance is
   * the ray's `t_max` as the query left it.
   */
  function GetIntersect(shapes: seq<Shape>, q: Option<QueryHit>, tMax: real): (r: Lookup)
    ensures r.Miss? <==> q.None?
    ensures r.Record? ==> r.its == Intersection(tMax, q.value.geometryId, q.value.primId, q.value.u, q.value.v)
    ensures q.Some? ==> (r.IndexOutOfBounds? <==> q.value.geometryId >= |shapes|)
  {
    match q
    case None => Miss
    case Some(QueryHit(geomId, primId, u, v)) =>
      if geomId < |shapes| then Record(Intersection(tMax, geomId, primId, u, v)) else IndexOutOfBounds
  }

  /** Every shape's geometry id is its position in the list. */
  predicate GeometryIdsAreIndices(shapes: seq<Shape>) {
    forall i :: 0 <= i < |shapes| ==> shapes[i].geometryId == i
  }

  /**
   * With geometry ids that are positions, the corrected lookup fills the
   * record from the shape that was hit, with that hit's primitive id.
   */
  lemma GetIntersectFillsFromHitShape(shapes: seq<Shape>, w: Winner, tMax: real)
    requires GeometryIdsAreIndices(shapes) && w.shape in shapes
    ensures var r := GetIntersect(shapes, Some(w.Query()), tMax);
      && r.Record?
      && shapes[r.its.shapeIndex] == w.shape
      && r.its.primId == w.hit.primId && r.its.distance == tMax
  {
    var i :| 0 <= i < |shapes| && shapes[i] == w.shape;
    assert w.shape.geometryId == i;
  }

  /**
   * Two shapes with geometry ids 0 and 1; the second is hit on its primitive
   * 0. As written, the record is filled from the first shape, with primitive id 1.
   */
  lemma AsWrittenFillsFromWrongShape(box: Bounds3)
    ensures var a := Shape(0, 0, box, None);
      var b := Shape(1, 1, box, None);
      var w := Winner(b, PrimHit(0, 0.5, 0.5, 1.0));
      GetIntersectAsWritten([a, b], Some(w.Query()), 1.0) == Record(Intersection(1.0, 0, 1, 0.5, 0.5))
      && GetIntersect([a, b], Some(w.Query()), 1.0) == Record(Intersection(1.0, 1, 0, 0.5, 0.5))
  {
  }

  /**
   * With the default geometry id 0, a single mesh hit on its primitive 3
   * makes the as-written lookup index past the one-element shape list.
   */
  lemma AsWrittenIndexesPastList(box: Bounds3)
    ensures var mesh := Shape(0, 0, box, None);
      var w := Winner(mesh, PrimHit(3, 0.25, 0.25, 2.0));
      GetIntersectAsWritten([mesh], Some(w.Query()), 2.0) == IndexOutOfBounds
      && GetIntersect([mesh], Some(w.Query()), 2.0) == Record(Intersection(2.0, 0, 3, 0.25, 0.25))
  {
  }
}
