/**
 * The linear index (`linear.rs`): every query tests every attached shape in
 * order, and building only asks each shape to prepare its own internal
 * structure, so the base's bounds keep their default.
 */
module Linear {
  import opened Wrappers
  import opened Rays
  import opened Bounds
  import opened Acceleration

  class LinearAccel {
    var bounds: Bounds3
    var shapes: seq<Shape>

    /** `LinearAccel::default()`: an empty base. */
    constructor ()
      ensures bounds == Default() && shapes == []
    {
      bounds := Default();
      shapes := [];
    }

    /** `attach_shape`: append at the end, nothing else changes. */
    method AttachShape(sh: Shape)
      modifies this
      ensures shapes == old(shapes) + [sh] && bounds == old(bounds)
    {
      shapes := shapes + [sh];
    }

    /**
     * `ray_intersect`: the scan of the whole list, reporting the tuple of
     * the last shape that hit and leaving the ray narrowed to that hit.
     */
    method RayIntersect(ray: Ray, hit: HitOracle) returns (q: Option<QueryHit>)
      modifies ray
      ensures q == ToQuery(Scan(shapes, hit, old(ray.State())).winner)
      ensures ray.State() == Scan(shapes, hit, old(ray.State())).ray
    {
      var w := ScanShapes(shapes, ray, hit);
      q := ToQuery(w);
    }

    /** `build`: the shapes' own preparation is not modelled, so nothing of the index changes. */
    method Build()
    {
    }

    /** `get_intersect` (with the tuple read in the order `ray_intersect` produces it). */
    method GetIntersect(ray: Ray, hit: HitOracle) returns (r: Lookup)
      modifies ray
      ensures var t := Scan(shapes, hit, old(ray.State()));
        r == Acceleration.GetIntersect(shapes, ToQuery(t.winner), t.ray.tMax) && ray.State() == t.ray
    {
      var q := RayIntersect(ray, hit);
      r := Acceleration.GetIntersect(shapes, q, ray.tMax);
    }

    function Atp(): AccelerationType
    {
      AccelerationType.Linear
    }
  }

  /**
   * A linear query returns the nearest candidate hit among all shapes (the
   * earliest on ties), or nothing when no shape has a hit in the ray's
   * window, and it only narrows the ray's `t_max`.
   */
  lemma LinearFindsNearest(shapes: seq<Shape>, hit: HitOracle, s0: RayState, cand: Shape -> Option<PrimHit>)
    requires WindowOracle(hit, s0, cand)
    ensures var r := Scan(shapes, hit, s0);
      && (r.winner.None? <==> forall j :: 0 <= j < |shapes| ==> !InWindow(cand(shapes[j]), s0.tMin, s0.tMax))
      && (r.winner.Some? ==> exists k :: IsNearest(shapes, cand, s0.tMin, s0.tMax, k) && r.winner.value == Winner(shapes[k], cand(shapes[k]).value))
      && (r.winner.Some? ==> r.ray.tMax == r.winner.value.hit.t)
      && r.ray == s0.(tMax := r.ray.tMax)
  {
    assert s0.(tMax := s0.tMax) == s0;
    ScanNearest(shapes, hit, s0, cand, s0.tMax);
  }
}
