/**
 * The normal integrator (`integrator/normal_integrator.rs`): the colour of a
 * pixel is the surface normal at the first hit mapped from `[-1, 1]` to
 * `[0, 1]`, and black on a miss. The sampler is never used, so it is not a
 * parameter.
 */
module NormalIntegrators {
  import opened Wrappers
  import opened Vectors
  import opened Rays
  import opened Integrators

  /** `(n + (1, 1, 1)) * 0.5` as an RGB triple. */
  function NormalColour(n: Vec3): Spectrum {
    Rgb((n.x + 1.0) * 0.5, (n.y + 1.0) * 0.5, (n.z + 1.0) * 0.5)
  }

  /** `NormalIntegrator::li`; `intersect` is the scene's query. */
  function NormalLi(intersect: RayState -> Option<SurfaceHit>, ray: RayState): (s: Spectrum)
    ensures intersect(ray).None? ==> s == Grey(0.0)
    ensures intersect(ray).Some? ==> s == NormalColour(intersect(ray).value.normal)
  {
    match intersect(ray)
    case None => Grey(0.0)
    case Some(its) => NormalColour(its.normal)
  }

  predicate InUnit(x: real) {
    0.0 <= x <= 1.0
  }

  /** A normal with components in `[-1, 1]` gives channels in `[0, 1]`. */
  lemma NormalLiInUnit(intersect: RayState -> Option<SurfaceHit>, ray: RayState)
    requires intersect(ray).Some? ==>
      var n := intersect(ray).value.normal;
      -1.0 <= n.x <= 1.0 && -1.0 <= n.y <= 1.0 && -1.0 <= n.z <= 1.0
    ensures var s := NormalLi(intersect, ray);
      InUnit(s.r) && InUnit(s.g) && InUnit(s.b)
  {
  }

  /** The mapping loses nothing: the normal is `2 s - 1`. */
  lemma NormalColourInverts(n: Vec3)
    ensures var s := NormalColour(n);
      n == Vec3(2.0 * s.r - 1.0, 2.0 * s.g - 1.0, 2.0 * s.b - 1.0)
  {
  }
}
