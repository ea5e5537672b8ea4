/**
 * The volumetric path tracer (`integrator/volpath.rs`): the path tracer's
 * loop with a participating medium carried by the ray. When the ray is in a
 * medium, the medium is sampled first; a valid medium interaction scatters
 * the path by the phase function, otherwise the surface is shaded and the
 * ray's medium is switched by the side of the surface it leaves through.
 * Russian roulette and the depth count close every iteration of both
 * branches.
 */
module VolPathIntegrators {
  import opened Wrappers
  import opened Vectors
  import opened Rays
  import Media
  import opened Integrators

  /** `throughput *= medium.sample(..)` when the ray carries a medium, with the interaction written. */
  function MediumStep(w: World, st: PathState): (r: (Spectrum, Media.MediumInteraction))
    ensures st.ray.medium.None? ==> r == (st.throughput, Media.DefaultInteraction())
    ensures st.ray.medium.Some? ==> var (wt, mi) := w.mediumSample(st.ray.medium.value, st.ray, st.depth);
      r == (SMul(st.throughput, wt), mi)
  {
    match st.ray.medium
    case None => (st.throughput, Media.DefaultInteraction())
    case Some(m) =>
      var (wt, mi) := w.mediumSample(m, st.ray, st.depth);
      (SMul(st.throughput, wt), mi)
  }

  /** The medium the ray enters after leaving a surface in direction `wi`. */
  function NextMedium(its: SurfaceHit, wi: Vec3): Option<Media.MediumRef> {
    if Dot(its.normal, wi) > 0.0 then its.mediumInterface.outside else its.mediumInterface.inside
  }

  /** The end of every iteration: roulette from the fourth bounce on, then `/= 0.95` and `depth += 1`. */
  function Roulette(w: World, pre: PathState): (r: Step<PathState>)
    ensures r.Done? <==> pre.depth > 2 && w.roulette(pre.depth) > 0.95
    ensures r.Done? ==> r == Done(pre.spectrum, pre.ray)
    ensures r.Next? ==> r.next == pre.(throughput := SDiv(pre.throughput, 0.95), depth := pre.depth + 1)
  {
    if pre.depth > 2 && w.roulette(pre.depth) > 0.95 then Done(pre.spectrum, pre.ray)
    else Next(pre.(throughput := SDiv(pre.throughput, 0.95), depth := pre.depth + 1))
  }

  /** The surface branch, taken when the medium produced no valid interaction. */
  function SurfaceStep(w: World, maxDepth: nat, st: PathState, t1: Spectrum): (r: Step<PathState>)
    ensures w.intersect(st.ray).None? ==> r == Done(AddInfinite(st.spectrum, t1, w.infinite, w.envEmission, st.ray), st.ray)
    ensures st.depth >= maxDepth && w.intersect(st.ray).Some? ==> r == Done(GatedEmission(w, st, w.intersect(st.ray).value), st.ray)
    ensures r.Next? ==> st.depth < maxDepth && r.next.depth == st.depth + 1
    ensures r.Next? ==> var its := w.intersect(st.ray).value;
      var bs := w.bsdf(its, Neg(st.ray.direction), st.depth);
      && !IsBlack(bs.weight)
      && r.next.throughput == SDiv(SMul(t1, bs.weight), 0.95)
      && r.next.ray == Moved(st.ray, its.position, bs.wi).(medium := NextMedium(its, bs.wi))
      && r.next.specular == (bs.tp == Specular)
    ensures st.depth < maxDepth && w.intersect(st.ray).Some? ==>
      var its := w.intersect(st.ray).value;
      var s2 := w.illumination(its, Neg(st.ray.direction), GatedEmission(w, st, its), t1, st.depth);
      && (r.Done? ==> r.result == s2)
      && (r.Next? ==> r.next.spectrum == s2)
  {
    match w.intersect(st.ray)
    case None => Done(AddInfinite(st.spectrum, t1, w.infinite, w.envEmission, st.ray), st.ray)
    case Some(its) =>
      var wo := Neg(st.ray.direction);
      var s1 := GatedEmission(w, st, its);
      if st.depth >= maxDepth then Done(s1, st.ray)
      else
        var s2 := w.illumination(its, wo, s1, t1, st.depth);
        var bs := w.bsdf(its, wo, st.depth);
        if IsBlack(bs.weight) then Done(s2, st.ray)
        else
          var ray2 := Moved(st.ray, its.position, bs.wi).(medium := NextMedium(its, bs.wi));
          Roulette(w, PathState(s2, SMul(t1, bs.weight), st.depth, bs.tp == Specular, ray2))
  }

  /** One iteration of the loop of `li`. */
  function VolStep(w: World, maxDepth: nat, st: PathState): (r: Step<PathState>)
    ensures var (t1, mi) := MediumStep(w, st);
      && (IsBlack(t1) ==> r == Done(st.spectrum, st.ray))
      && (!IsBlack(t1) && !Media.IsValid(mi) ==> r == SurfaceStep(w, maxDepth, st, t1))
      && (!IsBlack(t1) && Media.IsValid(mi) && r.Next? ==>
            var wi := w.phaseSample(mi, Neg(st.ray.direction), st.depth);
            && r.next.ray == Moved(st.ray, mi.position, wi)
            && !r.next.specular
            && r.next.throughput == SDiv(t1, 0.95))
      && (!IsBlack(t1) && Media.IsValid(mi) && st.depth >= maxDepth ==> r == Done(st.spectrum, st.ray))
      && (!IsBlack(t1) && Media.IsValid(mi) && st.depth < maxDepth ==>
            var s2 := w.mediumIllumination(mi, Neg(st.ray.direction), st.spectrum, t1, st.depth);
            && (r.Done? ==> r.result == s2)
            && (r.Next? ==> r.next.spectrum == s2))
    ensures r.Next? ==> st.depth < maxDepth && r.next.depth == st.depth + 1
  {
    var (t1, mi) := MediumStep(w, st);
    if IsBlack(t1) then Done(st.spectrum, st.ray)
    else if Media.IsValid(mi) then
      if st.depth >= maxDepth then Done(st.spectrum, st.ray)
      else
        var wo := Neg(st.ray.direction);
        var s2 := w.mediumIllumination(mi, wo, st.spectrum, t1, st.depth);
        var wi := w.phaseSample(mi, wo, st.depth);
        Roulette(w, PathState(s2, t1, st.depth, false, Moved(st.ray, mi.position, wi)))
    else SurfaceStep(w, maxDepth, st, t1)
  }

  /** The whole loop, from state `st`. */
  function VolRun(w: World, maxDepth: nat, st: PathState): Outcome
    decreases Remaining(maxDepth, st.depth)
  {
    match VolStep(w, maxDepth, st)
    case Done(s, r) => Outcome(s, r, 1)
    case Next(n) =>
      var o := VolRun(w, maxDepth, n);
      o.(iterations := o.iterations + 1)
  }

  /**
   * The surface branch of the loop body on the caller's ray: `stop` when the
   * iteration ends there, otherwise the state handed to the roulette.
   */
  method SurfaceBounce(w: World, maxDepth: nat, ray: Ray, ghost st: PathState,
                       spectrum0: Spectrum, throughput0: Spectrum, depth: nat, specular0: bool)
    returns (stop: bool, spectrum: Spectrum, throughput: Spectrum, specular: bool)
    requires st.ray == ray.State() && st.spectrum == spectrum0 && st.depth == depth && st.specular == specular0
    modifies ray
    ensures stop ==> SurfaceStep(w, maxDepth, st, throughput0) == Done(spectrum, ray.State())
    ensures !stop ==> SurfaceStep(w, maxDepth, st, throughput0) == Roulette(w, PathState(spectrum, throughput, depth, specular, ray.State()))
  {
    spectrum, throughput, specular := spectrum0, throughput0, specular0;
    var hit := w.intersect(ray.State());
    if hit.None? {
      spectrum := AddInfinite(spectrum, throughput, w.infinite, w.envEmission, ray.State());
      return true, spectrum, throughput, specular;
    }
    var its := hit.value;
    var wo := Neg(ray.direction);
    if specular || depth == 0 {
      if its.light.Some? {
        spectrum := SAdd(spectrum, w.emission(its.light.value, its, wo));
      }
    }
    assert spectrum == GatedEmission(w, st, its);
    if depth >= maxDepth {
      return true, spectrum, throughput, specular;
    }
    spectrum := w.illumination(its, wo, spectrum, throughput, depth);
    var bs := w.bsdf(its, wo, depth);
    if IsBlack(bs.weight) {
      return true, spectrum, throughput, specular;
    }
    throughput := SMul(throughput, bs.weight);
    ray.origin := its.position;
    ray.ChangeDir(bs.wi);
    ray.medium := if Dot(its.normal, ray.direction) > 0.0 then its.mediumInterface.outside
                  else its.mediumInterface.inside;
    ray.Reset();
    specular := bs.tp == Specular;
    stop := false;
  }

  /** `li`: the loop on the caller's ray. */
  method Li(w: World, maxDepth: nat, ray: Ray) returns (spectrum: Spectrum)
    modifies ray
    ensures var o := VolRun(w, maxDepth, PathInit(old(ray.State())));
      spectrum == o.spectrum && ray.State() == o.ray
  {
    ghost var goal := VolRun(w, maxDepth, PathInit(ray.State()));
    spectrum := Grey(0.0);
    var throughput := Grey(1.0);
    var specular := false;
    var depth: nat := 0;
    while true
      invariant var o := VolRun(w, maxDepth, PathState(spectrum, throughput, depth, specular, ray.State()));
        o.spectrum == goal.spectrum && o.ray == goal.ray
      decreases Remaining(maxDepth, depth)
    {
      ghost var cur := PathState(spectrum, throughput, depth, specular, ray.State());
      var mi := Media.DefaultInteraction();
      if ray.medium.Some? {
        var (wt, m) := w.mediumSample(ray.medium.value, ray.State(), depth);
        throughput := SMul(throughput, wt);
        mi := m;
      }
      assert (throughput, mi) == MediumStep(w, cur);
      if IsBlack(throughput) {
        break;
      }
      if Media.IsValid(mi) {
        if depth >= maxDepth {
          break;
        }
        var wo := Neg(ray.direction);
        spectrum := w.mediumIllumination(mi, wo, spectrum, throughput, depth);
        var wi := w.phaseSample(mi, wo, depth);
        MoveRay(ray, mi.position, wi);
        specular := false;
        assert VolStep(w, maxDepth, cur) == Roulette(w, PathState(spectrum, throughput, depth, specular, ray.State()));
      } else {
        assert VolStep(w, maxDepth, cur) == SurfaceStep(w, maxDepth, cur, throughput);
        var stop;
        stop, spectrum, throughput, specular := SurfaceBounce(w, maxDepth, ray, cur, spectrum, throughput, depth, specular);
        if stop {
          return;
        }
      }
      if depth > 2 && w.roulette(depth) > 0.95 {
        break;
      }
      throughput := SDiv(throughput, 0.95);
      depth := depth + 1;
    }
  }

  /**
   * The depth check comes before any illumination sampling in both
   * branches, so the loop runs at most `max_depth - depth + 1` times.
   */
  lemma {:induction false} VolIterationBound(w: World, maxDepth: nat, st: PathState)
    requires st.depth <= maxDepth
    ensures VolRun(w, maxDepth, st).iterations <= maxDepth - st.depth + 1
    decreases Remaining(maxDepth, st.depth)
  {
    match VolStep(w, maxDepth, st)
    case Done(_, _) =>
    case Next(n) =>
      VolIterationBound(w, maxDepth, n);
  }

  /** In a world that adds no light, the volumetric path tracer returns black. */
  lemma {:induction false} VolDarkIsBlack(w: World, maxDepth: nat, st: PathState)
    requires Dark(w) && IsBlack(st.spectrum)
    ensures IsBlack(VolRun(w, maxDepth, st).spectrum)
    decreases Remaining(maxDepth, st.depth)
  {
    VolStepDark(w, maxDepth, st);
    match VolStep(w, maxDepth, st)
    case Done(_, _) =>
    case Next(n) =>
      VolDarkIsBlack(w, maxDepth, n);
  }

  /** One iteration in such a world keeps the spectrum black. */
  lemma VolStepDark(w: World, maxDepth: nat, st: PathState)
    requires Dark(w) && IsBlack(st.spectrum)
    ensures var r := VolStep(w, maxDepth, st);
      (r.Done? ==> IsBlack(r.result)) && (r.Next? ==> IsBlack(r.next.spectrum))
  {
    var (t1, mi) := MediumStep(w, st);
    if !IsBlack(t1) && !Media.IsValid(mi) {
      SurfaceStepDark(w, maxDepth, st, t1);
    } else {
      assert IsBlack(w.mediumIllumination(mi, Neg(st.ray.direction), st.spectrum, t1, st.depth));
    }
  }

  /** The surface branch in such a world keeps the spectrum black. */
  lemma SurfaceStepDark(w: World, maxDepth: nat, st: PathState, t1: Spectrum)
    requires Dark(w) && IsBlack(st.spectrum)
    ensures var r := SurfaceStep(w, maxDepth, st, t1);
      (r.Done? ==> IsBlack(r.result)) && (r.Next? ==> IsBlack(r.next.spectrum))
  {
    var hit := w.intersect(st.ray);
    if hit.Some? {
      var its := hit.value;
      DarkEmission(w, st, its);
      assert IsBlack(w.illumination(its, Neg(st.ray.direction), GatedEmission(w, st, its), t1, st.depth));
    } else {
      DarkInfinite(w, st.spectrum, t1, st.ray);
    }
  }
}
