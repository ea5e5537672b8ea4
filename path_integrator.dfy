/**
 * The path tracer (`integrator/path_integrator.rs`): a loop over bounces that
 * adds emission seen directly or through specular chains, samples
 * illumination at every hit, plays Russian roulette once the depth,
 * counted after the hit, exceeds 2, and follows the BSDF sample.
 * `PathStep` is one iteration, `PathRun` the whole loop, and `Li` the loop
 * itself on a ray object.
 */
module PathIntegrators {
  import opened Wrappers
  import opened ExtReal
  import opened Vectors
  import opened Rays
  import opened Integrators

  /** One iteration of the loop of `li`. */
  function PathStep(w: World, maxDepth: nat, st: PathState): (r: Step<PathState>)
    ensures w.intersect(st.ray).None? ==>
      r == Done(AddInfinite(st.spectrum, st.throughput, w.infinite, w.envEmission, st.ray), st.ray)
    ensures r.Next? ==> r.next.depth == st.depth + 1 && r.next.depth < maxDepth
    ensures r.Next? ==> var its := w.intersect(st.ray).value;
      var bs := w.bsdf(its, Neg(st.ray.direction), st.depth);
      && !IsBlack(bs.weight)
      && (st.depth + 1 > 2 ==> w.roulette(st.depth) <= 0.95)
      && r.next.throughput == SMul(SDiv(st.throughput, 0.95), bs.weight)
      && r.next.specular == (bs.tp == Specular)
      && r.next.ray == Moved(st.ray, its.position, bs.wi)
    ensures w.intersect(st.ray).Some? && st.depth + 1 >= maxDepth ==>
      r == Done(GatedEmission(w, st, w.intersect(st.ray).value), st.ray)
    ensures w.intersect(st.ray).Some? && st.depth + 1 < maxDepth ==>
      var its := w.intersect(st.ray).value;
      var s2 := w.illumination(its, Neg(st.ray.direction), GatedEmission(w, st, its), st.throughput, st.depth);
      && (r.Done? ==> r.result == s2)
      && (r.Next? ==> r.next.spectrum == s2)
    ensures r.Done? ==> r.ray == st.ray
  {
    match w.intersect(st.ray)
    case None => Done(AddInfinite(st.spectrum, st.throughput, w.infinite, w.envEmission, st.ray), st.ray)
    case Some(its) =>
      var wo := Neg(st.ray.direction);
      var s1 := GatedEmission(w, st, its);
      var depth := st.depth + 1;
      if depth >= maxDepth then Done(s1, st.ray)
      else
        var s2 := w.illumination(its, wo, s1, st.throughput, st.depth);
        if depth > 2 && w.roulette(st.depth) > 0.95 then Done(s2, st.ray)
        else
          var t1 := SDiv(st.throughput, 0.95);
          var bs := w.bsdf(its, wo, st.depth);
          if IsBlack(bs.weight) then Done(s2, st.ray)
          else Next(PathState(s2, SMul(t1, bs.weight), depth, bs.tp == Specular, Moved(st.ray, its.position, bs.wi)))
  }

  /** The whole loop, from state `st`. */
  function PathRun(w: World, maxDepth: nat, st: PathState): Outcome
    decreases Remaining(maxDepth, st.depth)
  {
    match PathStep(w, maxDepth, st)
    case Done(s, r) => Outcome(s, r, 1)
    case Next(n) =>
      var o := PathRun(w, maxDepth, n);
      o.(iterations := o.iterations + 1)
  }

  /**
   * `li`: the loop on the caller's ray, which ends up where the last bounce
   * left it.
   */
  method Li(w: World, maxDepth: nat, ray: Ray) returns (spectrum: Spectrum)
    modifies ray
    ensures var o := PathRun(w, maxDepth, PathInit(old(ray.State())));
      spectrum == o.spectrum && ray.State() == o.ray
  {
    ghost var goal := PathRun(w, maxDepth, PathInit(ray.State()));
    spectrum := Grey(0.0);
    var throughput := Grey(1.0);
    var depth: nat := 0;
    var specular := false;
    while true
      invariant var o := PathRun(w, maxDepth, PathState(spectrum, throughput, depth, specular, ray.State()));
        o.spectrum == goal.spectrum && o.ray == goal.ray
      decreases Remaining(maxDepth, depth)
    {
      ghost var cur := PathState(spectrum, throughput, depth, specular, ray.State());
      var hit := w.intersect(ray.State());
      if hit.None? {
        spectrum := AddInfinite(spectrum, throughput, w.infinite, w.envEmission, ray.State());
        return;
      }
      var its := hit.value;
      var wo := Neg(ray.direction);
      if depth == 0 || specular {
        if its.light.Some? {
          spectrum := SAdd(spectrum, w.emission(its.light.value, its, wo));
        }
      }
      assert spectrum == GatedEmission(w, cur, its);
      depth := depth + 1;
      if depth >= maxDepth {
        break;
      }
      spectrum := w.illumination(its, wo, spectrum, throughput, depth - 1);
      if depth > 2 && w.roulette(depth - 1) > 0.95 {
        break;
      }
      throughput := SDiv(throughput, 0.95);
      var bs := w.bsdf(its, wo, depth - 1);
      if IsBlack(bs.weight) {
        break;
      }
      throughput := SMul(throughput, bs.weight);
      MoveRay(ray, its.position, bs.wi);
      specular := bs.tp == Specular;
      assert PathStep(w, maxDepth, cur) == Next(PathState(spectrum, throughput, depth, specular, ray.State()));
    }
  }

  /**
   * `depth` is counted before it is compared, so the loop runs at most
   * `max(max_depth - depth, 1)` times from any state, and at most
   * `max(max_depth, 1)` times from the start.
   */
  lemma {:induction false} PathIterationBound(w: World, maxDepth: nat, st: PathState)
    ensures PathRun(w, maxDepth, st).iterations <= if st.depth < maxDepth then maxDepth - st.depth else 1
    decreases Remaining(maxDepth, st.depth)
  {
    match PathStep(w, maxDepth, st)
    case Done(_, _) =>
    case Next(n) =>
      PathIterationBound(w, maxDepth, n);
  }

  /**
   * The bound is reached: if every query hits, no roulette draw kills and
   * no BSDF weight is black, the loop runs exactly `max(max_depth - depth, 1)`
   * times.
   */
  lemma {:induction false} PathIterationBoundReached(w: World, maxDepth: nat, st: PathState)
    requires forall r :: w.intersect(r).Some?
    requires forall k :: w.roulette(k) <= 0.95
    requires forall its, wo, k :: !IsBlack(w.bsdf(its, wo, k).weight)
    ensures PathRun(w, maxDepth, st).iterations == if st.depth < maxDepth then maxDepth - st.depth else 1
    decreases Remaining(maxDepth, st.depth)
  {
    var its := w.intersect(st.ray).value;
    var bs := w.bsdf(its, Neg(st.ray.direction), st.depth);
    assert !IsBlack(bs.weight);
    assert w.roulette(st.depth) <= 0.95;
    match PathStep(w, maxDepth, st)
    case Done(_, _) =>
    case Next(n) =>
      PathIterationBoundReached(w, maxDepth, n);
  }

  /** In a world that adds no light, the path tracer returns black. */
  lemma {:induction false} PathDarkIsBlack(w: World, maxDepth: nat, st: PathState)
    requires Dark(w) && IsBlack(st.spectrum)
    ensures IsBlack(PathRun(w, maxDepth, st).spectrum)
    decreases Remaining(maxDepth, st.depth)
  {
    var hit := w.intersect(st.ray);
    if hit.Some? {
      var its := hit.value;
      DarkEmission(w, st, its);
      var s1 := GatedEmission(w, st, its);
      assert IsBlack(w.illumination(its, Neg(st.ray.direction), s1, st.throughput, st.depth));
    } else {
      DarkInfinite(w, st.spectrum, st.throughput, st.ray);
    }
    match PathStep(w, maxDepth, st)
    case Done(_, _) =>
    case Next(n) =>
      PathDarkIsBlack(w, maxDepth, n);
  }
}
