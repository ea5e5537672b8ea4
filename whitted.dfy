/**
 * The Whitted integrator (`integrator/whitted_integrator.rs`): specular
 * bounces are followed with no depth limit, every emitter hit on the way is
 * added weighted by the path's `beta`, and the first diffuse hit gathers
 * direct light from the infinite light and from one drawn light through
 * shadow rays and ends the loop.
 *
 * A light term divided by a pdf that is zero or undefined is not a finite
 * number; the spectrum is then None and stays None, as infinities and NaN
 * absorb further sums.
 */
module WhittedIntegrators {
  import opened Wrappers
  import opened ExtReal
  import opened Vectors
  import opened Rays
  import opened Integrators

  /** The loop state: the spectrum so far (None once non-finite), `beta`, the bounce count and the ray. */
  datatype WhittedState = WhittedState(spectrum: Option<Spectrum>, beta: Spectrum, bounce: nat, ray: RayState)

  datatype WhittedStep = Again(next: WhittedState) | Stop(result: Option<Spectrum>, ray: RayState)

  function WhittedInit(ray: RayState): WhittedState {
    WhittedState(Some(Grey(0.0)), Grey(1.0), 0, ray)
  }

  /** `s += x`, with a non-finite sum absorbing. */
  function Plus(s: Option<Spectrum>, x: Spectrum): (r: Option<Spectrum>)
    ensures r.Some? <==> s.Some?
    ensures r.Some? ==> r.value == SAdd(s.value, x)
  {
    match s
    case None => None
    case Some(v) => Some(SAdd(v, x))
  }

  /**
   * A light sample's contribution `beta * energy * f / pdf`, added only if
   * the shadow ray from the hit reaches the light unoccluded.
   */
  function Shadowed(w: World, s: Option<Spectrum>, beta: Spectrum, its: SurfaceHit, wo: Vec3,
                    res: LightSampleResult, shadow: RayState): (r: Option<Spectrum>)
    ensures w.intersect(shadow).Some? ==> r == s
    ensures w.intersect(shadow).None? && ConvertPdf(res).Some? && ConvertPdf(res).value != 0.0 ==>
      r == Plus(s, SDiv(SMul(SMul(beta, res.energy), w.bsdfEval(its, wo, shadow.direction)), ConvertPdf(res).value))
    ensures w.intersect(shadow).None? && !(ConvertPdf(res).Some? && ConvertPdf(res).value != 0.0) ==> r.None?
  {
    if w.intersect(shadow).Some? then s
    else
      var f := w.bsdfEval(its, wo, shadow.direction);
      match ConvertPdf(res)
      case Some(p) =>
        if p == 0.0 then None else Plus(s, SDiv(SMul(SMul(beta, res.energy), f), p))
      case None => None
  }

  /** The diffuse branch: infinite light, then one drawn light, then the loop ends. */
  function DiffuseStep(w: World, st: WhittedState, s1: Option<Spectrum>, its: SurfaceHit): Option<Spectrum> {
    DrawnTerm(w, st, InfiniteTerm(w, st, s1, its), its)
  }

  /**
   * The drawn light: none is added when no light is drawn or `pdf_light` is
   * 0; otherwise its pdf is scaled by `pdf_light` and its shadow ray stops at
   * the sampled distance.
   */
  function DrawnTerm(w: World, st: WhittedState, s2: Option<Spectrum>, its: SurfaceHit): (r: Option<Spectrum>)
    ensures (w.lightDraw(st.bounce).None? || w.lightDraw(st.bounce).value.1 == 0.0) ==> r == s2
    ensures w.lightDraw(st.bounce).Some? && w.lightDraw(st.bounce).value.1 != 0.0 ==>
      var (light, pdfLight) := w.lightDraw(st.bounce).value;
      var res := w.lightSample(light, its, 2 * st.bounce + 1);
      r == Shadowed(w, s2, st.beta, its, Neg(st.ray.direction), ScaledPdf(res, pdfLight),
                    FreshRay(its.position, res.direction).(tMax := res.distance))
  {
    var draw := w.lightDraw(st.bounce);
    if draw.None? || draw.value.1 == 0.0 then s2
    else
      var res := w.lightSample(draw.value.0, its, 2 * st.bounce + 1);
      var shadow := FreshRay(its.position, res.direction).(tMax := res.distance);
      Shadowed(w, s2, st.beta, its, Neg(st.ray.direction), ScaledPdf(res, draw.value.1), shadow)
  }

  /** `res.pdf *= pdf_light`. */
  function ScaledPdf(res: LightSampleResult, pdfLight: real): (r: LightSampleResult)
    ensures r.pdf == res.pdf * pdfLight
    ensures r.(pdf := res.pdf) == res
  {
    res.(pdf := res.pdf * pdfLight)
  }

  /** The loop over `scene.infinite_lights`, with a shadow ray of unbounded reach. */
  function InfiniteTerm(w: World, st: WhittedState, s1: Option<Spectrum>, its: SurfaceHit): (r: Option<Spectrum>)
    ensures w.infinite.None? ==> r == s1
    ensures w.infinite.Some? ==>
      var res := w.lightSample(w.infinite.value, its, 2 * st.bounce);
      r == Shadowed(w, s1, st.beta, its, Neg(st.ray.direction), res, FreshRay(its.position, res.direction))
  {
    match w.infinite
    case None => s1
    case Some(l) =>
      var res := w.lightSample(l, its, 2 * st.bounce);
      Shadowed(w, s1, st.beta, its, Neg(st.ray.direction), res, FreshRay(its.position, res.direction))
  }

  /** The spectrum after a surface hit: the emitter's term weighted by `beta` is added when the surface is a light. */
  function Emitted(w: World, st: WhittedState, its: SurfaceHit): (r: Option<Spectrum>)
    ensures its.light.None? ==> r == st.spectrum
    ensures its.light.Some? ==> r == Plus(st.spectrum, SMul(st.beta, w.emission(its.light.value, its, Neg(st.ray.direction))))
  {
    if its.light.Some? then Plus(st.spectrum, SMul(st.beta, w.emission(its.light.value, its, Neg(st.ray.direction))))
    else st.spectrum
  }

  /** One iteration of the loop of `li`. */
  function WhittedStepOf(w: World, st: WhittedState): (r: WhittedStep)
    ensures r.Again? <==> (w.intersect(st.ray).Some? &&
      w.bsdf(w.intersect(st.ray).value, Neg(st.ray.direction), st.bounce).tp == Specular)
    ensures r.Again? ==> var its := w.intersect(st.ray).value;
      var bs := w.bsdf(its, Neg(st.ray.direction), st.bounce);
      && r.next.beta == SMul(st.beta, bs.weight)
      && r.next.ray == Moved(st.ray, its.position, bs.wi)
      && r.next.bounce == st.bounce + 1
      && r.next.spectrum == Emitted(w, st, its)
    ensures w.intersect(st.ray).None? ==>
      r == Stop(if st.spectrum.None? then None
                else Some(AddInfinite(st.spectrum.value, st.beta, w.infinite, w.envEmission, st.ray)), st.ray)
    ensures w.intersect(st.ray).Some? && r.Stop? ==>
      r.result == DiffuseStep(w, st, Emitted(w, st, w.intersect(st.ray).value), w.intersect(st.ray).value)
    ensures r.Stop? ==> r.ray == st.ray
  {
    match w.intersect(st.ray)
    case None =>
      var s := match st.spectrum
        case None => None
        case Some(v) => Some(AddInfinite(v, st.beta, w.infinite, w.envEmission, st.ray));
      Stop(s, st.ray)
    case Some(its) =>
      var wo := Neg(st.ray.direction);
      var s1 := Emitted(w, st, its);
      var bs := w.bsdf(its, wo, st.bounce);
      match bs.tp
      case Specular => Again(WhittedState(s1, SMul(st.beta, bs.weight), st.bounce + 1, Moved(st.ray, its.position, bs.wi)))
      case Diffuse => Stop(DiffuseStep(w, st, s1, its), st.ray)
  }

  /**
   * The loop ends within `n` iterations from `st`. The source's loop has no
   * bound of its own: it ends only at a miss or a diffuse hit.
   */
  ghost predicate EndsWithin(w: World, st: WhittedState, n: nat)
    decreases n
  {
    n > 0 && (WhittedStepOf(w, st).Again? ==> EndsWithin(w, WhittedStepOf(w, st).next, n - 1))
  }

  /** The whole loop; the spectrum and the ray it leaves. */
  function WhittedRun(w: World, st: WhittedState, n: nat): (Option<Spectrum>, RayState)
    requires EndsWithin(w, st, n)
    decreases n
  {
    match WhittedStepOf(w, st)
    case Stop(s, r) => (s, r)
    case Again(next) => WhittedRun(w, next, n - 1)
  }

  /** The result does not depend on the bound used to show that the loop ends. */
  lemma {:induction false} WhittedRunAnyBound(w: World, st: WhittedState, n: nat, m: nat)
    requires EndsWithin(w, st, n) && EndsWithin(w, st, m)
    ensures WhittedRun(w, st, n) == WhittedRun(w, st, m)
    decreases n
  {
    match WhittedStepOf(w, st)
    case Stop(_, _) =>
    case Again(next) =>
      WhittedRunAnyBound(w, next, n - 1, m - 1);
  }

  /** A loop that ends within `n` iterations ends within any larger number. */
  lemma {:induction false} EndsWithinMore(w: World, st: WhittedState, n: nat, m: nat)
    requires EndsWithin(w, st, n) && n <= m
    ensures EndsWithin(w, st, m)
    decreases n
  {
    match WhittedStepOf(w, st)
    case Stop(_, _) =>
    case Again(next) =>
      EndsWithinMore(w, next, n - 1, m - 1);
  }

  /**
   * The loop ends in one iteration exactly at a miss or a diffuse hit, and
   * it ends at all once the specular chain from the ray stops.
   */
  lemma EndsAtOnce(w: World, st: WhittedState)
    ensures EndsWithin(w, st, 1) <==> (w.intersect(st.ray).None? ||
      w.bsdf(w.intersect(st.ray).value, Neg(st.ray.direction), st.bounce).tp == Diffuse)
  {
    assert EndsWithin(w, st, 1) <==> WhittedStepOf(w, st).Stop?;
  }

  /**
   * `li`: the loop on the caller's ray. `bound` is a number of iterations
   * within which the loop is known to end; its value does not matter.
   */
  method Li(w: World, ray: Ray, ghost bound: nat) returns (spectrum: Option<Spectrum>)
    requires EndsWithin(w, WhittedInit(ray.State()), bound)
    modifies ray
    ensures (spectrum, ray.State()) == WhittedRun(w, WhittedInit(old(ray.State())), bound)
  {
    ghost var goal := WhittedRun(w, WhittedInit(ray.State()), bound);
    spectrum := Some(Grey(0.0));
    var beta := Grey(1.0);
    var bounce: nat := 0;
    ghost var fuel := bound;
    while true
      invariant EndsWithin(w, WhittedState(spectrum, beta, bounce, ray.State()), fuel)
      invariant WhittedRun(w, WhittedState(spectrum, beta, bounce, ray.State()), fuel) == goal
      decreases fuel
    {
      var cur := WhittedState(spectrum, beta, bounce, ray.State());
      var hit := w.intersect(ray.State());
      if hit.None? {
        if spectrum.Some? {
          spectrum := Some(AddInfinite(spectrum.value, beta, w.infinite, w.envEmission, ray.State()));
        }
        assert WhittedStepOf(w, cur) == Stop(spectrum, ray.State());
        break;
      }
      var its := hit.value;
      var wo := Neg(ray.direction);
      if its.light.Some? {
        spectrum := Plus(spectrum, SMul(beta, w.emission(its.light.value, its, wo)));
      }
      var bs := w.bsdf(its, wo, bounce);
      match bs.tp
      case Specular =>
        MoveRay(ray, its.position, bs.wi);
        beta := SMul(beta, bs.weight);
        bounce := bounce + 1;
        fuel := fuel - 1;
        assert WhittedStepOf(w, cur) == Again(WhittedState(spectrum, beta, bounce, ray.State()));
      case Diffuse =>
        spectrum := Gather(w, cur, spectrum, its);
        assert WhittedStepOf(w, cur) == Stop(spectrum, ray.State());
        break;
    }
  }

  /**
   * The diffuse branch of `li` as statements: light from the infinite light,
   * then from one drawn light, each through its own shadow ray.
   */
  method Gather(w: World, st: WhittedState, s1: Option<Spectrum>, its: SurfaceHit) returns (s: Option<Spectrum>)
    ensures s == DiffuseStep(w, st, s1, its)
  {
    var wo := Neg(st.ray.direction);
    s := s1;
    if w.infinite.Some? {
      var res := w.lightSample(w.infinite.value, its, 2 * st.bounce);
      var shadow := new Ray(its.position, res.direction);
      s := AddLightSample(w, s, st.beta, its, wo, res, shadow);
    }
    var draw := w.lightDraw(st.bounce);
    if draw.None? || draw.value.1 == 0.0 {
      return;
    }
    var (light, pdfLight) := draw.value;
    var res := w.lightSample(light, its, 2 * st.bounce + 1);
    var shadow := new Ray(its.position, res.direction);
    shadow.tMax := res.distance;
    res := ScaledPdf(res, pdfLight);
    s := AddLightSample(w, s, st.beta, its, wo, res, shadow);
  }

  /** `if scene.ray_intersect(&mut shadow_ray).is_none() { spectrum += beta * res.energy * f / pdf }`. */
  method AddLightSample(w: World, s0: Option<Spectrum>, beta: Spectrum, its: SurfaceHit, wo: Vec3,
                        res: LightSampleResult, shadow: Ray) returns (s: Option<Spectrum>)
    ensures s == Shadowed(w, s0, beta, its, wo, res, shadow.State())
  {
    s := s0;
    if w.intersect(shadow.State()).None? {
      var f := w.bsdfEval(its, wo, shadow.direction);
      var pdf := ConvertPdf(res);
      s := if pdf.Some? && pdf.value != 0.0 then Plus(s, SDiv(SMul(SMul(beta, res.energy), f), pdf.value)) else None;
    }
  }
}
