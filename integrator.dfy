/**
 * Shared integrator pieces (`integrator/integrator.rs`): the conversion of a
 * light sample's pdf to solid angle, the choice of integrator by name, and
 * the values every integrator loop passes around. Scene queries, BSDFs,
 * light emission and sampler draws are not part of this model; the loops
 * receive them as functions.
 */
module Integrators {
  import opened Wrappers
  import opened ExtReal
  import opened Vectors
  import opened Rays
  import opened Media
  import opened Acceleration
  import opened Scenes

  /** `LightSampleResult`. */
  datatype LightSampleResult = LightSampleResult(
    energy: Spectrum,
    direction: Vec3,
    distance: real,
    normal: Vec3,
    pdf: real,
    isDelta: bool,
    lightType: LightType)

  function Abs(x: real): real {
    if x < 0.0 then -x else x
  }

  /**
   * `convert_pdf`: an area-sampled pdf becomes a solid-angle pdf. None when
   * the area light's normal is perpendicular to the sample direction, where
   * the source divides by zero. The intersection argument is never read and
   * is not a parameter here.
   */
  function ConvertPdf(res: LightSampleResult): (r: Option<real>)
    ensures r.None? <==> res.lightType == AreaLight && Dot(res.normal, res.direction) == 0.0
    ensures res.lightType == SpotLight ==> r == Some(res.pdf * (res.distance * res.distance))
    ensures res.lightType == AreaLight && r.Some? ==>
      r.value * Abs(Dot(res.normal, res.direction)) == res.pdf * (res.distance * res.distance)
    ensures res.lightType == EnvironmentLight ==> r == Some(res.pdf)
  {
    var d2 := res.distance * res.distance;
    match res.lightType
    case SpotLight => Some(res.pdf * (res.distance * res.distance))
    case AreaLight =>
      var c := Abs(Dot(res.normal, res.direction));
      if c == 0.0 then None else Some(res.pdf * d2 / c)
    case EnvironmentLight => Some(res.pdf)
  }

  /** A non-negative pdf stays non-negative. */
  lemma ConvertPdfNonNegative(res: LightSampleResult)
    requires res.pdf >= 0.0
    ensures ConvertPdf(res).Some? ==> ConvertPdf(res).value >= 0.0
  {
    var d2 := res.distance * res.distance;
    assert d2 >= 0.0 by {
      if res.distance < 0.0 {
        assert d2 == (-res.distance) * (-res.distance);
      }
    }
    assert res.pdf * d2 >= 0.0;
    if res.lightType == AreaLight && ConvertPdf(res).Some? {
      var c := Abs(Dot(res.normal, res.direction));
      assert c > 0.0;
      assert res.pdf * d2 / c >= 0.0;
    }
  }

  /** The integrators `construct_integrator` can build. */
  datatype IntegratorKind = DirectSampleLight | DirectSampleBsdf | Normal | Whitted

  /** The `type` string that selects each integrator. */
  function TypeName(k: IntegratorKind): string {
    match k
    case DirectSampleLight => "directSampleLight"
    case DirectSampleBsdf => "directSampleBSDF"
    case Normal => "normal"
    case Whitted => "whitted"
  }

  /** `construct_integrator`: None stands for the panic on an unknown name. */
  function ConstructIntegrator(name: string): (r: Option<IntegratorKind>)
    ensures r.Some? ==> TypeName(r.value) == name
    ensures r.None? <==> name !in ["directSampleLight", "directSampleBSDF", "normal", "whitted"]
  {
    if name == "directSampleLight" then Some(DirectSampleLight)
    else if name == "directSampleBSDF" then Some(DirectSampleBsdf)
    else if name == "normal" then Some(Normal)
    else if name == "whitted" then Some(Whitted)
    else None
  }

  /** Every integrator is built from its own name, and only from it. */
  lemma ConstructFromTypeName(k: IntegratorKind, name: string)
    ensures ConstructIntegrator(TypeName(k)) == Some(k)
    ensures ConstructIntegrator(name) == Some(k) <==> name == TypeName(k)
  {
  }

  /** `BSDFType`. */
  datatype BsdfType = Diffuse | Specular

  /** `BSDFSampleResult`: the weight, the sampled incoming direction and its type. */
  datatype BsdfSample = BsdfSample(weight: Spectrum, wi: Vec3, tp: BsdfType)

  /** The parts of an `Intersection` the integrator loops read. */
  datatype SurfaceHit = SurfaceHit(
    position: Vec3,
    normal: Vec3,
    distance: real,
    light: Option<LightRef>,
    mediumInterface: MediumInterface)

  /**
   * A ray moved to `p` with direction `wi` and then reset: `ray.origin = p`,
   * `change_dir(wi)`, `reset()`.
   */
  function Moved(r: RayState, p: Vec3, wi: Vec3): (m: RayState)
    ensures m.origin == p && m.direction == wi
    ensures m.tMin == RAY_EPSILON && m.tMax == F32_MAX
    ensures m.invDir == r.invDir && m.t == r.t && m.differential == r.differential && m.medium == r.medium
  {
    r.(origin := p, direction := wi, tMin := RAY_EPSILON, tMax := F32_MAX)
  }

  /** The state of a fresh `Ray::new(origin, direction)`. */
  function FreshRay(origin: Vec3, direction: Vec3): RayState {
    RayState(origin, direction, RecipVec(direction), 0.0, RAY_EPSILON, F32_MAX, None, None)
  }

  /**
   * The miss branch of every loop: for the (at most one) infinite light,
   * `spectrum += weight * evaluate_emission_ray(ray)`.
   */
  function AddInfinite(spectrum: Spectrum, weight: Spectrum, infinite: Option<LightRef>,
                       envEmission: (LightRef, RayState) -> Spectrum, ray: RayState): (s: Spectrum)
    ensures infinite.None? ==> s == spectrum
    ensures infinite.Some? ==> s == SAdd(spectrum, SMul(weight, envEmission(infinite.value, ray)))
  {
    match infinite
    case None => spectrum
    case Some(l) => SAdd(spectrum, SMul(weight, envEmission(l, ray)))
  }

  /** Moves the ray as `Moved` does, through the ray's own operations. */
  method MoveRay(ray: Ray, p: Vec3, wi: Vec3)
    modifies ray
    ensures ray.State() == Moved(old(ray.State()), p, wi)
  {
    ray.origin := p;
    ray.ChangeDir(wi);
    ray.Reset();
  }

  /**
   * What the integrator loops consult. Each function stands for a
   * collaborator that is not part of this model; the `nat` argument of a
   * sampler-driven one identifies the draw (the bounce it belongs to), so the
   * sampler's stream is fixed in advance.
   */
  datatype World = World(
    /** `scene.ray_intersect(ray)`, which takes the ray by shared reference. */
    intersect: RayState -> Option<SurfaceHit>,
    /** `scene.infinite_lights`. */
    infinite: Option<LightRef>,
    /** `evaluate_emission_ray` of an infinite light. */
    envEmission: (LightRef, RayState) -> Spectrum,
    /** `evaluate_emission(&inter, wo)` of the light of a hit emitter. */
    emission: (LightRef, SurfaceHit, Vec3) -> Spectrum,
    /** `sample_interaction_illumination(scene, wo, &inter, spectrum, sampler, throughput)`. */
    illumination: (SurfaceHit, Vec3, Spectrum, Spectrum, nat) -> Spectrum,
    /** The same at a medium interaction. */
    mediumIllumination: (MediumInteraction, Vec3, Spectrum, Spectrum, nat) -> Spectrum,
    /** `medium.sample(ray, sampler, &mut mi)`: the weight and the interaction written. */
    mediumSample: (MediumRef, RayState, nat) -> (Spectrum, MediumInteraction),
    /** `phase.sample_p(wo, &mut wi, ..)`: the direction written. */
    phaseSample: (MediumInteraction, Vec3, nat) -> Vec3,
    /** The Russian-roulette draw `sampler.next_1d()`. */
    roulette: nat -> real,
    /** `bsdf.sample(wo, sampler.next_2d())` at a hit. */
    bsdf: (SurfaceHit, Vec3, nat) -> BsdfSample,
    /** `bsdf.f(wo, wi)` at a hit. */
    bsdfEval: (SurfaceHit, Vec3, Vec3) -> Spectrum,
    /** `light.sample(&its, sampler.next_2d())`. */
    lightSample: (LightRef, SurfaceHit, nat) -> LightSampleResult,
    /** `scene.sample_light(sampler.next_1d(), &mut pdf_light)`: the light and `pdf_light`. */
    lightDraw: nat -> Option<(LightRef, real)>)

  /** The loop state of the path tracers. */
  datatype PathState = PathState(spectrum: Spectrum, throughput: Spectrum, depth: nat, specular: bool, ray: RayState)

  /** The state before the first iteration: black, unit throughput, depth 0, not specular. */
  function PathInit(ray: RayState): PathState {
    PathState(Grey(0.0), Grey(1.0), 0, false, ray)
  }

  /** One loop iteration: go round again, or leave with a spectrum and the ray as it then is. */
  datatype Step<S> = Next(next: S) | Done(result: Spectrum, ray: RayState)

  /** The bounces left before `max_depth`: the measure the depth-limited loops decrease. */
  function Remaining(maxDepth: nat, depth: nat): nat {
    if depth < maxDepth then maxDepth - depth else 0
  }

  /** What a whole loop produces, with the number of iterations it ran. */
  datatype Outcome = Outcome(spectrum: Spectrum, ray: RayState, iterations: nat)

  /**
   * The emission term of the path tracers: a hit emitter's emission,
   * unweighted, only on the first bounce or after a specular one.
   */
  function GatedEmission(w: World, st: PathState, its: SurfaceHit): (s: Spectrum)
    ensures (st.depth == 0 || st.specular) && its.light.Some? ==>
      s == SAdd(st.spectrum, w.emission(its.light.value, its, Neg(st.ray.direction)))
    ensures !((st.depth == 0 || st.specular) && its.light.Some?) ==> s == st.spectrum
  {
    if (st.depth == 0 || st.specular) && its.light.Some? then
      SAdd(st.spectrum, w.emission(its.light.value, its, Neg(st.ray.direction)))
    else st.spectrum
  }

  /**
   * A world that adds no light: no emitter or infinite light emits, and
   * illumination sampling leaves a black spectrum black.
   */
  ghost predicate Dark(w: World) {
    && (forall l, r :: IsBlack(w.envEmission(l, r)))
    && (forall l, its, wo :: IsBlack(w.emission(l, its, wo)))
    && (forall its, wo, s, t, k :: IsBlack(s) ==> IsBlack(w.illumination(its, wo, s, t, k)))
    && (forall mi, wo, s, t, k :: IsBlack(s) ==> IsBlack(w.mediumIllumination(mi, wo, s, t, k)))
  }

  /** In such a world the miss branch adds nothing. */
  lemma DarkInfinite(w: World, s: Spectrum, t: Spectrum, r: RayState)
    requires Dark(w) && IsBlack(s)
    ensures IsBlack(AddInfinite(s, t, w.infinite, w.envEmission, r))
  {
    if w.infinite.Some? {
      assert IsBlack(w.envEmission(w.infinite.value, r));
    }
  }

  /** In such a world a hit emitter adds nothing. */
  lemma DarkEmission(w: World, st: PathState, its: SurfaceHit)
    requires Dark(w) && IsBlack(st.spectrum)
    ensures IsBlack(GatedEmission(w, st, its))
  {
    if its.light.Some? {
      assert IsBlack(w.emission(its.light.value, its, Neg(st.ray.direction)));
    }
  }
}
