/**
 * The ray record (`ray.rs`). Its `t_max` is the closest hit found so far and
 * is narrowed by every successful primitive test. The cached inverse
 * direction and the current medium are used by the core but not declared in
 * `ray.rs`; they are plain fields here, and `reset` restores the valid interval
 * of a fresh ray.
 */
module Rays {
  import opened Wrappers
  import opened ExtReal
  import opened Vectors
  import Media

  /** The `t_min` of every fresh ray, `1e-4`. */
  const RAY_EPSILON: real := 0.0001

  datatype RayDifferential = RayDifferential(originX: Vec3, originY: Vec3, directionX: Vec3, directionY: Vec3)

  /** A value snapshot of all fields of a ray. */
  datatype RayState = RayState(
    origin: Vec3,
    direction: Vec3,
    invDir: EVec3,
    t: real,
    tMin: real,
    tMax: real,
    differential: Option<RayDifferential>,
    medium: Option<Media.MediumRef>)

  /**
   * The cached inverse direction has no zero component. `RecipVec` never
   * yields one, so every ray made by a constructor has this, and only `t_max`
   * changes during a query.
   */
  predicate InverseNonZero(r: RayState) {
    r.invDir.x != Fin(0.0) && r.invDir.y != Fin(0.0) && r.invDir.z != Fin(0.0)
  }

  /** The point at parameter `s` along a ray in state `r`. */
  function PointAt(r: RayState, s: real): (p: Vec3)
    ensures Sub(p, r.origin) == Scale(s, r.direction)
    ensures s == 0.0 ==> p == r.origin
  {
    Add(r.origin, Scale(s, r.direction))
  }

  class Ray {
    var origin: Vec3
    var direction: Vec3
    var invDir: EVec3
    var t: real
    var tMin: real
    var tMax: real
    var differential: Option<RayDifferential>
    var medium: Option<Media.MediumRef>

    function State(): RayState
      reads this
    {
      RayState(origin, direction, invDir, t, tMin, tMax, differential, medium)
    }

    /** `Ray::new`: `t = 0`, `t_min = 1e-4`, `t_max = f32::MAX`, no differential. */
    constructor (origin: Vec3, direction: Vec3)
      ensures State() == RayState(origin, direction, RecipVec(direction), 0.0, RAY_EPSILON, F32_MAX, None, None)
    {
      this.origin := origin;
      this.direction := direction;
      this.invDir := RecipVec(direction);
      this.t := 0.0;
      this.tMin := RAY_EPSILON;
      this.tMax := F32_MAX;
      this.differential := None;
      this.medium := None;
    }

    /**
     * `Ray::from_o2d`: a ray from `origin` towards `destination` that stops
     * `1e-4` short of it. `norm` is the square root of the squared distance,
     * which the source computes with `norm()`.
     */
    constructor FromO2D(origin: Vec3, destination: Vec3, norm: real)
      requires norm >= 0.0 && norm * norm == NormSquared(Sub(destination, origin))
      ensures tMin == RAY_EPSILON && tMax == norm - RAY_EPSILON && t == 0.0
      ensures this.origin == origin && differential.None? && medium.None?
      ensures norm > 0.0 ==> direction == Scale(1.0 / norm, Sub(destination, origin))
      ensures invDir == RecipVec(direction)
    {
      var o2d := Sub(destination, origin);
      this.origin := origin;
      this.t := 0.0;
      this.tMin := RAY_EPSILON;
      this.tMax := norm - RAY_EPSILON;
      var dir := if norm > 0.0 then Scale(1.0 / norm, o2d) else o2d;
      this.direction := dir;
      this.invDir := RecipVec(dir);
      this.differential := None;
      this.medium := None;
    }

    /** `at(t)`: the point at parameter `t` along the ray. */
    function At(s: real): (p: Vec3)
      reads this
      ensures p == PointAt(State(), s)
      ensures Sub(p, origin) == Scale(s, direction)
      ensures s == 0.0 ==> p == origin
    {
      Add(origin, Scale(s, direction))
    }

    /** `change_dir`: only the direction changes (the cached inverse is not recomputed). */
    method ChangeDir(dir: Vec3)
      modifies this
      ensures State() == old(State()).(direction := dir)
    {
      direction := dir;
    }

    /** `reset`: the valid interval of a fresh ray. */
    method Reset()
      modifies this
      ensures State() == old(State()).(tMin := RAY_EPSILON, tMax := F32_MAX)
    {
      tMin := RAY_EPSILON;
      tMax := F32_MAX;
    }
  }
}
