/**
 * The heterogeneous medium on a density grid (`medium/grid_density.rs`):
 * `nx * ny * nz` density samples stored flat in z-major order, a lookup that
 * is zero outside the grid, trilinear interpolation between lattice
 * neighbours, and delta tracking through the unit box (`sample`).
 *
 * The medium-to-world transform, `Bounds3::intersect_t`, `lerp` and the
 * logarithm of the free-flight draw are not part of this model; they are
 * parameters. The self-reference `Rc::new(self.clone())` recorded in an
 * accepted interaction is a handle parameter.
 */
module GridDensity {
  import opened Wrappers
  import opened ExtReal
  import opened Vectors
  import opened Rays
  import opened Media

  datatype GridDensityMedium = GridDensityMedium(
    sigmaA: Spectrum,
    sigmaS: Spectrum,
    g: real,
    nx: nat,
    ny: nat,
    nz: nat,
    density: seq<real>,
    sigmaT: real,
    invMaxDensity: Ext)

  /** The flat vector holds exactly one sample per grid cell. */
  predicate WellSized(m: GridDensityMedium) {
    |m.density| == m.nx * m.ny * m.nz
  }

  /** `Vec::resize(n, 0.0)`: truncate, or pad with zeros. */
  function Resized(d: seq<real>, n: nat): (r: seq<real>)
    ensures |r| == n
    ensures forall i :: 0 <= i < n && i < |d| ==> r[i] == d[i]
    ensures forall i :: |d| <= i < n ==> r[i] == 0.0
  {
    if n <= |d| then d[..n] else d + seq(n - |d|, _ => 0.0)
  }

  /** The largest sample (`max_by(total_cmp)`); the source unwraps it, so the vector is nonempty. */
  function MaxDensity(d: seq<real>): (r: real)
    requires |d| > 0
    ensures exists i :: 0 <= i < |d| && d[i] == r
    ensures forall i :: 0 <= i < |d| ==> d[i] <= r
  {
    if |d| == 1 then d[0]
    else
      var m := MaxDensity(d[..|d| - 1]);
      assert forall i :: 0 <= i < |d| - 1 ==> d[..|d| - 1][i] == d[i];
      if d[|d| - 1] > m then d[|d| - 1] else m
  }

  /**
   * `GridDensityMedium::new`. None stands for the panic of an empty grid,
   * whose maximum does not exist.
   */
  function NewGrid(sigmaA: Spectrum, sigmaS: Spectrum, g: real, nx: nat, ny: nat, nz: nat, density: seq<real>)
    : (r: Option<GridDensityMedium>)
    ensures r.None? <==> nx * ny * nz == 0
    ensures r.Some? ==>
      && WellSized(r.value)
      && r.value.density == Resized(density, nx * ny * nz)
      && r.value.sigmaT == sigmaA.r + sigmaS.r
      && r.value.invMaxDensity == Recip(MaxDensity(r.value.density))
      && r.value.sigmaA == sigmaA && r.value.sigmaS == sigmaS && r.value.g == g
      && r.value.nx == nx && r.value.ny == ny && r.value.nz == nz
  {
    var d := Resized(density, nx * ny * nz);
    if |d| == 0 then None
    else Some(GridDensityMedium(sigmaA, sigmaS, g, nx, ny, nz, d, SAdd(sigmaA, sigmaS).r, Recip(MaxDensity(d))))
  }

  /** The flat position of cell `(x, y, z)`. */
  function Index(nx: nat, ny: nat, x: nat, y: nat, z: nat): nat {
    (z * ny + y) * nx + x
  }

  /** `d(p)`: the sample of a cell, 0 for a cell outside the grid. */
  function D(m: GridDensityMedium, x: nat, y: nat, z: nat): (r: real)
    requires WellSized(m)
    ensures x >= m.nx || y >= m.ny || z >= m.nz ==> r == 0.0
    ensures x < m.nx && y < m.ny && z < m.nz ==>
      (Index(m.nx, m.ny, x, y, z) < |m.density| && r == m.density[Index(m.nx, m.ny, x, y, z)])
  {
    if x >= m.nx || y >= m.ny || z >= m.nz then 0.0
    else
      IndexInRange(m.nx, m.ny, m.nz, x, y, z);
      m.density[Index(m.nx, m.ny, x, y, z)]
  }

  /** Every cell inside the grid has its own slot in the flat vector. */
  lemma IndexInRange(nx: nat, ny: nat, nz: nat, x: nat, y: nat, z: nat)
    requires x < nx && y < ny && z < nz
    ensures Index(nx, ny, x, y, z) < nx * ny * nz
  {
    assert z * ny + y < nz * ny by {
      assert z * ny + y < z * ny + ny == (z + 1) * ny;
      MulMono(z + 1, nz, ny);
    }
    var row := z * ny + y;
    assert row * nx + x < (row + 1) * nx;
    MulMono(row + 1, nz * ny, nx);
    assert nz * ny * nx == nx * ny * nz;
  }

  lemma MulMono(a: nat, b: nat, c: nat)
    requires a <= b
    ensures a * c <= b * c
  {
  }

  /** The flat position determines the cell: `x`, `y` and `z` are recovered by division. */
  lemma IndexDecodes(nx: nat, ny: nat, x: nat, y: nat, z: nat)
    requires x < nx && y < ny
    ensures var i := Index(nx, ny, x, y, z);
      i % nx == x && (i / nx) % ny == y && (i / nx) / ny == z
  {
    DivMod(z * ny + y, x, nx);
    DivMod(z, y, ny);
  }

  /** `(q n + r) / n == q` and `(q n + r) % n == r` for `0 <= r < n`. */
  lemma DivMod(q: nat, r: nat, n: nat)
    requires r < n
    ensures (q * n + r) / n == q && (q * n + r) % n == r
  {
    var a := q * n + r;
    var q' := a / n;
    var r' := a % n;
    assert a == q' * n + r';
    if q' < q {
      MulMono(q' + 1, q, n);
      assert false;
    } else if q' > q {
      MulMono(q + 1, q', n);
      assert false;
    }
  }

  /** Distinct cells of the grid read distinct samples. */
  lemma IndexInjective(nx: nat, ny: nat, x: nat, y: nat, z: nat, x': nat, y': nat, z': nat)
    requires x < nx && y < ny && x' < nx && y' < ny
    requires Index(nx, ny, x, y, z) == Index(nx, ny, x', y', z')
    ensures x == x' && y == y' && z == z'
  {
    IndexDecodes(nx, ny, x, y, z);
    IndexDecodes(nx, ny, x', y', z');
  }

  /** `f as usize` for a floored value: a negative one saturates to 0. */
  function ToUsize(k: int): nat {
    if k < 0 then 0 else k
  }

  /** The lattice cell below a point and the offsets into it. */
  datatype Lattice = Lattice(x: nat, y: nat, z: nat, dx: real, dy: real, dz: real)

  /** `p * n - 0.5`, floored and cast, with the fractional part kept. */
  function LatticeOf(m: GridDensityMedium, p: Vec3): (l: Lattice)
    ensures 0.0 <= l.dx < 1.0 && 0.0 <= l.dy < 1.0 && 0.0 <= l.dz < 1.0
  {
    var sx := p.x * (m.nx as real) - 0.5;
    var sy := p.y * (m.ny as real) - 0.5;
    var sz := p.z * (m.nz as real) - 0.5;
    Lattice(ToUsize(sx.Floor), ToUsize(sy.Floor), ToUsize(sz.Floor),
            sx - (sx.Floor as real), sy - (sy.Floor as real), sz - (sz.Floor as real))
  }

  /** `density(p)`: lerp the 8 neighbours in x, then in y, then in z. */
  function Density(m: GridDensityMedium, p: Vec3, lerp: (real, real, real) -> real): real
    requires WellSized(m)
  {
    Trilinear(m, LatticeOf(m, p), lerp)
  }

  function Trilinear(m: GridDensityMedium, l: Lattice, lerp: (real, real, real) -> real): real
    requires WellSized(m)
  {
    var d00 := lerp(l.dx, D(m, l.x, l.y, l.z), D(m, l.x + 1, l.y, l.z));
    var d10 := lerp(l.dx, D(m, l.x, l.y + 1, l.z), D(m, l.x + 1, l.y + 1, l.z));
    var d01 := lerp(l.dx, D(m, l.x, l.y, l.z + 1), D(m, l.x + 1, l.y, l.z + 1));
    var d11 := lerp(l.dx, D(m, l.x, l.y + 1, l.z + 1), D(m, l.x + 1, l.y + 1, l.z + 1));
    var d0 := lerp(l.dy, d00, d10);
    var d1 := lerp(l.dy, d01, d11);
    lerp(l.dz, d0, d1)
  }

  function RMin(a: real, b: real): real {
    if a <= b then a else b
  }

  function RMax(a: real, b: real): real {
    if a <= b then b else a
  }

  /** An interpolation that stays between its end points for weights in `[0, 1]`. */
  ghost predicate Convex(lerp: (real, real, real) -> real) {
    forall t, a, b :: 0.0 <= t <= 1.0 ==> RMin(a, b) <= lerp(t, a, b) <= RMax(a, b)
  }

  /** Cells are read in the grid only: far enough outside on any axis, the density is 0. */
  lemma DensityZeroOutside(m: GridDensityMedium, p: Vec3, lerp: (real, real, real) -> real)
    requires WellSized(m)
    requires forall t :: lerp(t, 0.0, 0.0) == 0.0
    requires var l := LatticeOf(m, p); l.x >= m.nx || l.y >= m.ny || l.z >= m.nz
    ensures Density(m, p, lerp) == 0.0
  {
  }

  /**
   * With a convex `lerp` and non-negative samples, the density lies between 0
   * and the largest sample, so `density * inv_max_density` is at most 1.
   */
  lemma DensityBounded(m: GridDensityMedium, p: Vec3, lerp: (real, real, real) -> real)
    requires WellSized(m) && |m.density| > 0 && Convex(lerp)
    requires forall i :: 0 <= i < |m.density| ==> m.density[i] >= 0.0
    ensures 0.0 <= Density(m, p, lerp) <= MaxDensity(m.density)
  {
    var l := LatticeOf(m, p);
    var top := MaxDensity(m.density);
    assert top >= 0.0 by {
      assert m.density[0] <= top;
    }
    forall x: nat, y: nat, z: nat
      ensures 0.0 <= D(m, x, y, z) <= top
    {
      if x < m.nx && y < m.ny && z < m.nz {
        assert D(m, x, y, z) == m.density[Index(m.nx, m.ny, x, y, z)];
      }
    }
    var d00 := lerp(l.dx, D(m, l.x, l.y, l.z), D(m, l.x + 1, l.y, l.z));
    var d10 := lerp(l.dx, D(m, l.x, l.y + 1, l.z), D(m, l.x + 1, l.y + 1, l.z));
    var d01 := lerp(l.dx, D(m, l.x, l.y, l.z + 1), D(m, l.x + 1, l.y, l.z + 1));
    var d11 := lerp(l.dx, D(m, l.x, l.y + 1, l.z + 1), D(m, l.x + 1, l.y + 1, l.z + 1));
    LerpWithin(lerp, l.dx, D(m, l.x, l.y, l.z), D(m, l.x + 1, l.y, l.z), top);
    LerpWithin(lerp, l.dx, D(m, l.x, l.y + 1, l.z), D(m, l.x + 1, l.y + 1, l.z), top);
    LerpWithin(lerp, l.dx, D(m, l.x, l.y, l.z + 1), D(m, l.x + 1, l.y, l.z + 1), top);
    LerpWithin(lerp, l.dx, D(m, l.x, l.y + 1, l.z + 1), D(m, l.x + 1, l.y + 1, l.z + 1), top);
    LerpWithin(lerp, l.dy, d00, d10, top);
    LerpWithin(lerp, l.dy, d01, d11, top);
    LerpWithin(lerp, l.dz, lerp(l.dy, d00, d10), lerp(l.dy, d01, d11), top);
  }

  /**
   * `inv_max_density` makes the maximum a majorant: a density between 0 and
   * the largest sample, as `DensityBounded` gives, has an acceptance ratio
   * `density * inv_max_density` in `[0, 1]`.
   */
  lemma ScaledByMajorant(m: GridDensityMedium, d: real)
    requires |m.density| > 0 && 0.0 <= d <= MaxDensity(m.density)
    requires m.invMaxDensity == Recip(MaxDensity(m.density)) && m.invMaxDensity.Fin?
    ensures 0.0 <= d * m.invMaxDensity.r <= 1.0
  {
    var top := MaxDensity(m.density);
    assert top != 0.0;
    RatioBounded(d, top, m.invMaxDensity.r);
  }

  lemma RatioBounded(d: real, top: real, inv: real)
    requires 0.0 <= d <= top && top != 0.0 && inv == 1.0 / top
    ensures 0.0 <= d * inv <= 1.0
  {
    assert d * inv == d / top;
  }

  /**
   * A freshly built medium can be tracked exactly when some sample is
   * non-zero and `sigma_t` is non-zero.
   */
  lemma NewGridTrackable(sigmaA: Spectrum, sigmaS: Spectrum, g: real, nx: nat, ny: nat, nz: nat, density: seq<real>)
    requires forall i :: 0 <= i < |density| ==> density[i] >= 0.0
    requires NewGrid(sigmaA, sigmaS, g, nx, ny, nz, density).Some?
    ensures Trackable(NewGrid(sigmaA, sigmaS, g, nx, ny, nz, density).value) <==>
      (exists i :: 0 <= i < |density| && i < nx * ny * nz && density[i] > 0.0) && sigmaA.r + sigmaS.r != 0.0
  {
    var m := NewGrid(sigmaA, sigmaS, g, nx, ny, nz, density).value;
    var top := MaxDensity(m.density);
    if exists i :: 0 <= i < |density| && i < nx * ny * nz && density[i] > 0.0 {
      var i :| 0 <= i < |density| && i < nx * ny * nz && density[i] > 0.0;
      assert m.density[i] == density[i];
      assert top > 0.0;
    } else {
      var j :| 0 <= j < |m.density| && m.density[j] == top;
      if j < |density| {
        assert density[j] <= 0.0;
      }
      assert top <= 0.0;
      assert top >= 0.0 by {
        if j < |density| {
          assert density[j] >= 0.0;
        }
      }
    }
  }

  lemma LerpWithin(lerp: (real, real, real) -> real, t: real, a: real, b: real, top: real)
    requires Convex(lerp) && 0.0 <= t <= 1.0
    requires 0.0 <= a <= top && 0.0 <= b <= top
    ensures 0.0 <= lerp(t, a, b) <= top
  {
    assert RMin(a, b) <= lerp(t, a, b) <= RMax(a, b);
  }

  /** The collaborators of delta tracking. */
  datatype Tracking = Tracking(
    /** `medium2world.local_ray(ray)`. */
    localRay: RayState -> RayState,
    /** `Bounds3::intersect_t` of the unit box, applied to the world ray as the source does. */
    unitBoxT: RayState -> (real, real),
    /** `(1.0 - sampler.next_1d()).ln()` for the free-flight draw of step `k`. */
    logDraw: nat -> real,
    /** `sampler.next_1d()` for the acceptance draw of step `k`. */
    acceptDraw: nat -> real)

  /** The medium quantities tracking divides by are finite and non-zero. */
  predicate Trackable(m: GridDensityMedium) {
    WellSized(m) && m.invMaxDensity.Fin? && m.sigmaT != 0.0
  }

  /** `t -= ln(1 - u) * inv_max_density / sigma_t`. */
  function Advance(m: GridDensityMedium, tr: Tracking, t: real, k: nat): real
    requires Trackable(m)
  {
    t - tr.logDraw(k) * m.invMaxDensity.r / m.sigmaT
  }

  /** A tentative collision is accepted when `density * inv_max_density` exceeds the draw. */
  predicate Accepts(m: GridDensityMedium, tr: Tracking, lerp: (real, real, real) -> real, local: RayState, t: real, k: nat)
    requires Trackable(m)
  {
    Density(m, PointAt(local, t), lerp) * m.invMaxDensity.r > tr.acceptDraw(k)
  }

  /** The interaction an accepted collision at `t` writes into `mi`. */
  function Scatter(m: GridDensityMedium, ray: RayState, t: real, selfRef: MediumRef): MediumInteraction {
    NewInteraction(PointAt(ray, t), ray.t, Neg(ray.direction), selfRef, Some(HenyeyGreenstein(m.g)))
  }

  /** What `sample` returns and leaves in `mi`. */
  datatype SampleResult = SampleResult(weight: Spectrum, mi: MediumInteraction)

  /**
   * The tracking loop from parameter `t` at step `k`, given `fuel` steps;
   * None when it has not ended by then.
   */
  function TrackFrom(m: GridDensityMedium, tr: Tracking, lerp: (real, real, real) -> real, ray: RayState,
                     local: RayState, selfRef: MediumRef, mi0: MediumInteraction,
                     t: real, tFar: real, k: nat, fuel: nat): Option<SampleResult>
    requires Trackable(m)
    decreases fuel
  {
    if fuel == 0 then None
    else
      var t1 := Advance(m, tr, t, k);
      if t1 >= tFar then Some(SampleResult(Grey(1.0), mi0))
      else if Accepts(m, tr, lerp, local, t1, k) then
        Some(SampleResult(SDiv(m.sigmaS, m.sigmaT), Scatter(m, ray, t1, selfRef)))
      else TrackFrom(m, tr, lerp, ray, local, selfRef, mi0, t1, tFar, k + 1, fuel - 1)
  }

  /** `sample`, given `fuel` tracking steps. */
  function SampleWithin(m: GridDensityMedium, tr: Tracking, lerp: (real, real, real) -> real, ray: RayState,
                        selfRef: MediumRef, mi0: MediumInteraction, fuel: nat): (r: Option<SampleResult>)
    requires Trackable(m)
    ensures tr.unitBoxT(ray).0 > tr.unitBoxT(ray).1 ==> r == Some(SampleResult(Grey(1.0), mi0))
  {
    var (tNear, tFar) := tr.unitBoxT(ray);
    if tNear > tFar then Some(SampleResult(Grey(1.0), mi0))
    else TrackFrom(m, tr, lerp, ray, tr.localRay(ray), selfRef, mi0, tNear, tFar, 0, fuel)
  }

  /**
   * The two outcomes of `sample`: weight 1 with `mi` untouched, or the
   * single-scattering albedo `sigma_s / sigma_t` with a valid interaction
   * in this medium carrying a Henyey-Greenstein phase function of
   * asymmetry `g`.
   */
  lemma {:induction false} TrackOutcomes(m: GridDensityMedium, tr: Tracking, lerp: (real, real, real) -> real,
                                         ray: RayState, local: RayState, selfRef: MediumRef, mi0: MediumInteraction,
                                         t: real, tFar: real, k: nat, fuel: nat)
    requires Trackable(m)
    ensures var r := TrackFrom(m, tr, lerp, ray, local, selfRef, mi0, t, tFar, k, fuel);
      r.Some? ==>
        || r.value == SampleResult(Grey(1.0), mi0)
        || (&& r.value.weight == SDiv(m.sigmaS, m.sigmaT)
            && IsValid(r.value.mi) && r.value.mi.phase == Some(HenyeyGreenstein(m.g))
            && r.value.mi.mediumInterface == MediumInterface(Some(selfRef), Some(selfRef))
            && r.value.mi.wo == Neg(ray.direction) && r.value.mi.time == ray.t)
    decreases fuel
  {
    if fuel > 0 {
      var t1 := Advance(m, tr, t, k);
      if t1 < tFar && !Accepts(m, tr, lerp, local, t1, k) {
        TrackOutcomes(m, tr, lerp, ray, local, selfRef, mi0, t1, tFar, k + 1, fuel - 1);
      }
    }
  }

  /** More steps change nothing once tracking has ended. */
  lemma {:induction false} TrackMoreFuel(m: GridDensityMedium, tr: Tracking, lerp: (real, real, real) -> real,
                                         ray: RayState, local: RayState, selfRef: MediumRef, mi0: MediumInteraction,
                                         t: real, tFar: real, k: nat, fuel: nat, more: nat)
    requires Trackable(m) && fuel <= more
    requires TrackFrom(m, tr, lerp, ray, local, selfRef, mi0, t, tFar, k, fuel).Some?
    ensures TrackFrom(m, tr, lerp, ray, local, selfRef, mi0, t, tFar, k, more)
         == TrackFrom(m, tr, lerp, ray, local, selfRef, mi0, t, tFar, k, fuel)
    decreases fuel
  {
    var t1 := Advance(m, tr, t, k);
    if t1 < tFar && !Accepts(m, tr, lerp, local, t1, k) {
      TrackMoreFuel(m, tr, lerp, ray, local, selfRef, mi0, t1, tFar, k + 1, fuel - 1, more - 1);
    }
  }

  /**
   * `sample`: delta tracking along the ray through the unit box. `bound` is
   * a number of steps within which tracking is known to end; the loop of
   * the source has no bound of its own.
   */
  method Sample(m: GridDensityMedium, tr: Tracking, lerp: (real, real, real) -> real, ray: Ray,
                selfRef: MediumRef, mi0: MediumInteraction, ghost bound: nat)
    returns (weight: Spectrum, mi: MediumInteraction)
    requires Trackable(m)
    requires SampleWithin(m, tr, lerp, ray.State(), selfRef, mi0, bound).Some?
    ensures SampleWithin(m, tr, lerp, ray.State(), selfRef, mi0, bound) == Some(SampleResult(weight, mi))
  {
    var rs := ray.State();
    var (tNear, tFar) := tr.unitBoxT(rs);
    if tNear > tFar {
      return Grey(1.0), mi0;
    }
    weight, mi := Track(m, tr, lerp, rs, tr.localRay(rs), selfRef, mi0, tNear, tFar, bound);
  }

  /**
   * The delta-tracking loop of `sample` from parameter `t0` in the window
   * ending at `tFar`: it ends where `TrackFrom` says, within `fuel` steps.
   */
  method Track(m: GridDensityMedium, tr: Tracking, lerp: (real, real, real) -> real, ray: RayState,
               local: RayState, selfRef: MediumRef, mi0: MediumInteraction, t0: real, tFar: real, ghost fuel0: nat)
    returns (weight: Spectrum, mi: MediumInteraction)
    requires Trackable(m)
    requires TrackFrom(m, tr, lerp, ray, local, selfRef, mi0, t0, tFar, 0, fuel0).Some?
    ensures TrackFrom(m, tr, lerp, ray, local, selfRef, mi0, t0, tFar, 0, fuel0) == Some(SampleResult(weight, mi))
  {
    var t := t0;
    var k: nat := 0;
    ghost var fuel := fuel0;
    ghost var goal := TrackFrom(m, tr, lerp, ray, local, selfRef, mi0, t0, tFar, 0, fuel0);
    while true
      invariant TrackFrom(m, tr, lerp, ray, local, selfRef, mi0, t, tFar, k, fuel) == goal
      invariant fuel > 0
      decreases fuel
    {
      var done, t1;
      done, t1, weight, mi := TrackStep(m, tr, lerp, ray, local, selfRef, mi0, t, tFar, k, fuel);
      if done {
        return;
      }
      t, k, fuel := t1, k + 1, fuel - 1;
    }
  }

  /** One step of the tracking loop: advance, then leave the box, scatter, or go on. */
  method TrackStep(m: GridDensityMedium, tr: Tracking, lerp: (real, real, real) -> real, ray: RayState,
                   local: RayState, selfRef: MediumRef, mi0: MediumInteraction, t: real, tFar: real, k: nat,
                   ghost fuel: nat)
    returns (done: bool, t1: real, weight: Spectrum, mi: MediumInteraction)
    requires Trackable(m) && fuel > 0
    ensures t1 == Advance(m, tr, t, k)
    ensures done ==> TrackFrom(m, tr, lerp, ray, local, selfRef, mi0, t, tFar, k, fuel) == Some(SampleResult(weight, mi))
    ensures !done ==>
      TrackFrom(m, tr, lerp, ray, local, selfRef, mi0, t, tFar, k, fuel) ==
      TrackFrom(m, tr, lerp, ray, local, selfRef, mi0, t1, tFar, k + 1, fuel - 1)
  {
    t1 := Advance(m, tr, t, k);
    weight, mi := Grey(1.0), mi0;
    if t1 >= tFar {
      return true, t1, weight, mi;
    }
    if Accepts(m, tr, lerp, local, t1, k) {
      return true, t1, SDiv(m.sigmaS, m.sigmaT), Scatter(m, ray, t1, selfRef);
    }
    done := false;
  }
}
