/**
 * Extended reals for the single-precision quantities of the renderer that can
 * be infinite: the corner of the empty box (+inf), the reciprocal of a zero
 * direction component, and the slab parameters computed from them.
 * A NaN result is represented as `None` by the operations that can produce one.
 */
module ExtReal {
  import opened Wrappers

  datatype Ext = NegInf | Fin(r: real) | PosInf

  /** The largest finite single-precision value, `f32::MAX`. */
  const F32_MAX: real := 340282346638528859811704183484516925440.0
  /** `f32::MIN`, the most negative finite single-precision value. */
  const F32_MIN: real := -F32_MAX

  /** The total order of the extended reals. */
  predicate Le(a: Ext, b: Ext) {
    match (a, b)
    case (NegInf, _) => true
    case (_, PosInf) => true
    case (Fin(x), Fin(y)) => x <= y
    case _ => false
  }

  predicate Lt(a: Ext, b: Ext) {
    !Le(b, a)
  }

  function Min(a: Ext, b: Ext): (r: Ext)
    ensures Le(r, a) && Le(r, b)
    ensures r == a || r == b
  {
    if Le(a, b) then a else b
  }

  function Max(a: Ext, b: Ext): (r: Ext)
    ensures Le(a, r) && Le(b, r)
    ensures r == a || r == b
  {
    if Le(a, b) then b else a
  }

  /** Rust's `f32::max`: a NaN argument is ignored. */
  function MaxIgnoringNaN(a: Ext, b: Option<Ext>): Ext {
    if b.None? then a else Max(a, b.value)
  }

  /** Rust's `f32::min`: a NaN argument is ignored. */
  function MinIgnoringNaN(a: Ext, b: Option<Ext>): Ext {
    if b.None? then a else Min(a, b.value)
  }

  /** `a - o` for a finite `o`. */
  function SubReal(a: Ext, o: real): Ext {
    match a
    case Fin(x) => Fin(x - o)
    case _ => a
  }

  /** `x - a` for a finite `x`. */
  function RealSub(x: real, a: Ext): Ext {
    match a
    case Fin(y) => Fin(x - y)
    case PosInf => NegInf
    case NegInf => PosInf
  }

  /** `a + x` for a finite `x`. */
  function AddReal(a: Ext, x: real): Ext {
    SubReal(a, -x)
  }

  /** `c * a` for a positive finite `c`. */
  function ScalePos(c: real, a: Ext): Ext
    requires c > 0.0
  {
    match a
    case Fin(x) => Fin(c * x)
    case _ => a
  }

  function Sign(a: Ext): int {
    match a
    case NegInf => -1
    case PosInf => 1
    case Fin(x) => if x < 0.0 then -1 else if x > 0.0 then 1 else 0
  }

  /** The IEEE product; zero times an infinity is NaN (`None`). */
  function Mul(a: Ext, b: Ext): (r: Option<Ext>)
    ensures r.None? <==> ((!a.Fin? || !b.Fin?) && Sign(a) * Sign(b) == 0)
    ensures a.Fin? && b.Fin? ==> r == Some(Fin(a.r * b.r))
  {
    if a.Fin? && b.Fin? then Some(Fin(a.r * b.r))
    else if Sign(a) * Sign(b) == 0 then None
    else if Sign(a) * Sign(b) > 0 then Some(PosInf)
    else Some(NegInf)
  }

  /**
   * `1.0 / x`. The reals have no negative zero, so a zero component is taken
   * to be `+0.0`, whose reciprocal is `+inf`.
   */
  function Recip(x: real): (r: Ext)
    ensures x != 0.0 ==> r == Fin(1.0 / x)
    ensures Sign(r) == Sign(Fin(x)) || x == 0.0
    ensures r != Fin(0.0)
  {
    if x == 0.0 then PosInf else Fin(1.0 / x)
  }

  lemma LeTotal(a: Ext, b: Ext)
    ensures Le(a, b) || Le(b, a)
  {
  }

  lemma LeTrans(a: Ext, b: Ext, c: Ext)
    requires Le(a, b) && Le(b, c)
    ensures Le(a, c)
  {
  }

  lemma LeAntisym(a: Ext, b: Ext)
    requires Le(a, b) && Le(b, a)
    ensures a == b
  {
  }
}
