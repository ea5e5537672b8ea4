/**
 * Medium bookkeeping (`medium/medium.rs`): medium interfaces, the transition
 * test and medium interactions. A medium is referred to by a handle whose
 * equality stands for `Rc::ptr_eq`; the transport a medium performs
 * (`Medium::sample`, `Medium::tr`) belongs to the concrete media.
 */
module Media {
  import opened Wrappers
  import opened Vectors

  /** A shared reference `Rc<dyn Medium>`; two handles are equal iff they are the same object. */
  type MediumRef = nat

  /** The media on the two sides of a surface. */
  datatype MediumInterface = MediumInterface(inside: Option<MediumRef>, outside: Option<MediumRef>)

  /** `MediumInterface::default()`: no medium on either side. */
  function DefaultInterface(): MediumInterface {
    MediumInterface(None, None)
  }

  /** `MediumInterface::new`: a missing outside medium defaults to the inside one. */
  function NewInterface(inside: Option<MediumRef>, outside: Option<MediumRef>): (mi: MediumInterface)
    ensures mi.inside == inside
    ensures outside.Some? ==> mi.outside == outside
    ensures outside.None? ==> mi.outside == inside
  {
    MediumInterface(inside, match outside { case None => inside case o => o })
  }

  /** `is_medium_transition`: the two sides differ, absence counting as a value. */
  function IsMediumTransition(mi: MediumInterface): (r: bool)
    ensures r <==> mi.inside != mi.outside
  {
    !match (mi.inside, mi.outside) {
      case (None, None) => true
      case (Some(m1), Some(m2)) => m1 == m2
      case _ => false
    }
  }

  /** The phase functions the core attaches: only Henyey-Greenstein with asymmetry `g`. */
  datatype PhaseFunction = HenyeyGreenstein(g: real)

  datatype MediumInteraction = MediumInteraction(
    position: Vec3,
    time: real,
    pError: Vec3,
    wo: Vec3,
    normal: Vec3,
    mediumInterface: MediumInterface,
    phase: Option<PhaseFunction>)

  /** `MediumInteraction::default()`. */
  function DefaultInteraction(): MediumInteraction {
    MediumInteraction(Zero(), 0.0, Zero(), Zero(), Zero(), DefaultInterface(), None)
  }

  /** `MediumInteraction::new`: the medium is recorded on both sides. */
  function NewInteraction(p: Vec3, time: real, wo: Vec3, medium: MediumRef, phase: Option<PhaseFunction>)
    : (mi: MediumInteraction)
    ensures mi.position == p && mi.time == time && mi.wo == wo && mi.phase == phase
    ensures mi.pError == Zero() && mi.normal == Zero()
    ensures mi.mediumInterface.inside == Some(medium) && mi.mediumInterface.outside == Some(medium)
    ensures !IsMediumTransition(mi.mediumInterface)
  {
    MediumInteraction(p, time, Zero(), wo, Zero(), NewInterface(Some(medium), None), phase)
  }

  /** `is_valid`: a phase function is attached. */
  function IsValid(mi: MediumInteraction): (r: bool)
    ensures r <==> mi.phase.Some?
  {
    mi.phase.Some?
  }

  lemma DefaultInteractionInvalid()
    ensures !IsValid(DefaultInteraction())
    ensures !IsMediumTransition(DefaultInteraction().mediumInterface)
  {
  }

  /** `is_medium_interaction` of the `Interaction` implementation. */
  function IsMediumInteraction(mi: MediumInteraction): bool {
    true
  }

  /**
   * `f(wo, wi)`: the grey spectrum of the phase value; `phaseValue` is the
   * phase function's `p(wo, wi)`, whose formula is not part of this model.
   * The source unwraps the phase function, so it must be present.
   */
  function F(mi: MediumInteraction, wo: Vec3, wi: Vec3, phaseValue: (PhaseFunction, Vec3, Vec3) -> real)
    : (s: Spectrum)
    requires IsValid(mi)
    ensures s.r == s.g == s.b == phaseValue(mi.phase.value, wo, wi)
  {
    Grey(phaseValue(mi.phase.value, wo, wi))
  }
}
