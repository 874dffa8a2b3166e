/**
 * Per-epoch arithmetic shared by both exporters
 * (spacecraft_trajectory_propagator.py, lines 161, 180, 192-194 and 287-294):
 * the spacecraft state relative to Ganymede plus Ganymede's state relative to
 * Jupiter, metres to kilometres; and the Julian date of an epoch.
 */
module Frames {

  /** x, y, z (m) then vx, vy, vz (m/s), as the propagator and the ephemeris give them. */
  type StateVector = s: seq<real> | |s| == 6 witness [0.0, 0.0, 0.0, 0.0, 0.0, 0.0]

  /** One entry of the propagated state history: epoch (s) and the spacecraft's state
      relative to Ganymede. */
  datatype Sample = Sample(epoch: real, state: StateVector)

  const J2000JulianDate: real := 2451545.0
  const SecondsPerDay: real := 86400.0
  const MetresPerKilometre: real := 1000.0

  /** Component-wise sum of the two states, in km and km/s. */
  function Compose(scWrtPrimary: StateVector, primaryWrtReference: StateVector): StateVector {
    seq(6, j requires 0 <= j < 6 => (scWrtPrimary[j] + primaryWrtReference[j]) / MetresPerKilometre)
  }

  /** The composition is undone by scaling back to metres and subtracting the
      primary's state: no component is lost or mixed with another. */
  lemma ComposeRecoversSpacecraft(sc: StateVector, primary: StateVector)
    ensures forall j :: 0 <= j < 6 ==>
      Compose(sc, primary)[j] * MetresPerKilometre - primary[j] == sc[j]
  {
  }

  /** Composition is translation by the primary's state: two spacecraft states
      differ, per component, by 1000 times the difference of their compositions. */
  lemma ComposeIsTranslation(sc1: StateVector, sc2: StateVector, primary: StateVector)
    ensures forall j :: 0 <= j < 6 ==>
      (Compose(sc1, primary)[j] - Compose(sc2, primary)[j]) * MetresPerKilometre == sc1[j] - sc2[j]
  {
  }

  /** Julian date of an epoch counted in seconds from J2000. */
  function JulianDate(epochSeconds: real): real {
    J2000JulianDate + epochSeconds / SecondsPerDay
  }

  /** The Julian date is strictly increasing in the epoch and is inverted by
      (jd - 2451545) * 86400; epoch zero is J2000 itself. */
  lemma JulianDateOrderAndInverse(t1: real, t2: real)
    ensures t1 < t2 <==> JulianDate(t1) < JulianDate(t2)
    ensures (JulianDate(t1) - J2000JulianDate) * SecondsPerDay == t1
    ensures JulianDate(0.0) == 2451545.0
  {
  }
}
