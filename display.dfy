/** The split of a reading into the two numbers the polling loop logs as
    `"%d.%03d C"`: the whole degrees `t_mC / 1000` and the millidegree
    remainder `abs_mC % 1000` of the magnitude. */
module Display {
  import opened CInt
  import Tmp102

  /** The two integers handed to the log line. */
  datatype Shown = Shown(whole: int, frac: int)

  /** The split as the loop computes it. The requires excludes `INT32_MIN`,
      whose negation `-t_mC` would overflow; every reading the sensor
      reader produces satisfies it (`ReadingsAreShowable`). For
      -1000 < t < 0 the whole part is 0, so the line carries no minus sign
      (`ShowDropsSign`). */
  function Show(t: int): (d: Shown)
    requires INT32_MIN < t <= INT32_MAX
    ensures 0 <= d.frac < 1000
    ensures Abs(d.whole) * 1000 + d.frac == Abs(t)
    ensures d.whole == 0 || (d.whole < 0 <==> t < 0)
  {
    var absMilliC := if t < 0 then -t else t;
    Shown(TruncDiv(t, 1000), TruncMod(absMilliC, 1000))
  }

  /** No reading of the sensor makes the negation in `Show` overflow. */
  lemma ReadingsAreShowable(msb: uint8, lsb: uint8)
    ensures INT32_MIN < Tmp102.Temperature(msb, lsb) <= INT32_MAX
    ensures INT32_MIN < -Tmp102.Temperature(msb, lsb) <= INT32_MAX
  {
  }

  /** The worked example of the log format: -1500 is shown as -1 and 500. */
  lemma ShowExample()
    ensures Show(-1500) == Shown(-1, 500)
    ensures Show(25000) == Shown(25, 0)
  {
  }

  /** As written, a reading strictly between -1000 and 0 is shown exactly as
      its magnitude: both have whole part 0, so `-0.500 C` prints as
      `0.500 C`. */
  lemma ShowDropsSign(t: int)
    requires -1000 < t < 0
    ensures Show(t) == Show(-t) == Shown(0, -t)
  {
  }

  /** The split with the sign kept apart from the whole part, so that a
      reading between -1000 and 0 is shown with a minus sign. */
  datatype SignedShown = SignedShown(negative: bool, whole: nat, frac: nat)

  /** The corrected split: the sign, then the whole degrees and the
      millidegree remainder of the magnitude. It loses nothing. */
  function ShowSigned(t: int): (d: SignedShown)
    requires INT32_MIN < t <= INT32_MAX
    ensures d.frac < 1000
    ensures d.negative <==> t < 0
    ensures (if d.negative then -1 else 1) * (d.whole * 1000 + d.frac) == t
  {
    var absMilliC := if t < 0 then -t else t;
    SignedShown(t < 0, TruncDiv(absMilliC, 1000), TruncMod(absMilliC, 1000))
  }

  /** Distinct readings are shown differently by the corrected split, and
      it agrees with the loop's split whenever the whole part can carry the
      sign. */
  lemma ShowSignedFaithful(t: int, t': int)
    requires INT32_MIN < t <= INT32_MAX && INT32_MIN < t' <= INT32_MAX
    ensures ShowSigned(t) == ShowSigned(t') ==> t == t'
    ensures t <= -1000 || 0 <= t ==>
              Show(t).frac == ShowSigned(t).frac &&
              Show(t).whole == (if t < 0 then -(ShowSigned(t).whole as int) else ShowSigned(t).whole as int)
  {
  }
}
