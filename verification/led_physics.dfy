/** The LED I–V lab's physical model: the four LEDs, the two current laws
    the page uses, and the per-frame smoothing of the LED's emission.
    `Math.exp` is left uninterpreted: every law takes it as the parameter
    `exp`, so what is proved here holds whatever `exp` returns. */
module LedPhysics {
  import opened RealSeq

  datatype Led = Red | Yellow | Green | Blue

  /** Turn-on voltage of each LED, in volts. */
  function Threshold(led: Led): real {
    match led
    case Red => 1.9
    case Yellow => 2.1
    case Green => 2.3
    case Blue => 2.5
  }

  /** Emission gain per volt above threshold. */
  function EmissiveGain(led: Led): real {
    match led
    case Red => 2.0
    case Yellow => 1.8
    case Green => 1.5
    case Blue => 1.2
  }

  /** The 50 mA ceiling of the slider-driven law, in amperes. */
  const CurrentCap: real := 0.05

  /** The law applied when the voltage or the LED changes: zero up to and
      including the threshold, then 1 mA times exp(3 * excess), capped. */
  function SteadyCurrent(v: real, led: Led, exp: real -> real): (i: real)
    ensures v <= Threshold(led) ==> i == 0.0
    ensures i <= CurrentCap
    ensures v > Threshold(led) && exp(3.0 * (v - Threshold(led))) >= 0.0 ==> i >= 0.0
  {
    if v > Threshold(led) then Min(0.001 * exp(3.0 * (v - Threshold(led))), CurrentCap)
    else 0.0
  }

  /** Above threshold the cap is reached exactly when exp(3 * excess) is at least 50. */
  lemma SteadyCurrentSaturates(v: real, led: Led, exp: real -> real)
    requires v > Threshold(led)
    ensures SteadyCurrent(v, led, exp) == CurrentCap <==> exp(3.0 * (v - Threshold(led))) >= 50.0
  {
  }

  /** With a non-negative, non-decreasing exponential the current never falls
      as the voltage rises. */
  lemma SteadyCurrentMonotone(v1: real, v2: real, led: Led, exp: real -> real)
    requires v1 <= v2
    requires exp(3.0 * (v2 - Threshold(led))) >= 0.0
    requires v1 > Threshold(led) ==> exp(3.0 * (v1 - Threshold(led))) <= exp(3.0 * (v2 - Threshold(led)))
    ensures SteadyCurrent(v1, led, exp) <= SteadyCurrent(v2, led, exp)
  {
  }

  /** The second law, written in the running branch of the measurement
      display update: it already conducts AT the threshold, grows as
      0.1 * exp(1.5 * excess) and is capped at 10 (amperes, although the
      source labels it mA). That branch never runs: the display update is
      called only by the stop button, after it has cleared the running
      flag, so the current the lab shows always follows SteadyCurrent. */
  function PanelCurrent(v: real, led: Led, exp: real -> real): (i: real)
    ensures v < Threshold(led) ==> i == 0.0
    ensures i <= 10.0
    ensures v >= Threshold(led) && exp((v - Threshold(led)) * 1.5) >= 0.0 ==> i >= 0.0
  {
    if v >= Threshold(led) then Min(exp((v - Threshold(led)) * 1.5) * 0.1, 10.0)
    else 0.0
  }

  /** The two laws disagree: exactly at the threshold the unreachable panel
      law gives 0.1 while the slider law gives 0. */
  lemma CurrentLawsDisagreeAtThreshold(led: Led, exp: real -> real)
    requires exp(0.0) == 1.0
    ensures PanelCurrent(Threshold(led), led, exp) == 0.1
    ensures SteadyCurrent(Threshold(led), led, exp) == 0.0
  {
  }

  /** Emission the LED aims for at voltage v (zero gain below threshold is
      handled by EmissionStep). */
  function TargetEmission(v: real, led: Led): real {
    (v - Threshold(led)) * EmissiveGain(led)
  }

  /** One animation frame of the LED's emissive intensity: while running at
      or above threshold it moves a tenth of the way to the target,
      otherwise it decays by a tenth. */
  function EmissionStep(intensity: real, running: bool, v: real, led: Led): (r: real)
    ensures running && v >= Threshold(led) ==>
              Abs(r - TargetEmission(v, led)) == 0.9 * Abs(intensity - TargetEmission(v, led))
    ensures running && v >= Threshold(led) && intensity <= TargetEmission(v, led) ==>
              intensity <= r <= TargetEmission(v, led)
    ensures running && v >= Threshold(led) && intensity >= TargetEmission(v, led) ==>
              TargetEmission(v, led) <= r <= intensity
    ensures !(running && v >= Threshold(led)) && intensity >= 0.0 ==> 0.0 <= r <= intensity
  {
    if running && v >= Threshold(led) then
      intensity + (TargetEmission(v, led) - intensity) * 0.1
    else
      intensity * 0.9
  }
}
