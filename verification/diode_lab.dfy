/** The diode I–V lab: a signed, capped exponential current law with a
    reverse-leakage floor, forward and reverse observation lists selected by
    the bias mode, result extraction, and the clamp on electron speed.
    `Math.exp` and `Math.pow` are the uninterpreted parameters `exp`, `pow`. */
module DiodeLab {
  import opened Results
  import opened RealSeq

  /** Conduction threshold, in volts. */
  const Barrier: real := 0.7
  /** Reverse-bias current below the threshold, in amperes (shown negated). */
  const ReverseLeakage: real := 0.001
  /** Declared with the diode's properties but used by no computation. */
  const ForwardResistance: real := 10.0
  const ReverseBreakdown: real := 8.0
  /** Current ceiling, in amperes. */
  const CurrentCap: real := 0.05

  /** Diode current in amperes at voltage v. Above the threshold (in
      magnitude) both biases share one law and differ only in sign; below
      it, forward bias gives 0 and reverse bias the leakage. */
  function DiodeCurrent(v: real, forward: bool, exp: real -> real): (i: real)
    ensures Abs(v) <= Barrier ==> i == if forward then 0.0 else -ReverseLeakage
    ensures forward ==> i <= CurrentCap
    ensures !forward ==> i >= -CurrentCap
    ensures Abs(v) > Barrier && exp(3.0 * (Abs(v) - Barrier)) >= 0.0 ==>
              (if forward then i >= 0.0 else i <= 0.0)
  {
    if Abs(v) > Barrier then
      var magnitude := Min(0.001 * exp(3.0 * (Abs(v) - Barrier)), CurrentCap);
      if forward then magnitude else -magnitude
    else if forward then 0.0
    else -ReverseLeakage
  }

  /** Above the threshold the reverse current is the forward current negated,
      and the sign of the voltage itself does not matter. */
  lemma CurrentSymmetry(v: real, exp: real -> real)
    ensures Abs(v) > Barrier ==> DiodeCurrent(v, false, exp) == -DiodeCurrent(v, true, exp)
    ensures forall forward: bool :: DiodeCurrent(-v, forward, exp) == DiodeCurrent(v, forward, exp)
  {
  }

  /** With exp(x) >= 1 for x >= 0 (as the real exponential), crossing the
      threshold never lowers the magnitude: forward current is at least 1 mA
      and reverse current at least the leakage, in magnitude. */
  lemma CurrentAboveThreshold(v: real, exp: real -> real)
    requires Abs(v) > Barrier
    requires exp(3.0 * (Abs(v) - Barrier)) >= 1.0
    ensures DiodeCurrent(v, true, exp) >= 0.001
    ensures DiodeCurrent(v, false, exp) <= -ReverseLeakage
  {
  }

  /** A recorded reading: voltage in volts, current in milliamperes. */
  datatype Observation = Observation(voltage: real, milliamps: real)

  datatype DiodeState = DiodeState(
    voltage: real,
    current: real,   // amperes
    running: bool,
    forward: bool,   // bias mode
    forwardObs: seq<Observation>,
    reverseObs: seq<Observation>
  )

  function Init(): DiodeState {
    DiodeState(0.0, 0.0, false, true, [], [])
  }

  /** The measurement refresh: a no-op while stopped; otherwise recomputes
      the current for the present voltage and bias. */
  function UpdateMeasurements(s: DiodeState, exp: real -> real): (r: DiodeState)
    ensures !s.running ==> r == s
    ensures s.running ==> r == s.(current := DiodeCurrent(s.voltage, s.forward, exp))
  {
    if !s.running then s
    else s.(current := DiodeCurrent(s.voltage, s.forward, exp))
  }

  /** The bias selector: ignored while stopped; otherwise switches bias,
      drops the voltage to 0 and refreshes the current. */
  function SetBias(s: DiodeState, forward: bool, exp: real -> real): (r: DiodeState)
    ensures !s.running ==> r == s
    ensures s.running ==> r.forward == forward && r.voltage == 0.0
    ensures s.running ==> r.current == if forward then 0.0 else -ReverseLeakage
    ensures r.running == s.running
    ensures r.forwardObs == s.forwardObs && r.reverseObs == s.reverseObs
  {
    if !s.running then s
    else UpdateMeasurements(s.(forward := forward, voltage := 0.0), exp)
  }

  /** The voltage slider: ignored while stopped; otherwise sets the voltage
      and refreshes the current. */
  function SetVoltage(s: DiodeState, v: real, exp: real -> real): (r: DiodeState)
    ensures !s.running ==> r == s
    ensures s.running ==> r.voltage == v && r.current == DiodeCurrent(v, s.forward, exp)
    ensures r.running == s.running && r.forward == s.forward
    ensures r.forwardObs == s.forwardObs && r.reverseObs == s.reverseObs
  {
    if !s.running then s
    else UpdateMeasurements(s.(voltage := v), exp)
  }

  /** The start/stop button: toggles running, refreshing the current on start. */
  function StartStop(s: DiodeState, exp: real -> real): (r: DiodeState)
    ensures r.running == !s.running
    ensures r.running ==> r.current == DiodeCurrent(s.voltage, s.forward, exp)
    ensures r.voltage == s.voltage && r.forward == s.forward
    ensures r.forwardObs == s.forwardObs && r.reverseObs == s.reverseObs
  {
    if s.running then s.(running := false)
    else UpdateMeasurements(s.(running := true), exp)
  }

  /** The reset button: stopped, 0 V, both observation lists emptied. */
  function Reset(s: DiodeState): (r: DiodeState)
    ensures !r.running && r.voltage == 0.0
    ensures r.forwardObs == [] && r.reverseObs == []
    ensures r.forward == s.forward && r.current == s.current
  {
    s.(running := false, voltage := 0.0, forwardObs := [], reverseObs := [])
  }

  datatype ObservationError = NotRunning

  /** "Add observation": refused while stopped; otherwise appends
      (voltage, current in mA) to the list of the present bias only. */
  function AddObservation(s: DiodeState): (r: Result<DiodeState, ObservationError>)
    ensures !s.running <==> r.Err?
    ensures r.Ok? && s.forward ==>
              r.value.forwardObs == s.forwardObs + [Observation(s.voltage, s.current * 1000.0)]
              && r.value.reverseObs == s.reverseObs
    ensures r.Ok? && !s.forward ==>
              r.value.reverseObs == s.reverseObs + [Observation(s.voltage, s.current * 1000.0)]
              && r.value.forwardObs == s.forwardObs
    ensures r.Ok? ==> r.value.(forwardObs := s.forwardObs, reverseObs := s.reverseObs) == s
  {
    if !s.running then Err(NotRunning)
    else
      var o := Observation(s.voltage, s.current * 1000.0);
      if s.forward then Ok(s.(forwardObs := s.forwardObs + [o]))
      else Ok(s.(reverseObs := s.reverseObs + [o]))
  }

  predicate HasEnoughObservations(s: DiodeState) {
    |s.forwardObs| > 0 && |s.reverseObs| > 0
  }

  /** Index of the first reading whose current exceeds `threshold` mA. */
  function FirstAbove(obs: seq<Observation>, threshold: real): (k: Option<nat>)
    ensures k.Some? ==> k.value < |obs| && obs[k.value].milliamps > threshold
    ensures k.Some? ==> forall j :: 0 <= j < k.value ==> obs[j].milliamps <= threshold
    ensures k.None? ==> forall j :: 0 <= j < |obs| ==> obs[j].milliamps <= threshold
  {
    if |obs| == 0 then None
    else if obs[0].milliamps > threshold then Some(0)
    else
      match FirstAbove(obs[1..], threshold)
      case None => None
      case Some(j) => Some(j + 1)
  }

  /** Current, in mA, that marks conduction when reading off the barrier voltage. */
  const ConductionMilliamps: real := 100.0

  /** Magnitudes of the reverse currents. */
  function AbsCurrents(obs: seq<Observation>): (ms: seq<real>)
    ensures |ms| == |obs|
    ensures forall i :: 0 <= i < |obs| ==> ms[i] == Abs(obs[i].milliamps)
  {
    seq(|obs|, i requires 0 <= i < |obs| => Abs(obs[i].milliamps))
  }

  datatype DiodeResult = DiodeResult(barrierVoltage: real, reverseMilliamps: real)

  datatype ResultError = NeedBothBiases

  /** The barrier voltage is the voltage of the first forward reading above
      100 mA; when that is 0 (none found, or found at 0 V) the first forward
      reading's voltage is used. The reverse current is the mean magnitude
      of the reverse readings. Refused unless both lists have readings. */
  function CalculateResults(fwd: seq<Observation>, rev: seq<Observation>): (r: Result<DiodeResult, ResultError>)
    ensures r.Err? <==> |fwd| == 0 || |rev| == 0
    ensures r.Ok? ==> r.value.reverseMilliamps >= 0.0
    ensures r.Ok? ==> r.value.reverseMilliamps == Mean(AbsCurrents(rev))
    ensures r.Ok? && FirstAbove(fwd, ConductionMilliamps).Some?
                  && fwd[FirstAbove(fwd, ConductionMilliamps).value].voltage != 0.0 ==>
              r.value.barrierVoltage == fwd[FirstAbove(fwd, ConductionMilliamps).value].voltage
    ensures r.Ok? && (FirstAbove(fwd, ConductionMilliamps).None?
                      || fwd[FirstAbove(fwd, ConductionMilliamps).value].voltage == 0.0) ==>
              r.value.barrierVoltage == fwd[0].voltage
    ensures r.Ok? && (forall j :: 0 <= j < |fwd| ==> fwd[j].milliamps <= ConductionMilliamps) ==>
              r.value.barrierVoltage == fwd[0].voltage
    ensures r.Ok? ==>
              r.value.barrierVoltage == fwd[0].voltage
              || exists k :: 0 <= k < |fwd| && fwd[k].milliamps > ConductionMilliamps
                             && (forall j :: 0 <= j < k ==> fwd[j].milliamps <= ConductionMilliamps)
                             && r.value.barrierVoltage == fwd[k].voltage
  {
    if |fwd| == 0 || |rev| == 0 then Err(NeedBothBiases)
    else
      var found := match FirstAbove(fwd, ConductionMilliamps)
                   case Some(k) => fwd[k].voltage
                   case None => 0.0;
      var barrier := if found == 0.0 then fwd[0].voltage else found;
      var ms := AbsCurrents(rev);
      SumNonNegative(ms);
      Ok(DiodeResult(barrier, Mean(ms)))
  }

  /** The results are refused exactly when the page's "enough observations"
      check fails. */
  lemma CalculateNeedsEnoughObservations(s: DiodeState)
    ensures CalculateResults(s.forwardObs, s.reverseObs).Err? <==> !HasEnoughObservations(s)
  {
  }

  /** A reading above 100 mA at a non-zero voltage fixes the barrier, while
      the reverse current is the midpoint of two reverse magnitudes. */
  lemma ConductingReadingFixesBarrier()
    ensures CalculateResults([Observation(1.0, 0.0), Observation(2.0, 200.0)],
                             [Observation(-5.0, -1.0), Observation(-10.0, -3.0)])
            == Ok(DiodeResult(2.0, 2.0))
  {
    var fwd := [Observation(1.0, 0.0), Observation(2.0, 200.0)];
    assert fwd[1..] == [Observation(2.0, 200.0)];
    assert FirstAbove(fwd, ConductionMilliamps) == Some(1);
    MeanOfPair(1.0, 3.0);
    assert AbsCurrents([Observation(-5.0, -1.0), Observation(-10.0, -3.0)]) == [1.0, 3.0];
  }

  /** The reverse current reported lies within the range of the reverse
      readings' magnitudes. */
  lemma ReverseCurrentWithinReadings(fwd: seq<Observation>, rev: seq<Observation>, lo: real, hi: real)
    requires |fwd| > 0 && |rev| > 0
    requires forall i :: 0 <= i < |rev| ==> lo <= Abs(rev[i].milliamps) <= hi
    ensures lo <= CalculateResults(fwd, rev).value.reverseMilliamps <= hi
  {
    MeanBounds(AbsCurrents(rev), lo, hi);
  }

  /** What holds of every reachable state, for a fixed `exp`: while running
      the current matches the law, and every forward reading is at most the
      50 mA cap. */
  ghost predicate Inv(s: DiodeState, exp: real -> real) {
    && (s.running ==> s.current == DiodeCurrent(s.voltage, s.forward, exp))
    && forall j :: 0 <= j < |s.forwardObs| ==> s.forwardObs[j].milliamps <= 50.0
  }

  lemma InitSatisfiesInv(exp: real -> real)
    ensures Inv(Init(), exp)
  {
  }

  lemma HandlersKeepInv(s: DiodeState, forward: bool, v: real, exp: real -> real)
    requires Inv(s, exp)
    ensures Inv(UpdateMeasurements(s, exp), exp)
    ensures Inv(SetBias(s, forward, exp), exp)
    ensures Inv(SetVoltage(s, v, exp), exp)
    ensures Inv(StartStop(s, exp), exp)
    ensures Inv(Reset(s), exp)
    ensures AddObservation(s).Ok? ==> Inv(AddObservation(s).value, exp)
  {
  }

  /** Because forward current never exceeds 50 mA, no forward reading passes
      the 100 mA mark, and the reported barrier voltage is always that of
      the first forward reading. */
  lemma BarrierIsFirstForwardVoltage(s: DiodeState, exp: real -> real)
    requires Inv(s, exp)
    requires HasEnoughObservations(s)
    ensures CalculateResults(s.forwardObs, s.reverseObs).value.barrierVoltage == s.forwardObs[0].voltage
  {
  }

  /** Lowest electron speed for each bias. */
  function MinSpeed(forward: bool): real {
    if forward then 0.02 else 0.015
  }

  const MaxSpeed: real := 0.25

  /** Electron speed before clamping: 0.03 * ((|v|/10)^1.5 + |i| * 1000 / 80),
      boosted by 1 + ((|v| - 3)/3)^1.8 above 3 V. The source's forward and
      reverse boost branches are identical, so bias plays no part here. */
  function RawSpeed(v: real, i: real, pow: (real, real) -> real): (speed: real)
    ensures pow(Abs(v) / 10.0, 1.5) >= 0.0 && (Abs(v) > 3.0 ==> pow((Abs(v) - 3.0) / 3.0, 1.8) >= 0.0) ==>
              speed >= 0.03 * (pow(Abs(v) / 10.0, 1.5) + Abs(i) * 1000.0 / 80.0) >= 0.0
  {
    var base := 0.03 * (pow(Abs(v) / 10.0, 1.5) + Abs(i) * 1000.0 / 80.0);
    if Abs(v) > 3.0 then base * (1.0 + pow((Abs(v) - 3.0) / 3.0, 1.8)) else base
  }

  /** Electron speed: the raw speed clamped to [MinSpeed(bias), 0.25]. */
  function ElectronSpeed(v: real, i: real, forward: bool, pow: (real, real) -> real): (r: real)
    ensures MinSpeed(forward) <= r <= MaxSpeed
    ensures MinSpeed(forward) <= RawSpeed(v, i, pow) <= MaxSpeed ==> r == RawSpeed(v, i, pow)
    ensures RawSpeed(v, i, pow) < MinSpeed(forward) ==> r == MinSpeed(forward)
    ensures RawSpeed(v, i, pow) > MaxSpeed ==> r == MaxSpeed
  {
    Clamp(RawSpeed(v, i, pow), MinSpeed(forward), MaxSpeed)
  }
}
