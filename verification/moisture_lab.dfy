/** The chemistry page: the moisture-in-coal step machine and oven ramp,
    together with the titration state that shares the page's running flag
    and observation table.

    The oven heating interval is never cleared by a reset or a pause: it is
    kept here as `oven`, the target temperature of the live interval. The
    ramp's progress percentage is `ticks / 10`, one tick adding 0.1. */
module MoistureLab {
  import opened Results
  import opened BuretteTable

  datatype Display = NoDisplay | TakeReadingsFirst | Report(result: ChlorideResult)

  datatype LabState = LabState(
    running: bool,
    indicator: bool,
    caco3: bool,
    volume: real,             // dispensed burette volume in mL
    table: Table,
    display: Display,
    step: nat,                // 0 idle, 1 awaiting sample, 2 heating, 3 weigh, 4 done
    sample: bool,
    heating: bool,
    ticks: nat,
    temperature: real,
    weight: real,             // grams on the balance
    oven: Option<real>        // target temperature of the live heating interval
  )

  const RoomTemperature: real := 25.0
  const FullTicks: nat := 1000
  const DryingFactor: real := 0.95
  const CrucibleFactor: real := 0.2

  /** The initial page, with the table rows the page was served with. */
  function Init(rows: Table): LabState {
    LabState(false, false, false, 0.0, rows, NoDisplay, 0, false, false, 0, RoomTemperature, 0.0, None)
  }

  /** The ramp's progress in percent. */
  function Progress(s: LabState): real {
    s.ticks as real / 10.0
  }

  /** The burette reading handler: refused unless the experiment is running
      and the indicator has been added. */
  function RecordObservation(s: LabState): (r: LabState)
    ensures !(s.running && s.indicator) ==> r == s
    ensures s.running && s.indicator ==> r == s.(table := RecordReading(s.table, s.volume))
  {
    if !s.running || !s.indicator then s
    else s.(table := RecordReading(s.table, s.volume))
  }

  /** The calculate button: the chloride report, or the request for readings. */
  function ShowResults(s: LabState): (r: LabState)
    ensures r.display.TakeReadingsFirst? <==> |ConstantDiffs(s.table)| == 0
    ensures r.display.Report? ==> r.display.result.averageReading == RealSeq.Mean(ConstantDiffs(s.table))
    ensures r.(display := s.display) == s
  {
    match CalculateResults(s.table) {
      case Err(_) => s.(display := TakeReadingsFirst)
      case Ok(res) => s.(display := Report(res))
    }
  }

  /** Placing the coal sample; `random` is the draw in [0, 1) that sets its
      weight around one gram. */
  function AddCoalSample(s: LabState, random: real): (r: LabState)
    requires 0.0 <= random < 1.0
    ensures r.sample && 1.0 <= r.weight < 1.1
    ensures r.(sample := s.sample, weight := s.weight) == s
  {
    s.(sample := true, weight := 1.0 + random * 0.1)
  }

  /** Starting the oven ramp towards `target`; refused without a sample. */
  function StartHeating(s: LabState, target: real): (r: LabState)
    ensures !s.sample ==> r == s
    ensures s.sample ==> r.heating && r.ticks == 0 && r.temperature == RoomTemperature && r.oven == Some(target)
    ensures r.step == s.step && r.table == s.table && r.weight == s.weight
  {
    if !s.sample then s
    else s.(heating := true, ticks := 0, temperature := RoomTemperature, oven := Some(target))
  }

  /** One tick of the live heating interval: at full progress it stops and
      the sample loses 5% of its weight; otherwise progress rises by 0.1%
      and the temperature moves proportionally from 25 towards the target. */
  function HeatingTick(s: LabState): (r: LabState)
    requires s.oven.Some?
    ensures s.ticks >= FullTicks ==>
              r.oven.None? && !r.heating && r.weight == DryingFactor * s.weight && r.ticks == s.ticks
    ensures s.ticks < FullTicks ==>
              && r.oven == s.oven && r.ticks == s.ticks + 1 && r.weight == s.weight
              && r.temperature == RoomTemperature + (s.oven.value - RoomTemperature) * Progress(r) / 100.0
    ensures r.step == s.step && r.table == s.table && r.sample == s.sample && r.running == s.running
  {
    if s.ticks >= FullTicks then
      s.(heating := false, oven := None, weight := s.weight * DryingFactor)
    else
      var ticks := s.ticks + 1;
      s.(ticks := ticks,
         temperature := RoomTemperature + (s.oven.value - RoomTemperature) * ((ticks as real / 10.0) / 100.0))
  }

  /** Pausing stops the experiment and clears the heating flag; the oven
      interval itself keeps ticking. */
  function Pause(s: LabState): (r: LabState)
    ensures !r.running && !r.heating
    ensures r.(running := s.running, heating := s.heating) == s
  {
    s.(running := false, heating := false)
  }

  /** A weighing row: crucible, crucible with sample and dried sample
      weights in the initial, final and difference cells. */
  function MeasurementRow(weight: real): Row {
    Row(Num(weight * CrucibleFactor), Num(weight), Num(weight * DryingFactor))
  }

  function RecordMeasurement(s: LabState): (r: LabState)
    ensures r.table == s.table + [MeasurementRow(s.weight)]
    ensures r.(table := s.table) == s
  {
    s.(table := s.table + [MeasurementRow(s.weight)])
  }

  /** Reset: the titration and oven state back to the start with every table
      cell cleared, but the rows, the step reached and the live oven
      interval are kept. */
  function Reset(s: LabState): (r: LabState)
    ensures |r.table| == |s.table| && forall i :: 0 <= i < |r.table| ==> r.table[i] == BlankRow
    ensures r.step == s.step && r.oven == s.oven
    ensures !r.running && !r.indicator && !r.sample && !r.heating
    ensures r.display == NoDisplay && r.weight == 0.0 && r.ticks == 0 && r.volume == 0.0
  {
    LabState(false, false, false, 0.0, seq(|s.table|, _ => BlankRow), NoDisplay,
             s.step, false, false, 0, RoomTemperature, 0.0, s.oven)
  }

  /** The start button. While running it only pauses; otherwise it advances
      the step machine under each step's guard. */
  function StartExperiment(s: LabState, target: real): (r: LabState)
    ensures s.running ==> r == Pause(s)
    ensures r.step == s.step || r.step == s.step + 1
    ensures r.step == s.step + 1 ==> !s.running && s.step < 4
  {
    if s.running then Pause(s)
    else if s.step == 0 then s.(running := true, step := 1)
    else if s.step == 1 then
      (if !s.sample then s else StartHeating(s, target).(step := 2))
    else if s.step == 2 then
      (if !s.heating then s.(step := 3) else s)
    else if s.step == 3 then
      (if s.weight > 0.0 then RecordMeasurement(s).(step := 4) else s)
    else if s.step == 4 then Reset(ShowResults(s))
    else s
  }

  /** The add-sample button: allowed at steps 0 and 1 only. */
  function AddSampleClick(s: LabState, random: real): (r: LabState)
    requires 0.0 <= random < 1.0
    ensures s.step > 1 ==> r == s
    ensures s.step <= 1 ==> r == AddCoalSample(s, random)
  {
    if s.step == 1 || s.step == 0 then AddCoalSample(s, random) else s
  }

  /** The start-heating button: allowed at step 1 with a sample, moving to 2. */
  function StartHeatingClick(s: LabState, target: real): (r: LabState)
    ensures !(s.step == 1 && s.sample) ==> r == s
    ensures s.step == 1 && s.sample ==> r.step == 2 && r.heating && r.oven == Some(target)
  {
    if s.step == 1 && s.sample then StartHeating(s, target).(step := 2) else s
  }

  /** The take-reading button: allowed at step 3 only; the step is kept. */
  function TakeReadingClick(s: LabState): (r: LabState)
    ensures s.step != 3 ==> r == s
    ensures s.step == 3 ==> r == RecordMeasurement(s)
  {
    if s.step == 3 then RecordMeasurement(s) else s
  }

  /** The step machine moves only forward, one step at a time, each move
      under its guard; a click while running only pauses. */
  lemma StartExperimentSteps(s: LabState, target: real)
    ensures var r := StartExperiment(s, target);
            && (s.running ==> r == Pause(s))
            && (r.step == s.step || r.step == s.step + 1)
            && (r.step == s.step + 1 ==>
                  && !s.running
                  && (s.step == 0 ==> r.running)
                  && (s.step == 1 ==> s.sample && r.oven == Some(target))
                  && (s.step == 2 ==> !s.heating)
                  && (s.step == 3 ==> s.weight > 0.0 && r.table == s.table + [MeasurementRow(s.weight)])
                  && s.step < 4)
  {
  }

  /** Reset keeps step 4, so from then on every click of the start button
      computes the result and clears it again at once. */
  lemma StepFourRepeats(s: LabState, target: real)
    requires s.step == 4 && !s.running
    ensures StartExperiment(s, target).step == 4
    ensures StartExperiment(s, target).display == NoDisplay
    ensures !StartExperiment(s, target).running
  {
  }

  /** n firings of the oven interval; once it has stopped, further
      firings do nothing. */
  function Ticks(s: LabState, n: nat): (r: LabState)
    ensures r.step == s.step && r.table == s.table
    decreases n
  {
    if n == 0 || s.oven.None? then s else Ticks(HeatingTick(s), n - 1)
  }

  /** From a weight of 0, the interval keeps the weight at 0 and stops
      after at most FullTicks - ticks + 1 firings. */
  lemma {:induction false} TicksFromReset(s: LabState, n: nat)
    requires s.oven.Some? && s.weight == 0.0 && s.ticks <= FullTicks
    ensures Ticks(s, n).weight == 0.0
    ensures n > FullTicks - s.ticks ==> Ticks(s, n).oven.None?
    decreases n
  {
    if n > 0 {
      var t := HeatingTick(s);
      if s.ticks >= FullTicks {
        assert t.oven.None? && t.weight == 0.0;
        assert Ticks(t, n - 1) == t;
      } else {
        TicksFromReset(t, n - 1);
      }
    }
  }

  /** A reset does not stop the oven interval: it keeps ticking from the
      restarted progress and, when it completes, dries a sample of weight 0. */
  lemma ResetKeepsOvenRunning(s: LabState)
    requires s.oven.Some?
    ensures Reset(s).oven == s.oven
    ensures HeatingTick(Reset(s)).ticks == 1
    ensures HeatingTick(Reset(s)).weight == 0.0
    ensures Ticks(Reset(s), FullTicks + 1).oven.None?
    ensures Ticks(Reset(s), FullTicks + 1).weight == 0.0
  {
    TicksFromReset(Reset(s), FullTicks + 1);
  }

  /** Since the indicator is never added, the burette reading handler
      always refuses. */
  lemma RecordObservationAlwaysRefused(s: LabState)
    requires Inv(s)
    ensures RecordObservation(s) == s
  {
  }

  /** What every reachable page satisfies: the indicator is never added,
      the step is at most 4, a live oven interval exists only from step 2
      on, and its ramp follows the proportional law. */
  ghost predicate Inv(s: LabState) {
    && !s.indicator
    && s.step <= 4
    && (s.oven.Some? ==> s.step >= 2)
    && s.ticks <= FullTicks
    && (s.oven.Some? ==>
          s.temperature == RoomTemperature + (s.oven.value - RoomTemperature) * Progress(s) / 100.0)
  }

  lemma InitSatisfiesInv(rows: Table)
    ensures Inv(Init(rows))
  {
  }

  lemma StartExperimentKeepsInv(s: LabState, target: real)
    requires Inv(s)
    ensures Inv(StartExperiment(s, target))
  {
    if !s.running && s.step == 4 {
      ResetKeepsInv(ShowResults(s));
    }
  }

  lemma ButtonsKeepInv(s: LabState, target: real, random: real)
    requires Inv(s) && 0.0 <= random < 1.0
    ensures Inv(AddSampleClick(s, random)) && Inv(StartHeatingClick(s, target))
  {
  }

  lemma RecordingKeepsInv(s: LabState)
    requires Inv(s)
    ensures Inv(TakeReadingClick(s)) && Inv(ShowResults(s)) && Inv(RecordObservation(s))
  {
  }

  lemma ResetKeepsInv(s: LabState)
    requires Inv(s)
    ensures Inv(Reset(s))
  {
    var r := Reset(s);
    if s.oven.Some? {
      assert Progress(r) == 0.0;
      assert r.temperature == RoomTemperature;
    }
  }

  lemma HeatingTickKeepsInv(s: LabState)
    requires Inv(s) && s.oven.Some?
    ensures Inv(HeatingTick(s))
  {
  }

  lemma Interpolate(a: real, d: real, p: real)
    requires 0.0 <= p <= 1.0
    ensures d >= 0.0 ==> a <= a + d * p <= a + d
    ensures d < 0.0 ==> a + d <= a + d * p <= a
  {
    if d >= 0.0 {
      assert d * p <= d * 1.0;
    } else {
      assert d * 1.0 <= d * p;
    }
  }

  /** Along the ramp the temperature stays between room temperature and
      the target. */
  lemma RampStaysBetween(s: LabState)
    requires Inv(s) && s.oven.Some?
    ensures var t := s.oven.value;
            if t >= RoomTemperature then RoomTemperature <= s.temperature <= t
            else t <= s.temperature <= RoomTemperature
  {
    var t := s.oven.value;
    var p := Progress(s) / 100.0;
    assert s.temperature == RoomTemperature + (t - RoomTemperature) * p;
    var d := t - RoomTemperature;
    Interpolate(RoomTemperature, d, p);
    var x := RoomTemperature + d * p;
    assert s.temperature == x;
    if d >= 0.0 {
      assert RoomTemperature <= x <= t;
    } else {
      assert t <= x <= RoomTemperature;
    }
  }
}
