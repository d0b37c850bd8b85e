/** The flash-point apparatus: the heating and cooling ramps as one interval
    tick each, the fill and glow levels of the animation frame, the
    observation bookkeeping, the mean/deviation result, the interpretation
    bands and the flash-point report.

    The page keeps two kinds of record in one list: the table rows
    `{temp, flame, flash: 'Yes' | 'No'}` and, for a "yes" answer only,
    `{temperature, flash: true}`. Statistics count only records whose flash
    field is the boolean true. */
module FlashPointLab {
  import opened Results
  import opened RealSeq

  /** The value stored in a record's flash field. */
  datatype Flag = FlagBool(b: bool) | FlagText(text: string)

  datatype Record = Record(temperature: real, flame: Option<string>, flash: Flag)

  /** The heating interval handle: none, ticking, or cleared but still set
      (the cooling step clears it without forgetting it). */
  datatype HeatTimer = NoTimer | Ticking | Cleared

  datatype FlashState = FlashState(
    started: bool,
    waterFilled: bool,
    oilAdded: bool,
    heating: bool,
    heatTimer: HeatTimer,
    stirring: bool,
    flameApplied: bool,
    cooling: bool,
    coolTimer: bool,
    temperature: real,        // degrees Celsius
    rows: seq<Record>,
    observedTemp: Option<real>,
    ceasedTemp: Option<real>,
    waterShown: bool,
    oilShown: bool,
    waterLevel: real,
    oilLevel: real,
    glow: real
  )

  const RoomTemperature: real := 25.0
  const MaxTemperature: real := 80.0
  const MinTemperature: real := 20.0
  const HeatStep: real := 0.5
  const CoolStep: real := 0.2

  function Init(): FlashState {
    FlashState(false, false, false, false, NoTimer, false, false, false, false,
               RoomTemperature, [], None, None, false, false, 0.0, 0.0, 0.0)
  }

  /** JavaScript truthiness of an optional number: set and non-zero. */
  predicate Truthy(x: Option<real>) {
    x.Some? && x.value != 0.0
  }

  function StartExperiment(s: FlashState): (r: FlashState)
    ensures r.started
    ensures r.(started := s.started) == s
  {
    s.(started := true)
  }

  /** Shows the water and restarts its fill animation from empty. */
  function FillWaterBath(s: FlashState): (r: FlashState)
    ensures r.waterFilled && r.waterShown && r.waterLevel == 0.0
    ensures r.(waterFilled := s.waterFilled, waterShown := s.waterShown, waterLevel := s.waterLevel) == s
  {
    s.(waterFilled := true, waterShown := true, waterLevel := 0.0)
  }

  /** Shows the oil and restarts its fill animation from empty. */
  function AddOil(s: FlashState): (r: FlashState)
    ensures r.oilAdded && r.oilShown && r.oilLevel == 0.0
    ensures r.(oilAdded := s.oilAdded, oilShown := s.oilShown, oilLevel := s.oilLevel) == s
  {
    s.(oilAdded := true, oilShown := true, oilLevel := 0.0)
  }

  /** Start heating: a no-op while already heating; otherwise heating with
      the burner glow restarted from 0 and a fresh interval. */
  function StartHeating(s: FlashState): (r: FlashState)
    ensures s.heating ==> r == s
    ensures !s.heating ==> r.heating && r.heatTimer == Ticking && r.glow == 0.0
    ensures r.temperature == s.temperature && r.rows == s.rows
  {
    if s.heating then s
    else s.(heating := true, glow := 0.0, heatTimer := Ticking)
  }

  /** One heating interval tick: +0.5 below 80; at 80 or above the interval
      stops and heating ends with the temperature unchanged. */
  function HeatingTick(s: FlashState): (r: FlashState)
    requires s.heatTimer == Ticking
    ensures s.temperature < MaxTemperature ==>
              r.temperature == s.temperature + HeatStep && r.heating == s.heating && r.heatTimer == Ticking
    ensures s.temperature >= MaxTemperature ==>
              r.temperature == s.temperature && !r.heating && r.heatTimer == NoTimer
    ensures r.temperature <= Max(s.temperature, MaxTemperature + HeatStep)
    ensures r.rows == s.rows && r.glow == s.glow && r.cooling == s.cooling && r.coolTimer == s.coolTimer
    ensures r.observedTemp == s.observedTemp && r.waterLevel == s.waterLevel && r.oilLevel == s.oilLevel
  {
    if s.temperature < MaxTemperature then s.(temperature := s.temperature + HeatStep)
    else s.(heatTimer := NoTimer, heating := false)
  }

  function StirOil(s: FlashState): (r: FlashState)
    ensures r.stirring != s.stirring
    ensures r.(stirring := s.stirring) == s
  {
    s.(stirring := !s.stirring)
  }

  /** Stirring is a toggle: two clicks restore the state. */
  lemma StirTwiceRestores(s: FlashState)
    ensures StirOil(StirOil(s)) == s
  {
  }

  /** Applying the test flame pauses the heating interval. The match
      animation and the random flash are not modelled. */
  function ApplyFlame(s: FlashState): (r: FlashState)
    ensures s.flameApplied ==> r == s
    ensures !s.flameApplied ==> r.flameApplied && r.heatTimer == NoTimer
    ensures r.temperature == s.temperature && r.heating == s.heating
  {
    if s.flameApplied then s
    else s.(flameApplied := true, heatTimer := NoTimer)
  }

  /** After the match has been held to the oil (with or without a flash),
      heating resumes if it is on, its interval is gone and the oil is
      below 80. */
  function ResumeHeating(s: FlashState): (r: FlashState)
    ensures r.heatTimer == if s.heating && s.heatTimer == NoTimer && s.temperature < MaxTemperature
                           then Ticking else s.heatTimer
    ensures r.temperature == s.temperature && r.heating == s.heating && r.flameApplied == s.flameApplied
    ensures r.observedTemp == s.observedTemp && r.waterLevel == s.waterLevel
    ensures r.oilLevel == s.oilLevel && r.glow == s.glow && r.rows == s.rows
  {
    if s.heating && s.heatTimer == NoTimer && s.temperature < MaxTemperature
    then s.(heatTimer := Ticking) else s
  }

  /** The match has been withdrawn: the flame is no longer applied. */
  function RemoveMatch(s: FlashState): (r: FlashState)
    ensures !r.flameApplied
    ensures r.(flameApplied := s.flameApplied) == s
  {
    s.(flameApplied := false)
  }

  /** Cool and retest: the heating interval is cleared (but its handle kept),
      the glow drops to 0 and a cooling interval starts. */
  function CoolRetest(s: FlashState): (r: FlashState)
    ensures r.cooling && r.coolTimer && r.glow == 0.0
    ensures r.heatTimer != Ticking
    ensures r.heating == s.heating && r.temperature == s.temperature
    ensures r.heatTimer == Cleared <==> s.heatTimer != NoTimer
    ensures r.(heatTimer := s.heatTimer, glow := s.glow, coolTimer := s.coolTimer, cooling := s.cooling) == s
  {
    var timer := if s.heatTimer == NoTimer then NoTimer else Cleared;
    s.(heatTimer := timer, glow := 0.0, coolTimer := true, cooling := true)
  }

  /** One cooling interval tick: -0.2 above 20; at 20 or below the interval
      stops with the temperature unchanged. */
  function CoolingTick(s: FlashState): (r: FlashState)
    requires s.coolTimer
    ensures s.temperature > MinTemperature ==> r.temperature == s.temperature - CoolStep && r.coolTimer
    ensures s.temperature <= MinTemperature ==> r.temperature == s.temperature && !r.coolTimer
    ensures r.temperature >= Min(s.temperature, MinTemperature - CoolStep)
    ensures r.rows == s.rows && r.glow == s.glow && r.heating == s.heating && r.heatTimer == s.heatTimer
    ensures r.observedTemp == s.observedTemp && r.waterLevel == s.waterLevel && r.oilLevel == s.oilLevel
  {
    if s.temperature > MinTemperature then s.(temperature := s.temperature - CoolStep)
    else s.(coolTimer := false)
  }

  /** One level of the fill animation: +0.01 per frame up to 1. */
  function FillStep(shown: bool, level: real): (r: real)
    ensures 0.0 <= level <= 1.0 ==> 0.0 <= r <= 1.0
    ensures shown && level < 1.0 ==> r >= level
    ensures !(shown && level < 1.0) ==> r == level
  {
    if shown && level < 1.0 then Min(1.0, level + 0.01) else level
  }

  /** The burner glow: rises by 0.03 while heating, fades by 0.03 otherwise. */
  function GlowStep(heating: bool, glow: real): (r: real)
    ensures 0.0 <= glow <= 1.0 ==> 0.0 <= r <= 1.0
    ensures heating && 0.0 <= glow ==> r >= glow
    ensures !heating && glow <= 1.0 ==> r <= glow
  {
    if heating && glow < 1.0 then Min(1.0, glow + 0.03)
    else if !heating && glow > 0.0 then Max(0.0, glow - 0.03)
    else glow
  }

  /** The level updates of one animation frame. */
  function AnimateLevels(s: FlashState): (r: FlashState)
    ensures r.(waterLevel := s.waterLevel, oilLevel := s.oilLevel, glow := s.glow) == s
  {
    s.(waterLevel := FillStep(s.waterShown, s.waterLevel),
       oilLevel := FillStep(s.oilShown, s.oilLevel),
       glow := GlowStep(s.heating, s.glow))
  }

  /** A table row is appended; while cooling, the first 'No' sets the
      flash-ceased temperature, which is never overwritten once set. */
  function AddObservationRow(s: FlashState, temp: real, flame: string, answer: string): (r: FlashState)
    ensures r.rows == s.rows + [Record(temp, Some(flame), FlagText(answer))]
    ensures Truthy(s.ceasedTemp) ==> r.ceasedTemp == s.ceasedTemp
    ensures !(s.cooling && answer == "No") ==> r.ceasedTemp == s.ceasedTemp
    ensures s.cooling && answer == "No" && !Truthy(s.ceasedTemp) ==> r.ceasedTemp == Some(temp)
    ensures r.cooling == s.cooling && r.temperature == s.temperature && r.observedTemp == s.observedTemp
    ensures r.heating == s.heating
    ensures r.waterLevel == s.waterLevel && r.oilLevel == s.oilLevel && r.glow == s.glow
  {
    var rows := s.rows + [Record(temp, Some(flame), FlagText(answer))];
    if s.cooling && answer == "No" && !Truthy(s.ceasedTemp) then
      s.(rows := rows, ceasedTemp := Some(temp))
    else
      s.(rows := rows)
  }

  /** Records the current temperature with the user's answer to "was a flash
      observed?": always a table row, plus a flash record when the answer is
      yes. The flame is marked as no longer applied. */
  function RecordTemp(s: FlashState, flashSeen: bool): (r: FlashState)
    ensures !r.flameApplied
    ensures r.rows == s.rows + [Record(s.temperature, Some("Yes"), FlagText(if flashSeen then "Yes" else "No"))]
                     + (if flashSeen then [Record(s.temperature, None, FlagBool(true))] else [])
    ensures r.temperature == s.temperature && r.heating == s.heating && r.cooling == s.cooling
  {
    var t := AddObservationRow(s, s.temperature, "Yes", if flashSeen then "Yes" else "No");
    var rows := if flashSeen then t.rows + [Record(s.temperature, None, FlagBool(true))] else t.rows;
    t.(rows := rows, flameApplied := false)
  }

  /** The record counts in the statistics: its flash field is boolean true. */
  predicate IsFlash(rec: Record) {
    rec.flash == FlagBool(true)
  }

  /** Temperatures of the flash records, in order. */
  function FlashTemps(rows: seq<Record>): (ts: seq<real>)
    ensures |ts| <= |rows|
  {
    if |rows| == 0 then []
    else (if IsFlash(rows[0]) then [rows[0].temperature] else []) + FlashTemps(rows[1..])
  }

  lemma {:induction false} FlashTempsAppend(rows: seq<Record>, rec: Record)
    ensures FlashTemps(rows + [rec]) == FlashTemps(rows) + if IsFlash(rec) then [rec.temperature] else []
  {
    if |rows| > 0 {
      assert (rows + [rec])[1..] == rows[1..] + [rec];
      FlashTempsAppend(rows[1..], rec);
    } else {
      assert rows + [rec] == [rec];
    }
  }

  /** Only a "yes" answer adds a flash temperature, and exactly one; table
      rows never do. */
  lemma RecordTempFlashes(s: FlashState, flashSeen: bool)
    ensures FlashTemps(RecordTemp(s, flashSeen).rows) ==
              FlashTemps(s.rows) + if flashSeen then [s.temperature] else []
    ensures forall temp, flame, answer ::
              FlashTemps(AddObservationRow(s, temp, flame, answer).rows) == FlashTemps(s.rows)
  {
    var row := Record(s.temperature, Some("Yes"), FlagText(if flashSeen then "Yes" else "No"));
    FlashTempsAppend(s.rows, row);
    if flashSeen {
      FlashTempsAppend(s.rows + [row], Record(s.temperature, None, FlagBool(true)));
    }
    forall temp, flame, answer
      ensures FlashTemps(AddObservationRow(s, temp, flame, answer).rows) == FlashTemps(s.rows)
    {
      FlashTempsAppend(s.rows, Record(temp, Some(flame), FlagText(answer)));
    }
  }

  /** What the running result panel shows after each recording. */
  datatype ResultView = NoFlashYet | NeedAnother(temps: seq<real>) | MeanFlash(temps: seq<real>, mean: real)

  function UpdateResult(rows: seq<Record>): (v: ResultView)
    ensures v.NoFlashYet? <==> |FlashTemps(rows)| == 0
    ensures v.NeedAnother? <==> |FlashTemps(rows)| == 1
    ensures v.NeedAnother? ==> v.temps == FlashTemps(rows)
    ensures v.MeanFlash? ==> v.temps == FlashTemps(rows) && |v.temps| >= 2
    ensures v.MeanFlash? ==> v.mean == CalculateResult(rows).value.mean
  {
    var ts := FlashTemps(rows);
    if |ts| == 0 then NoFlashYet
    else if |ts| < 2 then NeedAnother(ts)
    else MeanFlash(ts, Mean(ts))
  }

  datatype FlashStats = FlashStats(count: nat, mean: real, meanSquareDeviation: real)

  datatype StatsError = TooFewFlashes

  /** Squared deviations from m. */
  function SquaredDeviations(ts: seq<real>, m: real): (ds: seq<real>)
    ensures |ds| == |ts|
    ensures forall i :: 0 <= i < |ts| ==> ds[i] == (ts[i] - m) * (ts[i] - m)
  {
    seq(|ts|, i requires 0 <= i < |ts| => (ts[i] - m) * (ts[i] - m))
  }

  lemma DeviationsNonNegative(ts: seq<real>, m: real)
    ensures forall i :: 0 <= i < |ts| ==> SquaredDeviations(ts, m)[i] >= 0.0
  {
    forall i | 0 <= i < |ts|
      ensures SquaredDeviations(ts, m)[i] >= 0.0
    {
      var d := ts[i] - m;
      if d >= 0.0 {
        assert d * d >= 0.0 * d;
      } else {
        assert (-d) * (-d) >= 0.0 * (-d);
      }
    }
  }

  /** The statistics over the flash temperatures, refused below two. The
      mean squared deviation is what the page takes the square root of. */
  function CalculateResult(rows: seq<Record>): (r: Result<FlashStats, StatsError>)
    ensures r.Err? <==> |FlashTemps(rows)| < 2
    ensures r.Ok? ==> r.value.count == |FlashTemps(rows)| && r.value.meanSquareDeviation >= 0.0
    ensures r.Ok? ==> r.value.mean == Mean(FlashTemps(rows))
    ensures r.Ok? ==> r.value.meanSquareDeviation ==
                        Mean(SquaredDeviations(FlashTemps(rows), r.value.mean))
  {
    var ts := FlashTemps(rows);
    if |ts| < 2 then Err(TooFewFlashes)
    else
      var m := Mean(ts);
      var ds := SquaredDeviations(ts, m);
      DeviationsNonNegative(ts, m);
      SumNonNegative(ds);
      Ok(FlashStats(|ts|, m, Mean(ds)))
  }

  /** Both readings of a pair lie half their spread from its midpoint. */
  lemma MidpointDeviations(a: real, b: real, m: real, d: real)
    requires m == (a + b) / 2.0 && d == (a - b) / 2.0
    ensures SquaredDeviations([a, b], m) == [d * d, d * d]
  {
    assert a - m == d && b - m == -d;
    assert (-d) * (-d) == d * d;
    var ds := SquaredDeviations([a, b], m);
    assert |ds| == 2 && ds[0] == d * d && ds[1] == d * d;
    assert ds == [d * d, d * d];
  }

  /** With exactly two flashes, the panel and the statistics both show
      their midpoint, and the deviation is half their spread, squared. */
  lemma TwoFlashesMidpoint(rows: seq<Record>, a: real, b: real)
    requires FlashTemps(rows) == [a, b]
    ensures UpdateResult(rows) == MeanFlash([a, b], (a + b) / 2.0)
    ensures CalculateResult(rows).value.mean == (a + b) / 2.0
    ensures CalculateResult(rows).value.meanSquareDeviation == ((a - b) / 2.0) * ((a - b) / 2.0)
  {
    MeanOfPair(a, b);
    var r := CalculateResult(rows).value;
    assert r.mean == (a + b) / 2.0;
    var d := (a - b) / 2.0;
    MidpointDeviations(a, b, r.mean, d);
    MeanOfPair(d * d, d * d);
    assert r.meanSquareDeviation == Mean([d * d, d * d]);
  }

  /** The mean lies within any bounds of the flash temperatures, and when
      they all agree the mean is that temperature and the deviation is 0. */
  lemma CalculateResultMeaning(rows: seq<Record>, lo: real, hi: real)
    requires |FlashTemps(rows)| >= 2
    requires forall i :: 0 <= i < |FlashTemps(rows)| ==> lo <= FlashTemps(rows)[i] <= hi
    ensures lo <= CalculateResult(rows).value.mean <= hi
    ensures lo == hi ==> CalculateResult(rows).value.mean == lo
                         && CalculateResult(rows).value.meanSquareDeviation == 0.0
  {
    var ts := FlashTemps(rows);
    MeanBounds(ts, lo, hi);
    if lo == hi {
      MeanOfConstant(ts, lo);
      MeanOfConstant(SquaredDeviations(ts, lo), 0.0);
    }
  }

  datatype Band = Low | Moderate | High

  /** Interpretation bands: below 60 low, below 100 moderate, otherwise high. */
  function Interpret(flashPoint: real): (b: Band)
    ensures b == Low <==> flashPoint < 60.0
    ensures b == Moderate <==> 60.0 <= flashPoint < 100.0
    ensures b == High <==> flashPoint >= 100.0
  {
    if flashPoint < 60.0 then Low
    else if flashPoint < 100.0 then Moderate
    else High
  }

  datatype Report = Insufficient | FlashPointReport(flashPoint: real, band: Band)

  /** The final report: the midpoint of the flash-observed and flash-ceased
      temperatures, reported only when both are set and non-zero. */
  function ShowResult(s: FlashState): (r: Report)
    ensures r.Insufficient? <==> !(Truthy(s.observedTemp) && Truthy(s.ceasedTemp))
    ensures r.FlashPointReport? ==>
              Min(s.observedTemp.value, s.ceasedTemp.value) <= r.flashPoint
              <= Max(s.observedTemp.value, s.ceasedTemp.value)
    ensures r.FlashPointReport? ==> r.band == Interpret(r.flashPoint)
  {
    if Truthy(s.observedTemp) && Truthy(s.ceasedTemp) then
      var fp := (s.observedTemp.value + s.ceasedTemp.value) / 2.0;
      FlashPointReport(fp, Interpret(fp))
    else Insufficient
  }

  /** Reset: everything back to the initial state and both intervals gone,
      except that the cooling flag is not cleared. */
  function Reset(s: FlashState): (r: FlashState)
    ensures r == Init().(cooling := s.cooling)
  {
    Init().(cooling := s.cooling)
  }

  /** What holds of every reachable state: nothing ever sets the
      flash-observed temperature, the levels stay in [0, 1] and the
      temperature within the ramps' reach. */
  ghost predicate Inv(s: FlashState) {
    && s.observedTemp.None?
    && 0.0 <= s.waterLevel <= 1.0
    && 0.0 <= s.oilLevel <= 1.0
    && 0.0 <= s.glow <= 1.0
    && MinTemperature - CoolStep <= s.temperature <= MaxTemperature + HeatStep
  }

  lemma InitSatisfiesInv()
    ensures Inv(Init())
  {
  }

  lemma ButtonsKeepInv(s: FlashState)
    requires Inv(s)
    ensures Inv(StartExperiment(s)) && Inv(FillWaterBath(s)) && Inv(AddOil(s))
    ensures Inv(StartHeating(s)) && Inv(StirOil(s)) && Inv(Reset(s))
  {
  }

  lemma FlameStepsKeepInv(s: FlashState)
    requires Inv(s)
    ensures Inv(ApplyFlame(s)) && Inv(ResumeHeating(s)) && Inv(RemoveMatch(s)) && Inv(CoolRetest(s))
  {
  }

  lemma AnimateKeepsInv(s: FlashState)
    requires Inv(s)
    ensures Inv(AnimateLevels(s))
  {
    var r := AnimateLevels(s);
    assert 0.0 <= r.waterLevel <= 1.0;
    assert 0.0 <= r.oilLevel <= 1.0;
    assert 0.0 <= r.glow <= 1.0;
  }

  lemma HeatingTickKeepsInv(s: FlashState)
    requires Inv(s) && s.heatTimer == Ticking
    ensures Inv(HeatingTick(s))
  {
    var r := HeatingTick(s);
    assert r.temperature <= MaxTemperature + HeatStep;
  }

  lemma CoolingTickKeepsInv(s: FlashState)
    requires Inv(s) && s.coolTimer
    ensures Inv(CoolingTick(s))
  {
    var r := CoolingTick(s);
    assert r.temperature >= MinTemperature - CoolStep;
  }

  lemma RecordingKeepsInv(s: FlashState, flashSeen: bool, temp: real, flame: string, answer: string)
    requires Inv(s)
    ensures Inv(AddObservationRow(s, temp, flame, answer)) && Inv(RecordTemp(s, flashSeen))
  {
    var t := AddObservationRow(s, s.temperature, "Yes", if flashSeen then "Yes" else "No");
    assert Inv(t);
  }

  /** Since the flash-observed temperature is never assigned, the final
      report is always "insufficient data". */
  lemma ShowResultAlwaysInsufficient(s: FlashState)
    requires Inv(s)
    ensures ShowResult(s) == Insufficient
  {
  }

  /** The cooling flag survives a reset, so after a reset the first 'No'
      row sets the flash-ceased temperature even though no cooling has
      been started in the new run. */
  lemma ResetKeepsCoolingLatch(s: FlashState, temp: real)
    requires s.cooling
    ensures AddObservationRow(Reset(s), temp, "Yes", "No").ceasedTemp == Some(temp)
  {
  }
}
