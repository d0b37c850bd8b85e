/** The observation table of the titration page and the two gauges drawn
    from the lab state: the solution level in the flask and the mercury
    column of the oven thermometer.

    Every table row has three value cells (initial, final, difference); an
    empty cell is `Blank`. Row 0 is the pilot titration. */
module BuretteTable {
  import opened Results
  import opened RealSeq

  datatype Cell = Blank | Num(value: real)

  datatype Row = Row(initial: Cell, final: Cell, diff: Cell)

  type Table = seq<Row>

  const BlankRow: Row := Row(Blank, Blank, Blank)

  /** A row still waiting for a reading. */
  predicate Open(row: Row) {
    row.initial.Blank? || row.final.Blank?
  }

  /** The first row still waiting for a reading, if any. */
  function FirstOpen(t: Table): (r: Option<nat>)
    ensures r.None? <==> forall j :: 0 <= j < |t| ==> !Open(t[j])
    ensures r.Some? ==> r.value < |t| && Open(t[r.value])
                        && forall j :: 0 <= j < r.value ==> !Open(t[j])
  {
    if |t| == 0 then None
    else if Open(t[0]) then Some(0)
    else match FirstOpen(t[1..]) {
      case None => None
      case Some(i) => Some(i + 1)
    }
  }

  /** One burette reading at `volume`: the first open row gets its initial
      cell if that is empty, otherwise its final cell together with the
      difference final - initial. With no open row nothing changes. */
  function RecordReading(t: Table, volume: real): (r: Table)
    ensures |r| == |t|
    ensures FirstOpen(t).None? ==> r == t
    ensures FirstOpen(t).Some? ==>
              var i := FirstOpen(t).value;
              && (forall j :: 0 <= j < |t| && j != i ==> r[j] == t[j])
              && (t[i].initial.Blank? ==> r[i] == t[i].(initial := Num(volume)))
              && (t[i].initial.Num? ==>
                    r[i] == t[i].(final := Num(volume), diff := Num(volume - t[i].initial.value)))
  {
    match FirstOpen(t) {
      case None => t
      case Some(i) =>
        var row := t[i];
        var row' := if row.initial.Blank? then row.(initial := Num(volume))
                    else row.(final := Num(volume), diff := Num(volume - row.initial.value));
        t[i := row']
    }
  }

  /** Number of filled initial and final cells: the progress of the readings. */
  function FilledSteps(t: Table): nat {
    if |t| == 0 then 0
    else FilledSteps(t[..|t| - 1])
         + (if t[|t| - 1].initial.Num? then 1 else 0)
         + (if t[|t| - 1].final.Num? then 1 else 0)
  }

  lemma {:induction false} FilledStepsUpdate(t: Table, i: nat, row: Row)
    requires i < |t|
    ensures FilledSteps(t[i := row]) + (if t[i].initial.Num? then 1 else 0) + (if t[i].final.Num? then 1 else 0)
            == FilledSteps(t) + (if row.initial.Num? then 1 else 0) + (if row.final.Num? then 1 else 0)
  {
    var n := |t| - 1;
    if i == n {
      assert t[i := row][..n] == t[..n];
    } else {
      assert t[i := row][..n] == t[..n][i := row];
      FilledStepsUpdate(t[..n], i, row);
    }
  }

  /** Each reading fills exactly one cell while some row is open. */
  lemma RecordReadingFillsOneStep(t: Table, volume: real)
    ensures FilledSteps(RecordReading(t, volume)) ==
              FilledSteps(t) + if FirstOpen(t).Some? then 1 else 0
  {
    if FirstOpen(t).Some? {
      var i := FirstOpen(t).value;
      FilledStepsUpdate(t, i, RecordReading(t, volume)[i]);
      assert RecordReading(t, volume) == t[i := RecordReading(t, volume)[i]];
    }
  }

  /** The numeric difference cells, in row order. */
  function Diffs(t: Table): (ds: seq<real>)
    ensures |ds| <= |t|
  {
    if |t| == 0 then []
    else (match t[0].diff { case Num(d) => [d] case Blank => [] }) + Diffs(t[1..])
  }

  lemma {:induction false} DiffsAppend(t: Table, row: Row)
    ensures Diffs(t + [row]) == Diffs(t) + match row.diff { case Num(d) => [d] case Blank => [] }
  {
    if |t| == 0 {
      assert t + [row] == [row];
    } else {
      assert (t + [row])[1..] == t[1..] + [row];
      DiffsAppend(t[1..], row);
    }
  }

  /** Diffs of the rows after the pilot row. */
  function ConstantDiffs(t: Table): seq<real> {
    if |t| == 0 then [] else Diffs(t[1..])
  }

  /** Normality of the silver nitrate, equivalent weight of chloride and
      sample volume in millilitres. */
  const SilverNitrateNormality: real := 0.025
  const ChlorideEquivalentWeight: real := 35.5
  const SampleVolume: real := 10.0

  /** Chloride content in ppm for an average burette reading in mL. */
  function ChloridePpm(average: real): (ppm: real)
    ensures average >= 0.0 ==> ppm >= 0.0
    ensures average == 10.0 ==> ppm == 887.5
  {
    average * SilverNitrateNormality * ChlorideEquivalentWeight * 1000.0 / SampleVolume
  }

  /** The burette reading that yields a chloride content. */
  function AverageForPpm(ppm: real): (average: real)
  {
    ppm * SampleVolume / (SilverNitrateNormality * ChlorideEquivalentWeight * 1000.0)
  }

  lemma ChloridePpmRoundTrip(average: real, ppm: real)
    ensures AverageForPpm(ChloridePpm(average)) == average
    ensures ChloridePpm(AverageForPpm(ppm)) == ppm
    ensures ChloridePpm(average) == 88.75 * average
  {
  }

  datatype ChlorideResult = ChlorideResult(averageReading: real, ppm: real)

  datatype ResultError = NoReadings

  /** The result over the rows after the pilot: refused when none of them
      has a numeric difference, else the average and its chloride content. */
  function CalculateResults(t: Table): (r: Result<ChlorideResult, ResultError>)
    ensures r.Err? <==> |ConstantDiffs(t)| == 0
    ensures r.Ok? ==> r.value.averageReading == Mean(ConstantDiffs(t))
                      && r.value.ppm == ChloridePpm(r.value.averageReading)
  {
    var ds := ConstantDiffs(t);
    if |ds| == 0 then Err(NoReadings)
    else
      var avg := Mean(ds);
      Ok(ChlorideResult(avg, ChloridePpm(avg)))
  }

  /** The pilot row never influences the result, and the average lies
      within any bounds of the later differences. */
  lemma CalculateResultsIgnoresPilot(t: Table, pilot: Row, lo: real, hi: real)
    requires |t| > 0
    requires forall i :: 0 <= i < |ConstantDiffs(t)| ==> lo <= ConstantDiffs(t)[i] <= hi
    ensures CalculateResults(t[0 := pilot]) == CalculateResults(t)
    ensures CalculateResults(t).Ok? ==> lo <= CalculateResults(t).value.averageReading <= hi
  {
    assert t[0 := pilot][1..] == t[1..];
    if |ConstantDiffs(t)| > 0 {
      MeanBounds(ConstantDiffs(t), lo, hi);
    }
  }

  /** Appending a row with a numeric difference adds it to the average. */
  lemma CalculateResultsAppend(t: Table, row: Row)
    requires |t| > 0
    ensures ConstantDiffs(t + [row]) ==
              ConstantDiffs(t) + match row.diff { case Num(d) => [d] case Blank => [] }
  {
    assert (t + [row])[1..] == t[1..] + [row];
    DiffsAppend(t[1..], row);
  }

  /** Burette capacity in mL. */
  const MaxVolume: real := 50.0
  const MinScale: real := 0.01
  const MaxScale: real := 1.0

  datatype Colour = PaleYellow | ReddishBrown

  datatype SolutionView = SolutionView(scale: real, positionY: real, colour: Colour)

  /** The flask drawing for a dispensed volume: a vertical scale growing
      linearly from 0.01 to 1, a position rising from -2 to 0, and the
      endpoint colour once the indicator is in and more than 80% of the
      burette has been dispensed; otherwise the colour is left as it was. */
  function SolutionLevel(volume: real, indicator: bool, colour: Colour): (v: SolutionView)
    ensures 0.0 <= volume <= MaxVolume ==> MinScale <= v.scale <= MaxScale && -2.0 <= v.positionY <= 0.0
    ensures v.colour == ReddishBrown <==> colour == ReddishBrown || (indicator && volume > 40.0)
  {
    var progress := volume / MaxVolume;
    var colour' := if indicator && volume > 0.0 && volume / MaxVolume > 0.8 then ReddishBrown else colour;
    SolutionView(MinScale + progress * (MaxScale - MinScale), -2.0 + progress * 2.0, colour')
  }

  /** The dispensed volume that a scale shows. */
  function VolumeOfScale(scale: real): real {
    (scale - MinScale) / (MaxScale - MinScale) * MaxVolume
  }

  lemma SolutionLevelRoundTrip(volume: real, indicator: bool, colour: Colour)
    ensures VolumeOfScale(SolutionLevel(volume, indicator, colour).scale) == volume
    ensures SolutionLevel(volume, indicator, colour).positionY ==
              -2.0 + 2.0 * (SolutionLevel(volume, indicator, colour).scale - MinScale) / (MaxScale - MinScale)
  {
  }

  /** The thermometer scale: 0 to 200 degrees over 0 to 3.5 units. */
  const ThermometerMaxTemp: real := 200.0
  const ThermometerMaxHeight: real := 3.5

  datatype Column = Column(height: real, centreY: real)

  /** The mercury column for a temperature, standing on the bulb at -2. */
  function MercuryColumn(temperature: real): (c: Column)
    ensures 0.0 <= temperature <= ThermometerMaxTemp ==> 0.0 <= c.height <= ThermometerMaxHeight
    ensures c.centreY - c.height / 2.0 == -2.0
  {
    var h := (temperature - 0.0) / (ThermometerMaxTemp - 0.0) * (ThermometerMaxHeight - 0.0) + 0.0;
    Column(h, -2.0 + h / 2.0)
  }

  function TemperatureOfHeight(height: real): real {
    height / ThermometerMaxHeight * ThermometerMaxTemp
  }

  /** The column is a strictly increasing linear map with an inverse. */
  lemma MercuryColumnLinear(t1: real, t2: real, h: real)
    ensures TemperatureOfHeight(MercuryColumn(t1).height) == t1
    ensures MercuryColumn(TemperatureOfHeight(h)).height == h
    ensures t1 < t2 ==> MercuryColumn(t1).height < MercuryColumn(t2).height
  {
  }
}
