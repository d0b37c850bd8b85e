/** The LED lab's two tables and the Planck-constant calculation.

    The observation table has one row per reading index and, for each LED,
    a pair of cells (voltage in V, current in mA). Each LED's column fills
    top-down on its own, at most twelve readings per LED. The barrier-voltage
    table has one row per LED; its Angstrom wavelength cell is static page
    content, the other cells are written from the observation table. */
module LedTable {
  import opened Results
  import opened RealSeq
  import opened LedPhysics

  /** Readings allowed per LED. */
  const MaxPerLed: nat := 12

  /** A filled cell pair: voltage (V) and current (mA). */
  datatype Reading = Reading(volts: real, milliamps: real)

  /** One observation row: for each LED an empty or filled cell pair. */
  datatype Row = Row(red: Option<Reading>, yellow: Option<Reading>,
                     green: Option<Reading>, blue: Option<Reading>)
  {
    function Get(led: Led): Option<Reading> {
      match led
      case Red => red
      case Yellow => yellow
      case Green => green
      case Blue => blue
    }

    predicate Has(led: Led) {
      Get(led).Some?
    }

    function Set(led: Led, r: Reading): (row: Row)
      ensures row.Get(led) == Some(r)
      ensures forall l :: l != led ==> row.Get(l) == Get(l)
    {
      match led
      case Red => this.(red := Some(r))
      case Yellow => this.(yellow := Some(r))
      case Green => this.(green := Some(r))
      case Blue => this.(blue := Some(r))
    }
  }

  const EmptyRow: Row := Row(None, None, None, None)

  type Table = seq<Row>

  /** Number of filled cells in an LED's column, counted over all rows. */
  function Count(t: Table, led: Led): (n: nat)
    ensures n <= |t|
  {
    if |t| == 0 then 0
    else Count(t[..|t| - 1], led) + (if t[|t| - 1].Has(led) then 1 else 0)
  }

  /** An LED's column is filled from the top with no gaps. */
  ghost predicate ColumnIsPrefix(t: Table, led: Led) {
    forall i, j :: 0 <= i < j < |t| && t[j].Has(led) ==> t[i].Has(led)
  }

  /** The shape every reachable observation table has. */
  ghost predicate WellFormed(t: Table) {
    && |t| <= MaxPerLed
    && forall led :: ColumnIsPrefix(t, led)
  }

  /** In a gap-free column, the filled rows are exactly those above the count. */
  lemma {:induction false} PrefixCount(t: Table, led: Led)
    requires ColumnIsPrefix(t, led)
    ensures forall i :: 0 <= i < |t| ==> (t[i].Has(led) <==> i < Count(t, led))
  {
    if |t| > 0 {
      var init := t[..|t| - 1];
      assert forall i :: 0 <= i < |init| ==> init[i] == t[i];
      assert ColumnIsPrefix(init, led);
      PrefixCount(init, led);
      if t[|t| - 1].Has(led) {
        assert forall i :: 0 <= i < |init| ==> init[i].Has(led);
        if |init| > 0 {
          assert init[|init| - 1].Has(led);
        }
      }
    }
  }

  /** The count depends only on which cells of the column are filled. */
  lemma {:induction false} CountSameColumn(t: Table, u: Table, led: Led)
    requires |t| == |u|
    requires forall i :: 0 <= i < |t| ==> (t[i].Has(led) <==> u[i].Has(led))
    ensures Count(t, led) == Count(u, led)
  {
    if |t| > 0 {
      CountSameColumn(t[..|t| - 1], u[..|u| - 1], led);
    }
  }

  lemma CountAppend(t: Table, row: Row, led: Led)
    ensures Count(t + [row], led) == Count(t, led) + (if row.Get(led).Some? then 1 else 0)
  {
    assert (t + [row])[..|t|] == t;
  }

  /** A column whose first k cells are filled and the rest empty counts k. */
  lemma {:induction false} CountOfPrefix(t: Table, led: Led, k: nat)
    requires k <= |t|
    requires forall i :: 0 <= i < |t| ==> (t[i].Has(led) <==> i < k)
    ensures Count(t, led) == k
  {
    if |t| > 0 {
      var init := t[..|t| - 1];
      if k == |t| {
        CountOfPrefix(init, led, k - 1);
      } else {
        CountOfPrefix(init, led, k);
      }
    }
  }

  datatype TableError = CapReached

  /** Adding a reading for an LED: refused once the LED has twelve readings;
      otherwise written into the row whose index is the LED's current count,
      appending an empty row first when the count equals the row count. */
  function AddReading(t: Table, led: Led, reading: Reading): (r: Result<Table, TableError>)
    ensures r.Err? <==> Count(t, led) >= MaxPerLed
    ensures r.Ok? ==> |r.value| == if Count(t, led) < |t| then |t| else |t| + 1
    ensures r.Ok? ==> r.value[Count(t, led)].Get(led) == Some(reading)
    ensures r.Ok? ==> forall l :: l != led ==>
              r.value[Count(t, led)].Get(l) == if Count(t, led) < |t| then t[Count(t, led)].Get(l) else None
    ensures r.Ok? ==> forall i :: 0 <= i < |t| && i != Count(t, led) ==> r.value[i] == t[i]
  {
    var n := Count(t, led);
    if n >= MaxPerLed then Err(CapReached)
    else if n < |t| then Ok(t[n := t[n].Set(led, reading)])
    else Ok(t + [EmptyRow.Set(led, reading)])
  }

  /** A successful add keeps the table well formed, adds one reading to the
      chosen LED's column, in the row just below its earlier readings, and
      leaves every other LED's column as it was. */
  lemma AddReadingKeepsShape(t: Table, led: Led, reading: Reading)
    requires WellFormed(t)
    requires Count(t, led) < MaxPerLed
    ensures AddReading(t, led, reading).Ok?
    ensures WellFormed(AddReading(t, led, reading).value)
    ensures Count(AddReading(t, led, reading).value, led) == Count(t, led) + 1
    ensures forall l :: l != led ==> Count(AddReading(t, led, reading).value, l) == Count(t, l)
    ensures forall i, l :: 0 <= i < |t| && l != led ==>
              AddReading(t, led, reading).value[i].Get(l) == t[i].Get(l)
    ensures AddReading(t, led, reading).value[Count(t, led)].Get(led) == Some(reading)
  {
    var n := Count(t, led);
    var u := AddReading(t, led, reading).value;
    PrefixCount(t, led);
    if n < |t| {
      assert u == t[n := t[n].Set(led, reading)];
    } else {
      assert u == t + [EmptyRow.Set(led, reading)];
      assert forall i :: 0 <= i < |t| ==> u[i] == t[i];
    }
    assert forall i :: 0 <= i < |u| ==> (u[i].Has(led) <==> i < n + 1);
    CountOfPrefix(u, led, n + 1);
    forall l | l != led
      ensures ColumnIsPrefix(u, l) && Count(u, l) == Count(t, l)
    {
      assert ColumnIsPrefix(t, l);
      if n < |t| {
        CountSameColumn(t, u, l);
      } else {
        CountAppend(t, EmptyRow.Set(led, reading), l);
      }
    }
  }

  /** Every reading in the table shows at most `cap` milliamperes. */
  ghost predicate ReadingsAtMost(t: Table, cap: real) {
    forall i, led :: 0 <= i < |t| && t[i].Has(led) ==> t[i].Get(led).value.milliamps <= cap
  }

  /** Adding a reading within the bound keeps every reading within it. */
  lemma AddReadingKeepsBound(t: Table, led: Led, reading: Reading, cap: real)
    requires ReadingsAtMost(t, cap)
    requires reading.milliamps <= cap
    requires AddReading(t, led, reading).Ok?
    ensures ReadingsAtMost(AddReading(t, led, reading).value, cap)
  {
    var u := AddReading(t, led, reading).value;
    var n := Count(t, led);
    forall i, l | 0 <= i < |u| && u[i].Has(l)
      ensures u[i].Get(l).value.milliamps <= cap
    {
      if i != n {
        assert u[i] == t[i];
      } else if l != led {
        assert n < |t|;
      }
    }
  }

  /** The table invariant and the current bound survive an accepted add. */
  lemma AddReadingKeepsTableInv(t: Table, led: Led, reading: Reading, cap: real)
    requires WellFormed(t) && ReadingsAtMost(t, cap)
    requires reading.milliamps <= cap && Count(t, led) < MaxPerLed
    ensures AddReading(t, led, reading).Ok?
    ensures WellFormed(AddReading(t, led, reading).value)
    ensures ReadingsAtMost(AddReading(t, led, reading).value, cap)
    ensures Count(AddReading(t, led, reading).value, led) == Count(t, led) + 1
  {
    AddReadingKeepsShape(t, led, reading);
    AddReadingKeepsBound(t, led, reading, cap);
  }

  /** The last LED reading, for the at-capacity case: the table is unchanged. */
  lemma AddReadingAtCapacity(t: Table, led: Led, reading: Reading)
    requires Count(t, led) == MaxPerLed
    ensures AddReading(t, led, reading) == Err(CapReached)
  {
  }

  // ---------------------------------------------------------------------
  // Barrier-voltage table

  /** Strictly positive voltages recorded for an LED, top to bottom. */
  function PositiveVolts(t: Table, led: Led): (vs: seq<real>)
    ensures |vs| <= |t|
    ensures forall k :: 0 <= k < |vs| ==> vs[k] > 0.0
    ensures forall k :: 0 <= k < |vs| ==>
              exists i :: 0 <= i < |t| && t[i].Has(led) && t[i].Get(led).value.volts == vs[k]
    ensures forall i :: 0 <= i < |t| && t[i].Has(led) && t[i].Get(led).value.volts > 0.0 ==>
              t[i].Get(led).value.volts in vs
  {
    if |t| == 0 then []
    else
      var rest := PositiveVolts(t[1..], led);
      assert forall i :: 1 <= i < |t| ==> t[1..][i - 1] == t[i];
      if t[0].Has(led) && t[0].Get(led).value.volts > 0.0 then [t[0].Get(led).value.volts] + rest
      else rest
  }

  /** The barrier voltage of an LED: its least strictly positive recorded
      voltage, or none when it has no positive reading. */
  function BarrierVoltage(t: Table, led: Led): (b: Option<real>)
    ensures b.None? <==>
              forall i :: 0 <= i < |t| && t[i].Has(led) ==> t[i].Get(led).value.volts <= 0.0
    ensures b.Some? ==> b.value > 0.0
    ensures b.Some? ==>
              exists i :: 0 <= i < |t| && t[i].Has(led) && t[i].Get(led).value.volts == b.value
    ensures b.Some? ==>
              forall i :: 0 <= i < |t| && t[i].Has(led) && t[i].Get(led).value.volts > 0.0 ==>
                b.value <= t[i].Get(led).value.volts
  {
    var vs := PositiveVolts(t, led);
    if |vs| == 0 then None
    else
      var m := MinOf(vs);
      assert m in vs;
      Some(m)
  }

  /** A row of the barrier table. The Angstrom cell is page content; the
      metre, barrier and inverse-wavelength cells are written here. */
  datatype BarrierRow = BarrierRow(angstrom: Option<real>, metres: Option<real>,
                                   barrier: Option<real>, inverse: Option<real>)

  /** Wavelengths this table uses, in metres. Yellow (5900 Å) and blue
      (4700 Å) match the LED colour table; red (6950 Å against 650 nm) and
      green (5700 Å against 530 nm) differ from it. */
  function TableWavelength(led: Led): (w: real)
    ensures w > 0.0
  {
    match led
    case Red => 6950.0e-10
    case Yellow => 5900.0e-10
    case Green => 5700.0e-10
    case Blue => 4700.0e-10
  }

  /** The barrier-table row of each LED (after the header row). */
  function RowOf(led: Led): (k: nat)
    ensures k < 4
  {
    match led
    case Red => 0
    case Yellow => 1
    case Green => 2
    case Blue => 3
  }

  /** One LED's barrier row after a refresh: untouched without a positive
      reading, otherwise carrying the barrier voltage and the wavelength. */
  function RefreshRow(t: Table, led: Led, row: BarrierRow): (r: BarrierRow)
    ensures r.angstrom == row.angstrom
    ensures BarrierVoltage(t, led).None? ==> r == row
    ensures BarrierVoltage(t, led).Some? ==>
              r == row.(metres := Some(TableWavelength(led)), barrier := BarrierVoltage(t, led),
                        inverse := Some(1.0 / TableWavelength(led)))
  {
    match BarrierVoltage(t, led)
    case None => row
    case Some(b) =>
      row.(metres := Some(TableWavelength(led)), barrier := Some(b),
           inverse := Some(1.0 / TableWavelength(led)))
  }

  /** Rewrites each LED's barrier row from the observation table (rows in
      the order red, yellow, green, blue). */
  function UpdateBarrierTable(t: Table, bt: seq<BarrierRow>): (r: seq<BarrierRow>)
    requires |bt| == 4
    ensures |r| == 4
    ensures r[0].angstrom == bt[0].angstrom && r[1].angstrom == bt[1].angstrom
    ensures r[2].angstrom == bt[2].angstrom && r[3].angstrom == bt[3].angstrom
  {
    [RefreshRow(t, Red, bt[0]), RefreshRow(t, Yellow, bt[1]),
     RefreshRow(t, Green, bt[2]), RefreshRow(t, Blue, bt[3])]
  }

  /** Each LED's row ends up holding its least positive voltage, and an LED
      with no positive reading keeps its row as it was. */
  lemma UpdateBarrierTableRows(t: Table, bt: seq<BarrierRow>, led: Led)
    requires |bt| == 4
    ensures BarrierVoltage(t, led).None? ==>
              UpdateBarrierTable(t, bt)[RowOf(led)] == bt[RowOf(led)]
    ensures BarrierVoltage(t, led).Some? ==>
              UpdateBarrierTable(t, bt)[RowOf(led)].barrier == BarrierVoltage(t, led)
              && UpdateBarrierTable(t, bt)[RowOf(led)].metres == Some(TableWavelength(led))
              && UpdateBarrierTable(t, bt)[RowOf(led)].inverse == Some(1.0 / TableWavelength(led))
  {
    var r := UpdateBarrierTable(t, bt);
    match led
    case Red => assert r[0] == RefreshRow(t, Red, bt[0]);
    case Yellow => assert r[1] == RefreshRow(t, Yellow, bt[1]);
    case Green => assert r[2] == RefreshRow(t, Green, bt[2]);
    case Blue => assert r[3] == RefreshRow(t, Blue, bt[3]);
  }

  /** With no observations at all the barrier table is left as it was. */
  lemma EmptyObservationsKeepBarrierTable(bt: seq<BarrierRow>)
    requires |bt| == 4
    ensures UpdateBarrierTable([], bt) == bt
  {
  }

  // ---------------------------------------------------------------------
  // Planck's constant

  const ElementaryCharge: real := 1.602e-19
  const SpeedOfLight: real := 3.0e8

  /** A barrier row that takes part: positive barrier voltage and a numeric wavelength. */
  predicate IsValid(row: BarrierRow) {
    row.barrier.Some? && row.angstrom.Some? && row.barrier.value > 0.0
  }

  /** h = e * V * lambda / c, with lambda read in Angstrom. */
  function PlanckTerm(row: BarrierRow): real
    requires IsValid(row)
  {
    (ElementaryCharge * row.barrier.value * (row.angstrom.value * 1.0e-10)) / SpeedOfLight
  }

  /** The estimate of each valid row, top to bottom. */
  function ValidTerms(bt: seq<BarrierRow>): (hs: seq<real>)
    ensures |hs| <= |bt|
    ensures forall k :: 0 <= k < |hs| ==>
              exists i :: 0 <= i < |bt| && IsValid(bt[i]) && PlanckTerm(bt[i]) == hs[k]
    ensures forall i :: 0 <= i < |bt| && IsValid(bt[i]) ==> PlanckTerm(bt[i]) in hs
  {
    if |bt| == 0 then []
    else
      var rest := ValidTerms(bt[1..]);
      assert forall i :: 1 <= i < |bt| ==> bt[1..][i - 1] == bt[i];
      if IsValid(bt[0]) then [PlanckTerm(bt[0])] + rest else rest
  }

  datatype PlanckError = TooFewPoints

  /** The mean of the valid rows' estimates, refused below two valid rows. */
  function Planck(bt: seq<BarrierRow>): (r: Result<real, PlanckError>)
    ensures r.Err? <==> |ValidTerms(bt)| < 2
    ensures r.Ok? ==> r.value == Mean(ValidTerms(bt))
  {
    var hs := ValidTerms(bt);
    if |hs| < 2 then Err(TooFewPoints) else Ok(Mean(hs))
  }

  /** Some row is valid. */
  ghost predicate SomeValid(bt: seq<BarrierRow>) {
    exists i :: 0 <= i < |bt| && IsValid(bt[i])
  }

  /** Two distinct rows are valid. */
  ghost predicate TwoValid(bt: seq<BarrierRow>) {
    exists i, j :: 0 <= i < j < |bt| && IsValid(bt[i]) && IsValid(bt[j])
  }

  lemma ValidTermsNonEmpty(bt: seq<BarrierRow>)
    ensures |ValidTerms(bt)| > 0 <==> SomeValid(bt)
  {
    if |ValidTerms(bt)| > 0 {
      var hs := ValidTerms(bt);
      var i :| 0 <= i < |bt| && IsValid(bt[i]) && PlanckTerm(bt[i]) == hs[0];
    }
    if SomeValid(bt) {
      var i :| 0 <= i < |bt| && IsValid(bt[i]);
      assert PlanckTerm(bt[i]) in ValidTerms(bt);
    }
  }

  lemma {:induction false} ValidTermsHasTwo(bt: seq<BarrierRow>)
    ensures |ValidTerms(bt)| >= 2 <==> TwoValid(bt)
  {
    if |bt| > 0 {
      var tail := bt[1..];
      ValidTermsHasTwo(tail);
      ValidTermsNonEmpty(tail);
      assert |ValidTerms(bt)| == (if IsValid(bt[0]) then 1 else 0) + |ValidTerms(tail)|;
      if TwoValid(tail) {
        var i, j :| 0 <= i < j < |tail| && IsValid(tail[i]) && IsValid(tail[j]);
        assert tail[i] == bt[i + 1] && tail[j] == bt[j + 1];
      }
      if IsValid(bt[0]) && SomeValid(tail) {
        var j :| 0 <= j < |tail| && IsValid(tail[j]);
        assert tail[j] == bt[j + 1];
      }
      if TwoValid(bt) {
        var i, j :| 0 <= i < j < |bt| && IsValid(bt[i]) && IsValid(bt[j]);
        assert tail[j - 1] == bt[j];
        if i > 0 {
          assert tail[i - 1] == bt[i];
        }
      }
    }
  }

  /** With exactly two valid rows, Planck's constant is the midpoint of
      their two estimates. */
  lemma PlanckOfTwoRows(bt: seq<BarrierRow>)
    requires |ValidTerms(bt)| == 2
    ensures Planck(bt) == Ok((ValidTerms(bt)[0] + ValidTerms(bt)[1]) / 2.0)
  {
    var hs := ValidTerms(bt);
    assert hs == [hs[0], hs[1]];
    MeanOfPair(hs[0], hs[1]);
  }

  /** Planck's constant is computed exactly when two distinct rows are valid. */
  lemma PlanckNeedsTwoRows(bt: seq<BarrierRow>)
    ensures Planck(bt).Ok? <==> TwoValid(bt)
  {
    ValidTermsHasTwo(bt);
  }

  /** When computed, Planck's constant lies between any bounds of the valid
      rows' estimates. */
  lemma PlanckWithinEstimates(bt: seq<BarrierRow>, lo: real, hi: real)
    requires forall i :: 0 <= i < |bt| && IsValid(bt[i]) ==> lo <= PlanckTerm(bt[i]) <= hi
    ensures Planck(bt).Ok? ==> lo <= Planck(bt).value <= hi
  {
    var hs := ValidTerms(bt);
    if |hs| >= 2 {
      assert forall k :: 0 <= k < |hs| ==> lo <= hs[k] <= hi;
      MeanBounds(hs, lo, hi);
    }
  }
}
