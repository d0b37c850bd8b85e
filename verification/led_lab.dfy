/** The LED I–V lab's controls as transitions on one explicit state value:
    LED selection, the voltage slider, start/stop, reset and "add observation".
    Each handler returns the next state; a refused click returns a reason
    and the caller keeps the old state. */
module LedLab {
  import opened Results
  import opened LedPhysics
  import opened LedTable

  datatype LabState = LabState(
    led: Led,
    voltage: real,
    running: bool,
    current: real,            // amperes
    table: Table,             // observation table
    barrier: seq<BarrierRow>  // barrier-voltage table, one row per LED
  )

  /** The page as loaded: red LED, 0 V, stopped, empty observation table. */
  function Init(barrier: seq<BarrierRow>): LabState {
    LabState(Red, 0.0, false, 0.0, [], barrier)
  }

  /** What holds of every state the handlers can reach. */
  ghost predicate Inv(s: LabState) {
    && WellFormed(s.table)
    && ReadingsAtMost(s.table, 50.0)
    && |s.barrier| == 4
    && s.current <= CurrentCap
  }

  lemma InitSatisfiesInv(barrier: seq<BarrierRow>)
    requires |barrier| == 4
    ensures Inv(Init(barrier))
  {
  }

  /** The LED selector: ignored while stopped; otherwise switches LED and
      recomputes the current for the present voltage. */
  function SelectLed(s: LabState, led: Led, exp: real -> real): (r: LabState)
    ensures !s.running ==> r == s
    ensures s.running ==> r.led == led && r.current == SteadyCurrent(s.voltage, led, exp)
    ensures r.voltage == s.voltage && r.running == s.running
    ensures r.table == s.table && r.barrier == s.barrier
  {
    if !s.running then s
    else s.(led := led, current := SteadyCurrent(s.voltage, led, exp))
  }

  /** The voltage slider: ignored while stopped; otherwise sets the voltage
      and recomputes the current for the selected LED. */
  function SetVoltage(s: LabState, v: real, exp: real -> real): (r: LabState)
    ensures !s.running ==> r == s
    ensures s.running ==> r.voltage == v && r.current == SteadyCurrent(v, s.led, exp)
    ensures r.led == s.led && r.running == s.running
    ensures r.table == s.table && r.barrier == s.barrier
  {
    if !s.running then s
    else s.(voltage := v, current := SteadyCurrent(v, s.led, exp))
  }

  /** The start/stop button: toggles running; stopping zeroes the current.
      Starting does not recompute it. */
  function StartStop(s: LabState): (r: LabState)
    ensures r.running == !s.running
    ensures s.running ==> r.current == 0.0
    ensures !s.running ==> r.current == s.current
    ensures r.led == s.led && r.voltage == s.voltage
    ensures r.table == s.table && r.barrier == s.barrier
  {
    if s.running then s.(running := false, current := 0.0)
    else s.(running := true)
  }

  /** The reset button: stopped, 0 V, 0 A, empty observation table. The
      barrier table is refreshed from the now empty observations. */
  function Reset(s: LabState): (r: LabState)
    requires |s.barrier| == 4
    ensures !r.running && r.voltage == 0.0 && r.current == 0.0 && r.table == []
    ensures r.led == s.led
  {
    s.(running := false, voltage := 0.0, current := 0.0, table := [],
       barrier := UpdateBarrierTable([], s.barrier))
  }

  /** Reset leaves the barrier-voltage table exactly as it was. */
  lemma ResetKeepsBarrierTable(s: LabState)
    requires |s.barrier| == 4
    ensures Reset(s).barrier == s.barrier
  {
    EmptyObservationsKeepBarrierTable(s.barrier);
  }

  datatype AddError = NotRunning | LedFull

  /** The "add observation" click: refused while stopped (the click guard
      and the handler both check) and refused once the LED has twelve
      readings; otherwise records (voltage, current in mA) for the selected
      LED and refreshes the barrier table. */
  function AddObservation(s: LabState): (r: Result<LabState, AddError>)
    requires |s.barrier| == 4
    ensures !s.running ==> r == Err(NotRunning)
    ensures s.running ==> (r == Err(LedFull) <==> Count(s.table, s.led) >= MaxPerLed)
    ensures r.Ok? ==> r.value.table == AddReading(s.table, s.led, Reading(s.voltage, s.current * 1000.0)).value
    ensures r.Ok? ==> r.value.barrier == UpdateBarrierTable(r.value.table, s.barrier)
    ensures r.Ok? ==> r.value.led == s.led && r.value.voltage == s.voltage
                      && r.value.running == s.running && r.value.current == s.current
  {
    if !s.running then Err(NotRunning)
    else
      match AddReading(s.table, s.led, Reading(s.voltage, s.current * 1000.0))
      case Err(_) => Err(LedFull)
      case Ok(t) => Ok(s.(table := t, barrier := UpdateBarrierTable(t, s.barrier)))
  }

  lemma AddObservationKeepsInv(s: LabState)
    requires Inv(s)
    ensures AddObservation(s).Ok? ==> Inv(AddObservation(s).value)
    ensures AddObservation(s).Ok? ==>
              Count(AddObservation(s).value.table, s.led) == Count(s.table, s.led) + 1
  {
    var r := AddObservation(s);
    if r.Ok? {
      var reading := Reading(s.voltage, s.current * 1000.0);
      AddReadingKeepsTableInv(s.table, s.led, reading, 50.0);
      var t := AddReading(s.table, s.led, reading).value;
      assert r.value.table == t;
      assert |r.value.barrier| == 4;
    }
  }

  /** Every handler keeps the invariant. */
  lemma HandlersKeepInv(s: LabState, led: Led, v: real, exp: real -> real)
    requires Inv(s)
    ensures Inv(SelectLed(s, led, exp))
    ensures Inv(SetVoltage(s, v, exp))
    ensures Inv(StartStop(s))
    ensures Inv(Reset(s))
  {
  }

  /** Stopping then starting again resumes at the old voltage with the
      current still at zero, until the slider or the LED changes. */
  lemma RestartKeepsZeroCurrent(s: LabState)
    requires s.running
    ensures StartStop(StartStop(s)).running
    ensures StartStop(StartStop(s)).voltage == s.voltage
    ensures StartStop(StartStop(s)).current == 0.0
  {
  }

  /** After a reset an observation is refused as "not running". */
  lemma ResetThenAddRefused(s: LabState)
    requires |s.barrier| == 4
    ensures AddObservation(Reset(s)) == Err(NotRunning)
  {
  }
}
