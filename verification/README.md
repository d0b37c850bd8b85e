# LabVerse virtual labs — a Dafny model

LabVerse is a set of browser-based physics and chemistry labs with a small
account server. This project models their core as explicit, immutable state
and pure transition functions, and proves properties of that model. The
labs covered are:

- **LED I–V lab** (`script.js`): two current laws, the observation table
  with its twelve-readings-per-LED cap, the barrier-voltage table, the
  Planck-constant estimate and the electron markers.
- **Diode I–V lab** (`script2.js`): a signed and capped current law, the
  bias, voltage, start/stop and reset handlers, observations, the
  barrier-voltage and reverse-current results, and the electron speed clamp.
- **Flash-point apparatus** (`script3.js`): the heating and cooling ramps,
  the fill and glow levels, the observation records, the mean and deviation
  statistics, the interpretation bands and the flash-point report.
- **Chemistry page** (`script4.js`): titration readings and the chloride
  result; the solution and mercury gauges; the moisture-in-coal step
  machine, the oven ramp and the weighing rows.
- **User store** (`server.js`): the list operations behind registration,
  login, the Google sign-in store step, password-reset tokens and the
  unreadable-file fallback.

These pieces of the environment are parameters:
- Math functions: `exp` and `pow`.
- The circuit curve: `pathAt`.
- Random draws: the coal weight and the reset token.
- Clock readings: `now` and `nowMs`.
- User answers: the flash confirmation.
- Form inputs: the oven target and the login fields.

Numbers are exact reals, so display rounding (`toFixed`, `Math.round`) is
not modelled. Quirks of the program are modelled as they are, and lemmas
state them, for example:
- two different LED current laws;
- a diode threshold that the current cap makes unreachable;
- the flash-observed temperature is never set, so the flash-point report
  always reads "insufficient data";
- the titration indicator is never set, so burette readings are always
  refused;
- resets that keep some state: the barrier table, the cooling flag, the
  experiment step and the oven interval.

Files:
- `results.dfy`: Option and Result types.
- `realseq.dfy`: sums, means, min/max and clamping over reals.
- `led_physics.dfy`, `led_table.dfy`, `led_lab.dfy`, `electron_field.dfy`: the LED lab.
- `diode_lab.dfy`: the diode lab.
- `flash_point_lab.dfy`: the flash-point apparatus.
- `burette_table.dfy`, `moisture_lab.dfy`: the chemistry page.
- `user_store.dfy`: the account server.

## Model

| member | source | states |
|---|---|---|
| RealSeq.MeanOfPair | script3.js:1109-1110 | the mean of two readings is their midpoint |
| LedPhysics.SteadyCurrent | script.js:1358-1368 | current is 0 up to the LED's threshold, never above 50 mA, and non-negative above it |
| LedPhysics.SteadyCurrentSaturates | script.js:1360-1365 | above threshold the 50 mA cap is hit exactly when exp(3·excess) ≥ 50 |
| LedPhysics.SteadyCurrentMonotone | script.js:1360-1368 | with a non-decreasing, non-negative exp the current never falls as the voltage rises |
| LedPhysics.PanelCurrent | script.js:1005-1015 | the panel law of the display update: 0 below threshold, at most 10 and non-negative from the threshold on; the page never reaches it, since the update runs only after the stop button clears the running flag (script.js:1156-1167) |
| LedPhysics.CurrentLawsDisagreeAtThreshold | script.js:1008-1015 | at exactly the threshold the unreachable panel law gives 0.1 while the slider law gives 0 |
| LedPhysics.EmissionStep | script.js:975-987 | while lit, the emission moves 10% toward its target without overshoot; otherwise it decays toward 0 and stays non-negative |
| LedTable.AddReading | script.js:1201-1263 | refused iff the LED already has 12 readings; otherwise the reading goes into row Count (a new row when needed), the other LEDs' cells and all other rows unchanged |
| LedTable.AddReadingKeepsShape | script.js:1218-1262 | a successful add keeps every column gap-free and within 12 rows, raises this LED's count by one and no other |
| LedTable.AddReadingKeepsBound | script.js:1259-1262 | a reading within a current bound keeps every reading within it |
| LedTable.AddReadingKeepsTableInv | script.js:1228-1262 | below twelve readings the add is accepted, keeps the table gap-free and within a current bound, and counts one more reading |
| LedTable.AddReadingAtCapacity | script.js:1228-1233 | at twelve readings the add is refused and the table unchanged |
| LedTable.PositiveVolts | script.js:1281-1297 | collects exactly the LED's recorded voltages that are strictly positive |
| LedTable.BarrierVoltage | script.js:1281-1303 | the least strictly positive recorded voltage of the LED, None iff there is none |
| LedTable.TableWavelength | script.js:1274-1279 | every wavelength used for the barrier table is positive |
| LedTable.RefreshRow | script.js:1299-1314 | a row is untouched without a positive reading, else gets barrier, metres and inverse wavelength |
| LedTable.UpdateBarrierTable | script.js:1269-1315 | the table keeps four rows and its Angstrom cells |
| LedTable.UpdateBarrierTableRows | script.js:1299-1314 | each LED's row holds its least positive voltage, or is left as it was |
| LedTable.EmptyObservationsKeepBarrierTable | script.js:1282-1314 | with no observations the barrier table is left unchanged |
| LedTable.ValidTerms | script.js:1325-1338 | the h estimates are exactly those of the rows with a positive barrier and a wavelength |
| LedTable.Planck | script.js:1340-1349 | refused iff fewer than two rows are valid; otherwise the mean of the valid rows' estimates |
| LedTable.ValidTermsNonEmpty | script.js:1325-1338 | some estimate exists iff some row is valid |
| LedTable.ValidTermsHasTwo | script.js:1333-1340 | at least two estimates iff two distinct rows are valid |
| LedTable.PlanckOfTwoRows | script.js:1340-1349 | with exactly two valid rows the constant is the midpoint of their two estimates |
| LedTable.PlanckNeedsTwoRows | script.js:1318-1349 | the constant is computed iff two distinct rows are valid |
| LedTable.PlanckWithinEstimates | script.js:1325-1349 | when computed, the constant lies between any bounds of the valid rows' estimates |
| LedLab.SelectLed | script.js:1103-1127 | ignored while stopped; else switches LED and sets the slider-law current, table untouched |
| LedLab.SetVoltage | script.js:1136-1140 | ignored while stopped; else sets the voltage and the slider-law current |
| LedLab.StartStop | script.js:1155-1170 | toggles running; stopping zeroes the current, starting does not recompute it |
| LedLab.Reset | script.js:1173-1185 | stopped, 0 V, 0 A, empty observation table, LED kept |
| LedLab.ResetKeepsBarrierTable | script.js:1182-1183 | the barrier table survives a reset unchanged |
| LedLab.AddObservation | script.js:1188-1266 | refused while stopped or at the cap; else adds (V, mA) and refreshes the barrier table, nothing else changing |
| LedLab.AddObservationKeepsInv | script.js:1201-1266 | an accepted observation keeps the table well formed and within 50 mA, count +1 |
| LedLab.HandlersKeepInv | script.js:1103-1185 | every control handler keeps the lab invariant |
| LedLab.RestartKeepsZeroCurrent | script.js:1155-1170 | stop-then-start resumes at the old voltage with current 0 |
| LedLab.ResetThenAddRefused | script.js:1173-1194 | right after a reset an observation is refused as not running |
| ElectronField.JsMod1 | script.js:261 | `x % 1` keeps the sign of x, lies in (−1, 1) and differs from x by a whole number |
| ElectronField.Spawn | script.js:230-238 | marker i starts at progress i/120 on the curve, its 15-point trail at that point |
| ElectronField.InitElectrons | script.js:219-242 | 120 markers, each spawned at its index |
| ElectronField.PushTrail | script.js:275-277 | the trail keeps its length, drops the oldest point and ends with the new one |
| ElectronField.Advance | script.js:256-277 | a shown marker is visible and its trail ends at its new position |
| ElectronField.AdvanceStep | script.js:254-266 | progress moves by v²/10000 modulo 1 and the marker sits 0.15 above the curve |
| ElectronField.UpdateElectrons | script.js:244-291 | stopped or at 0 V every marker is hidden and otherwise unchanged; otherwise each advances |
| ElectronField.UpdateKeepsWellFormed | script.js:244-291 | every marker keeps progress in [0, 1) and a 15-point trail |
| DiodeLab.DiodeCurrent | script2.js:835-850 | 0 forward / −1 mA reverse within ±0.7 V; capped at ±50 mA; sign follows the bias |
| DiodeLab.CurrentSymmetry | script2.js:839-849 | above 0.7 V reverse current is forward current negated; the law is even in v |
| DiodeLab.CurrentAboveThreshold | script2.js:839-846 | past the threshold forward current is ≥ 1 mA and reverse ≤ −1 mA |
| DiodeLab.UpdateMeasurements | script2.js:835-850 | a no-op while stopped, else the current follows the law |
| DiodeLab.SetBias | script2.js:965-991 | ignored while stopped; else switches bias, 0 V, and the law's current at 0 V |
| DiodeLab.SetVoltage | script2.js:994-1002 | ignored while stopped; else sets the voltage and the law's current |
| DiodeLab.StartStop | script2.js:1005-1019 | toggles running, refreshing the current on start |
| DiodeLab.Reset | script2.js:1126-1144 | stopped, 0 V, both lists empty; bias and current kept |
| DiodeLab.AddObservation | script2.js:1045-1066 | refused iff stopped; appends (V, mA) to the list of the current bias only |
| DiodeLab.FirstAbove | script2.js:1104-1109 | the first reading above the mark, every earlier one at or below it |
| DiodeLab.AbsCurrents | script2.js:1117 | the reverse readings' current magnitudes, one per reading |
| DiodeLab.CalculateNeedsEnoughObservations | script2.js:1084-1101 | the results are refused exactly when the "enough observations" check fails |
| DiodeLab.ConductingReadingFixesBarrier | script2.js:1103-1118 | forward readings (1 V, 0 mA), (2 V, 200 mA) give barrier 2 V; reverse magnitudes 1 and 3 mA give 2 mA |
| DiodeLab.CalculateResults | script2.js:1092-1123 | refused iff a list is empty; the barrier is the voltage of the first forward reading above 100 mA when that voltage is non-zero, otherwise the first forward reading's voltage; the reverse current is the mean of the reverse magnitudes |
| DiodeLab.ReverseCurrentWithinReadings | script2.js:1116-1118 | the reverse current lies within the readings' magnitudes |
| DiodeLab.HandlersKeepInv | script2.js:965-1066 | every handler keeps "running ⇒ current follows the law" and forward readings ≤ 50 mA |
| DiodeLab.BarrierIsFirstForwardVoltage | script2.js:1102-1114 | in every reachable state the barrier result is the first forward reading's voltage |
| DiodeLab.RawSpeed | script2.js:717-733 | for non-negative powers the speed is at least 0.03 × (voltage factor + current factor): the boost above 3 V never slows it |
| DiodeLab.ElectronSpeed | script2.js:717-740 | the speed lies in [0.02 or 0.015, 0.25] and equals the raw speed inside that range |
| FlashPointLab.StartExperiment | script3.js:1285-1288 | marks the experiment started, nothing else changing |
| FlashPointLab.FillWaterBath | script3.js:845-856 | water shown and filled, its level restarted from 0 |
| FlashPointLab.AddOil | script3.js:858-872 | oil shown and added, its level restarted from 0 |
| FlashPointLab.StartHeating | script3.js:874-920 | a no-op while heating; else heating with a fresh interval and glow 0 |
| FlashPointLab.HeatingTick | script3.js:900-912 | +0.5 below 80; at 80 or more the interval stops and heating ends |
| FlashPointLab.StirOil | script3.js:922-924 | flips the stirring flag, nothing else changing |
| FlashPointLab.StirTwiceRestores | script3.js:922-924 | two stir clicks restore the state |
| FlashPointLab.ApplyFlame | script3.js:932-941 | once per application: flame applied and the heating interval dropped |
| FlashPointLab.ResumeHeating | script3.js:991-1026 | the interval restarts only when heating, no interval, and below 80 |
| FlashPointLab.RemoveMatch | script3.js:1031-1040 | the flame is no longer applied, nothing else changes |
| FlashPointLab.CoolRetest | script3.js:1176-1192 | cooling on with an interval, glow 0, heating interval no longer ticking |
| FlashPointLab.CoolingTick | script3.js:1180-1188 | −0.2 above 20; at 20 or less the interval stops |
| FlashPointLab.FillStep | script3.js:598-623 | a fill level stays in [0, 1] and only rises while shown and not full |
| FlashPointLab.GlowStep | script3.js:643-681 | the glow stays in [0, 1], rising while heating and fading otherwise |
| FlashPointLab.AnimateLevels | script3.js:597-681 | one animation frame changes only the water and oil levels and the glow |
| FlashPointLab.AddObservationRow | script3.js:1194-1206 | appends the row; while cooling the first 'No' latches the ceased temperature, which is never overwritten |
| FlashPointLab.FlashTempsAppend | script3.js:1104 | a record adds its temperature to the flash list iff its flash field is boolean true |
| FlashPointLab.RecordTemp | script3.js:1085-1100 | appends the (temperature, "Yes", answer) table row, then a flash record on a yes; the flame is no longer applied; temperature, heating and cooling unchanged |
| FlashPointLab.RecordTempFlashes | script3.js:1085-1100 | a "yes" adds exactly one flash temperature and a "no" none; table rows never count |
| FlashPointLab.UpdateResult | script3.js:1102-1123 | no flashes; one flash ("record another") with its list; or at least two, shown with the same mean the statistics compute |
| FlashPointLab.CalculateResult | script3.js:1125-1150 | refused below two flashes; otherwise the count, the mean of the flash temperatures and the mean of their squared deviations from it |
| FlashPointLab.TwoFlashesMidpoint | script3.js:1107-1150 | with exactly two flashes the panel and the statistics show their midpoint, and the mean squared deviation is half their spread, squared |
| FlashPointLab.CalculateResultMeaning | script3.js:1140-1150 | the mean lies within the flash temperatures; equal temperatures give that mean and 0 deviation |
| FlashPointLab.Interpret | script3.js:1166-1174 | low iff < 60, moderate iff in [60, 100), high iff ≥ 100 |
| FlashPointLab.ShowResult | script3.js:1231-1264 | insufficient iff either temperature is unset or 0; else the midpoint, between the two, with its band |
| FlashPointLab.Reset | script3.js:763-843 | everything back to the start except the cooling flag |
| FlashPointLab.ButtonsKeepInv | script3.js:763-930 | the setup buttons and reset keep the invariant |
| FlashPointLab.FlameStepsKeepInv | script3.js:932-1040 | the flame and cooling steps keep the invariant |
| FlashPointLab.AnimateKeepsInv | script3.js:597-700 | a frame keeps levels and glow in [0, 1] |
| FlashPointLab.HeatingTickKeepsInv | script3.js:900-912 | the heating ramp never passes 80.5 |
| FlashPointLab.CoolingTickKeepsInv | script3.js:1180-1188 | the cooling ramp never goes below 19.8 |
| FlashPointLab.RecordingKeepsInv | script3.js:1085-1100 | recording keeps the flash-observed temperature unset |
| FlashPointLab.ShowResultAlwaysInsufficient | script3.js:1231-1232 | since nothing sets the flash-observed temperature, the report is always insufficient |
| FlashPointLab.ResetKeepsCoolingLatch | script3.js:1201 | after a reset that kept the cooling flag, the first 'No' sets the ceased temperature |
| BuretteTable.FirstOpen | script4.js:516-531 | the first row with an empty initial or final cell, all earlier rows complete |
| BuretteTable.RecordReading | script4.js:516-531 | fills the first open row's initial cell, or else its final cell and difference = volume − initial; other rows untouched |
| BuretteTable.RecordReadingFillsOneStep | script4.js:516-531 | each reading fills exactly one cell while a row is open, none otherwise |
| BuretteTable.CalculateResults | script4.js:534-557 | refused iff no row after the pilot has a numeric difference; else their mean and its ppm |
| BuretteTable.CalculateResultsIgnoresPilot | script4.js:539-553 | the pilot row never affects the result; the average lies within the differences |
| BuretteTable.CalculateResultsAppend | script4.js:540-546 | a new row contributes its difference iff the difference cell is numeric |
| BuretteTable.ChloridePpm | script4.js:553-557 | a non-negative reading gives a non-negative content; a 10 mL reading gives 887.5 ppm |
| BuretteTable.ChloridePpmRoundTrip | script4.js:553-557 | ppm = 88.75 × average, with an exact inverse |
| BuretteTable.SolutionLevel | script4.js:322-342 | scale in [0.01, 1] and height in [−2, 0] for 0–50 mL; endpoint colour iff indicator and > 40 mL, else kept |
| BuretteTable.SolutionLevelRoundTrip | script4.js:325-332 | the volume is recovered from the scale; the height follows the scale |
| BuretteTable.MercuryColumn | script4.js:681-699 | 0–200 °C maps into 0–3.5, the column standing on the bulb at −2 |
| BuretteTable.MercuryColumnLinear | script4.js:687-692 | strictly increasing with an exact inverse |
| MoistureLab.RecordObservation | script4.js:510-531 | refused unless running with the indicator; else one burette reading |
| MoistureLab.RecordObservationAlwaysRefused | script4.js:511-514 | as nothing sets the indicator, every reachable page refuses |
| MoistureLab.ShowResults | script4.js:534-562 | "take readings first" iff no numeric difference after the pilot, else the average's report |
| MoistureLab.AddCoalSample | script4.js:753-771 | a sample is placed weighing in [1, 1.1) g |
| MoistureLab.StartHeating | script4.js:773-787 | refused without a sample; else ramp restarted at 25 °C towards the target |
| MoistureLab.HeatingTick | script4.js:789-813 | at full progress heating stops and weight × 0.95; else progress +0.1% and temperature proportional |
| MoistureLab.Pause | script4.js:884-890 | stops running and heating; the oven interval is untouched |
| MoistureLab.RecordMeasurement | script4.js:905-918 | appends one row (0.2w, w, 0.95w), nothing else changing |
| MoistureLab.Reset | script4.js:457-508 | cells blanked with rows kept; step and oven interval kept; stopped, no sample, weight 0 |
| MoistureLab.AddSampleClick | script4.js:928-935 | adds a sample only at steps 0 and 1 |
| MoistureLab.StartHeatingClick | script4.js:938-946 | heats only at step 1 with a sample, moving to step 2 |
| MoistureLab.TakeReadingClick | script4.js:949-956 | records a measurement only at step 3 |
| MoistureLab.StartExperiment | script4.js:837-882 | a click while running only pauses; the step stays or rises by one, and rises only when stopped and below 4 |
| MoistureLab.StartExperimentSteps | script4.js:837-890 | a click while running only pauses; otherwise the step rises by at most one, and only under its guard |
| MoistureLab.StepFourRepeats | script4.js:877-880 | reset keeps step 4, so every later click computes and at once clears the result |
| MoistureLab.TicksFromReset | script4.js:789-802 | from weight 0, repeated firings of the oven interval keep the weight 0 and stop the interval once progress completes |
| MoistureLab.ResetKeepsOvenRunning | script4.js:789-799 | the oven interval outlives a reset and restarts its ramp at tick 1; FullTicks + 1 firings later it has stopped, drying a weight of 0 |
| MoistureLab.StartExperimentKeepsInv | script4.js:837-882 | the step machine keeps the invariant |
| MoistureLab.ButtonsKeepInv | script4.js:928-946 | the sample and heating buttons keep the invariant |
| MoistureLab.RecordingKeepsInv | script4.js:510-562 | recording a burette reading, showing results and taking a measurement keep the invariant |
| MoistureLab.ResetKeepsInv | script4.js:457-508 | reset keeps the invariant, the surviving ramp restarting at 25 °C |
| MoistureLab.HeatingTickKeepsInv | script4.js:789-802 | a tick keeps progress ≤ 100% and the proportional law |
| MoistureLab.RampStaysBetween | script4.js:801-802 | the oven temperature stays between 25 °C and the target |
| UserStore.ReadUsers | server.js:23-30 | an unreadable store is an empty list |
| UserStore.FindByEmail | server.js:129 | the first user with the email, None iff no user has it |
| UserStore.FindByCredentials | server.js:84 | the first user matching both email and password, None iff none does |
| UserStore.Register | server.js:38-68 | missing-fields error iff a field is absent or empty; duplicate error iff the email is stored; else exactly one user appended |
| UserStore.RegisterKeepsUnique | server.js:53-67 | registration preserves email uniqueness |
| UserStore.Login | server.js:79-97 | succeeds iff some user matches email and password, revealing only that user's username and email |
| UserStore.RegisterThenLogin | server.js:59-97 | after registering, the same email and password log in as the new account |
| UserStore.GoogleAccountOpensWithoutPassword | server.js:84 | an account without a password accepts a login without one |
| UserStore.StoreGoogleUser | server.js:128-139 | a Google user is appended iff the email is new; otherwise the list is unchanged |
| UserStore.StoreGoogleUserKeepsUnique | server.js:128-139 | the Google step preserves uniqueness and leaves the email stored |
| UserStore.ForgotPassword | server.js:223-240 | not found iff no user has the email; else the first user with it (the `find` match) gets the token and now + 3600000 ms, every other user unchanged |
| UserStore.ForgotPasswordKeepsAccounts | server.js:228-240 | issuing a token keeps emails unique and every login outcome unchanged |

## Left out

- Rendering is not modelled: Three.js scenes, materials, labels, canvases, tooltips and status texts.
- Timers are not modelled as concurrency. Each interval is one tick function; timeouts and animation frames are single transitions.
- The flash-point cooling interval is a boolean. Repeated "cool and retest" clicks start extra intervals that the page never clears; they are not modelled.
- `Math.exp`, `Math.pow`, `Math.random` and the circuit curve are parameters, not definitions.
- The flash probability of the test flame and the flash and ripple effects are left out: they are random or visual only.
- Display rounding (`toFixed`, `toExponential`, `Math.round`) and floating-point error are left out. Numbers are exact reals.
- FlashPointLab.CalculateResult: yields the mean squared deviation, not its square root (`Math.sqrt`).
- MoistureLab.HeatingTick: progress is an exact tenth per tick. The page's repeated 0.1 float addition can take one extra tick to reach 100.
- MoistureLab.StartHeating: the `ovenTemp` reading is a real parameter. A non-numeric `parseInt` result (NaN) is not modelled.
- LedLab.Reset and LedLab.AddObservation: require the four-row barrier table that the page serves. The table's row count is page structure, not program state.
- The page's initial HTML rows are parameters: the barrier table's Angstrom cells and the titration table's row count.
- `scriptlog.js` and the HTML pages are not part of this model.
- The server keeps only the list operations. Left out: Express routing, CORS, `fs` writes, logging, the axios OAuth token exchange, redirects, response bodies and the other endpoints.
- ElectronField: the per-frame glow and trail opacity are left out (rendering only).
- FlashPointLab.ApplyFlame: the missing-matchstick early return is left out, so the resume always follows.
- LedPhysics.PanelCurrent: the panel law sits in a branch the page never runs. The display update is called only from the stop button, after the running flag is cleared (script.js:1156-1167). No lab transition uses the law; it is kept to state the disagreement.
- FlashPointLab.CoolRetest and FlashPointLab.ShowResult: the script wires only eight buttons (script3.js:1310-1319), and "cool and retest" and "show result" are not among them. Their wiring would live in the page's HTML, which is not part of this model; the model treats both as reachable handlers, and FlashPointLab.ResetKeepsCoolingLatch depends on that.
