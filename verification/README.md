# SALUS control and evaluation: a verified model

This project models the decision logic of the SALUS vehicle stack and proves what it is relied on
for. Each module follows one component and keeps its branches, constants and error cases.

- `ControlLogic`, `LegacyVehicleCommand`, `CanonicalConsumer`, `CommandChain`, `CommandRuns`: a
  `CmdVelFinal` message reaches the simulated vehicle by two routes, and both must mean the same to
  Gazebo, for one command and over whole runs.
- `ShadowComparison`: the node that pairs the legacy and the shadow stream and counts divergence.
- `BatteryCurve`, `BatteryGuard`: the state-of-charge curve and the latching mission guard.
- `DomainAllocator`, `DomainFairness`: concurrent trials that allocate ROS domains through file locks.
- `DeadlineHeap`, `SimTimeQueue`, `SimDriveSensorAdapter`: a bounded deadline queue, as an array
  heap, and the sensor adapter that owns two of them.
- `LeverDiagnostic`: a stream join of GPS positions with interpolated yaw.
- `ServicePoller`: rate-limited polling with one request in flight.
- `PolylineResampler`, `SignChanges`, `AckermannRecovery`: geometry and steering recovery.
- `PathCleaning`, `CiSelector`: the change-aware choice of smoke tests.
- `Numeric`, `Text`: half-to-even rounding, lemmas of real arithmetic, and `str.strip`.

Objects that update their fields are classes whose methods are proved equal to transition functions
on values; the theorems are about every run, that is every sequence of events, of those transitions.
Times, speeds, angles and voltages are reals. A float is `Finite` or `NonFinite` where the program
asks `isfinite`. Clock readings, drawn delays and the outcome of a service call are parameters. `atan`,
`tan`, `sin`, `cos` and `hypot` are parameters too, and so is the narrowing to float32 that the command
message does on the wire (`LegacyVehicleCommand.Wire`); a lemma that needs a law of theirs requires it.

Some expected properties do not hold as one would first put them; each is stated with the exact
condition under which it does.

- Two-run monotonicity of the battery guard (`BatteryGuard.GuardMonotoneIff`) needs positive
  persistences and separate thresholds, or no persistence at all; `NotMonotone` builds the failing runs.
- Round-robin fairness (`DomainFairness.RoundRobinFairIff`) holds over a set of pools exactly when its
  valid pools are one and the same or have one domain each, because all pools share one cursor file;
  for any two other pools `MixedPoolsUnfair` builds an unfair run. The default pool alone is fair.
- Acceptance of a translated command is a matter of clocks alone (`CommandChain.ClocksDecideIff`) exactly
  when narrowing to float32 lifts none of the furthest speeds and steers above the consumer's bounds.
  The default parameters fail (`DefaultFullLockRefused`): a manual command at full lock, 0.5235987756,
  comes off the wire as 0.5235987901687622 and is refused. A steering limit below 1e-6 rad fails unless
  1e-6 narrows to no more than it (`TinyLimitReach`); the controller replaces such a limit of its own
  (src/salus_control/salus_control/controller_server_node.py:169-176), the adapter does not.
- The two routes mean the same to Gazebo exactly when the wire, and steer inversion, change neither the
  speed nor the steering percentage (`CommandChain.RoutesAgree`), which is so for commands that float32
  represents (`RepresentableUnchanged`); `RoutesNear` bounds the difference for the others.
- Gazebo is told the commanded speed exactly unless the forward limit, which nothing checks, is negative
  (`CommandChain.SpeedObeyedIff`): the backend's setter clamps once more.
- For commands that the wire carries, the two controllers stay in lockstep over whole runs exactly when
  the adapter's `valid_for_s` is not shorter than the controller's `auto_timeout_s`
  (`CommandRuns.LockstepIff`); the two are independent parameters. Otherwise the legacy controller drives
  on after the canonical one has stopped. `AlikeIff` is the exact condition at any tick of any run.
- The comparison node and the adapter under the same parameters agree (`ShadowComparison.SameConfigVerdict`)
  exactly when the frame parameter has no white space around it, which only the adapter strips, the
  tolerances cover the nanosecond rounding of the duration and the narrowing of every quantity, and no
  sample was stamped zero, which is what a simulated clock reads before its first message.
- A battery that stays low ends up guarded (`BatteryGuard.GuardProtectsIff`), and feeding a sample again
  is harmless (`BatteryGuard.RefeedHarmlessIff`), for exactly the configurations named there.
- A position older than everything the bounded history kept is lost, bracketed or not
  (`LeverDiagnostic.BoundedMeasure`); every other one is measured as with the complete stream.
- The last resampled point may be two slacks away from the last point, not one
  (`PolylineResampler.FoldedBack`); `EndGuarantee` says when one slack suffices.
- Widening a deadband, and mirroring, behave for nonnegative deadbands; `NeverMoreIff` and
  `MirrorInvariantIff` give the exact conditions over all reals.
- The smokes of a union of changes are the union of their smokes (`CiSelector.SmokesJoinIff`) unless
  exactly one of the two lists has no usable path, which alone selects everything.
- A leading `./` matters when white space follows it (`PathCleaning.DotSlashIrrelevantIff`), because
  stripping comes first.

## Model

| member | source | states |
|---|---|---|
| ControlLogic.CommandInRange | src/salus_control/salus_control/control_logic.py:125-223 | every command, whatever was asked for, stays within the speed limits of its direction, the percent ranges and the limit it reports, which the steering limit bounds; any brake is a full stop |
| ControlLogic.SourceLimitBinds | src/salus_control/salus_control/control_logic.py:16-30 | the applied steer is within the steering limit, within the operational limit for any source but manual, and within the manual limit for that one |
| ControlLogic.CanSteerIff | src/salus_control/salus_control/control_logic.py:16-122 | some message of a source has a given steer applied exactly when the limits that bind that source, and the right angle, leave room for it |
| ControlLogic.LimitUsedIsTight | src/salus_control/salus_control/control_logic.py:16-30 | the limit a command reports is the tightest of those that bind its source |
| ControlLogic.InversionNegates | src/salus_control/salus_control/control_logic.py:188-197 | inverting negates the steering percentage and changes nothing else |
| ControlLogic.ReportMeans | src/salus_control/salus_control/control_logic.py:125-223 | the diagnostic fields report the request, whether a speed or a steering limit changed it, and the reference speed, a fallback of at least 0.1 exactly when the vehicle is to turn below the deadband |
| ControlLogic.CurvatureReported | src/salus_control/salus_control/control_logic.py:105-122 | the reported curvatures are those of the requested yaw rate at the reference speed and of the applied steer at the wheelbase |
| ControlLogic.SpeedMonotone | src/salus_control/salus_control/control_logic.py:147-168 | a faster request never gives a slower command, across deadband, reverse and both saturations; no command exceeds its request or flips its sign |
| ControlLogic.SpeedExactIff | src/salus_control/salus_control/control_logic.py:147-168 | a speed request is obeyed to the letter exactly when it is zero or between the deadband and the limit of its direction |
| ControlLogic.SteeringMirror | src/salus_control/salus_control/control_logic.py:72-122 | mirroring the yaw rate mirrors the requested, applied and percent steering exactly, half-to-even rounding included |
| ControlLogic.SteerPctNearest | src/salus_control/salus_control/control_logic.py:110-111 | the steering percentage is the nearest one: of any scale it stands for the same share as the applied steer is of the limit, to within half a percent of that scale |
| ControlLogic.CurvatureRealised | src/salus_control/salus_control/control_logic.py:105-110 | an unclamped steer realises the requested curvature, so reference speed times applied curvature is the requested yaw rate |
| LegacyVehicleCommand.DurationRoundTrip | src/salus_control/salus_control/legacy_vehicle_command_node.py:84-87 | the encoded validity is normalised, decodes to the nearest whole nanosecond and is off by at most half a nanosecond |
| LegacyVehicleCommand.WholeNanosSurvive | src/salus_control/salus_control/legacy_vehicle_command_node.py:84-87 | a validity of whole nanoseconds survives encoding and decoding unchanged |
| LegacyVehicleCommand.TranslationStopsInvalid | src/salus_control/salus_control/legacy_vehicle_command.py:81-124 | a message that is not finite, or of a source outside the contract, becomes a full stop of the safety source; any other keeps its source and stops exactly for a brake |
| Text.StripUnchangedIff | src/salus_control/salus_control/legacy_vehicle_command_node.py:48 | stripping leaves a string alone exactly when it neither starts nor ends with white space |
| CanonicalConsumer.CanonicalCommandConsumer.constructor | src/salus_control/salus_control/canonical_command_consumer.py:119-124 | a new consumer has accepted nothing and holds the safe command |
| CanonicalConsumer.CanonicalCommandConsumer.Ingest | src/salus_control/salus_control/canonical_command_consumer.py:126-161 | ingesting performs the ingest transition of the run semantics on all four fields |
| CanonicalConsumer.CanonicalCommandConsumer.Tick | src/salus_control/salus_control/canonical_command_consumer.py:163-169 | ticking performs the watchdog transition on all four fields |
| CanonicalConsumer.MachineRefinesHistory | src/salus_control/salus_control/canonical_command_consumer.py:126-209 | over every run with a nondecreasing monotonic clock the machine's fields equal a history function of the greatest accepted stamp, the last ingest and the latest tick |
| CanonicalConsumer.AcceptedStampsIncrease | src/salus_control/salus_control/canonical_command_consumer.py:189-190 | accepted stamps strictly increase, however many rejections and ticks lie between |
| CanonicalConsumer.EarlierTickIrrelevant | src/salus_control/salus_control/canonical_command_consumer.py:163-169 | inserting a tick before any later event changes nothing in any later state |
| CanonicalConsumer.AlwaysInRange | src/salus_control/salus_control/canonical_command_consumer.py:76-161 | in every reachable state the effective command is in range and owned by a contract source, an E-stop brakes fully, only an enabled and unbraked command moves, and it is valid exactly while the watchdog runs |
| CanonicalConsumer.MotionIsAuthorised | src/salus_control/salus_control/canonical_command_consumer.py:141-169 | a nonzero speed after a tick comes from the last sample ingested, which was accepted, enabled, unbraked, in range and received at most max_valid_for_s ago |
| CanonicalConsumer.UnexpiredIsKept | src/salus_control/salus_control/canonical_command_consumer.py:126-169 | over every run, while the last sample ingested was accepted and has not expired, the effective command is that sample: its brake, or 1.0 for an E-stop, its steer while driving, its speed while driving unbraked, and the matching reason |
| CanonicalConsumer.InvalidIsStopped | src/salus_control/salus_control/canonical_command_consumer.py:76-86 | in every reachable state a command that is not valid is a full stop of the safety source |
| CanonicalConsumer.BackendNearest | src/salus_control/salus_control/canonical_command_consumer.py:89-116 | the backend command has the effective one's brake to the nearest percent, its steer to half a percent of the limit, and its speed and flags |
| CanonicalConsumer.SampleReachesBackend | src/salus_control/salus_control/canonical_command_consumer.py:89-161 | in every reachable state of every run the backend command exists and is that near to the effective command |
| CanonicalConsumer.RefusedForTheFirst | src/salus_control/salus_control/canonical_command_consumer.py:171-209 | a sample is refused for the first objection in the order of the checks, and accepted exactly when there is none |
| CommandChain.ControllerServer.constructor | src/salus_control/salus_control/controller_server_node.py:298-314 | the controller starts from the safe command, with a fresh consumer exactly in the canonical mode |
| CommandChain.ControllerServer.OnCmdVelFinal | src/salus_control/salus_control/controller_server_node.py:426-446 | the legacy callback stores the translated command and its time and leaves the rest alone |
| CommandChain.ControllerServer.OnCanonicalVehicleCommand | src/salus_control/salus_control/controller_server_node.py:469-494 | the canonical callback ingests the decoded message and stores the backend form of the effective command |
| CommandChain.ControllerServer.ControlTick | src/salus_control/salus_control/controller_server_node.py:561-611 | the control tick performs timeout arbitration and E-stop escalation, or the consumer's tick, and applies the result to the backend, whose setters clamp it |
| CommandChain.LegacySourceMeans | src/salus_control/salus_control/controller_server_node.py:588-611 | after a legacy tick the source on show tells an expired command, which drives nothing, from an E-stop, which brakes at least as asked, and from a fresh command |
| CommandChain.CanonicalSourceMeans | src/salus_control/salus_control/controller_server_node.py:469-494 | a canonical sample is noted with its reason and time and reaches the backend only at the next tick, as the consumer then has it |
| CommandChain.SampleSent | src/salus_control/salus_control/legacy_vehicle_command_node.py:73-97 | the sample the consumer sees of a translated command has its quantities narrowed, its rates zero, its duration within half a nanosecond and the rest as sent |
| CommandChain.TranslatedCommandAccepted | src/salus_control/salus_control/canonical_command_consumer.py:171-209 | under any two configurations and for any legacy message, finite or not, the consumer accepts the translation exactly when the clocks and the wire duration are in order and the speed and angle, narrowed to float32, are within its own bounds |
| CommandChain.ClocksDecideIff | src/salus_control/salus_control/canonical_command_consumer.py:171-209 | under equal limits acceptance is a matter of clocks alone exactly when no speed limit in reach, and no source's furthest steer, is narrowed to above the consumer's bound, or the validity is lost on the wire |
| CommandChain.FullLockRefused | src/salus_control/salus_control/canonical_command_consumer.py:207-208 | whenever a source's furthest steer is narrowed to above the bound, a finite unbraked command of that source is refused |
| CommandChain.DefaultFullLockRefused | src/salus_control/salus_control/legacy_vehicle_command_node.py:34-43 | at the default parameters, with the float32 of that range, a manual command at full lock is refused |
| CommandChain.TinyLimitReach | src/salus_control/salus_control/control_logic.py:84-91 | a steering limit below 1e-6 rad is among the surviving ones exactly when 1e-6 itself is narrowed to no more than it |
| CommandChain.WireValidityPositive | src/salus_control/salus_control/legacy_vehicle_command_node.py:84-87 | the adapter's validity reaches the consumer as a positive one exactly when it exceeds half a nanosecond |
| CommandChain.IngestedImage | src/salus_control/salus_control/canonical_command_consumer.py:89-161 | a fresh translated command leaves the consumer, accepted or refused, with exactly the fields and the backend state of the canonical image of the legacy command |
| CommandChain.RoutesAgree | src/salus_control/salus_control/controller_server_node.py:561-611 | while both routes hold a command fresh, Gazebo's twist is the same exactly when it is a stop, or the wire and the inversion change neither its speed nor its steering percentage, or it asks for nothing; and all five backend fields are the same exactly when an E-stop brake comes out at least at 100, a driving command is unchanged, or a disabled one asks for nothing and is let through |
| CommandChain.RepresentableUnchanged | src/salus_interfaces/msg/VehicleCommand.msg:19-20 | without steer inversion, a command whose speed and applied steer float32 represents is accepted and unchanged |
| CommandChain.RoutesNear | src/salus_control/salus_control/sim_gazebo_backend.py:156-172 | for any other driving command that is let through, Gazebo's two speeds differ by exactly what narrowing costs and the two angles by at most one percent of the maximum |
| CommandChain.TwistFollowsCommand | src/salus_control/salus_control/sim_gazebo_backend.py:156-172 | Gazebo is told the commanded speed, clamped to the backend's limits, and the clamped steer as the same share of its maximum angle as of the steering limit, to within half a percent of that maximum |
| CommandChain.TwistInversion | src/salus_control/salus_control/sim_gazebo_backend.py:169-172 | inverting the actuation negates the angular field of the twist and keeps the linear one |
| CommandChain.SpeedObeyedIff | src/salus_control/salus_control/rpy_esp32_comms/controller.py:23-26 | the backend's setter changes no commanded speed exactly when the forward limit is not negative or there is no reverse |
| CommandChain.ExpiredRoutesStandStill | src/salus_control/salus_control/control_logic.py:226-236 | once a route has let its command expire, or the consumer has refused it, the twist is zero |
| CommandChain.InvalidSourceStopsCanonical | src/salus_control/salus_control/legacy_vehicle_command.py:92-93 | a source outside the contract stops the canonical route, while the legacy route treats it like an unknown one |
| CommandRuns.TwistsAfterTick | src/salus_control/salus_control/controller_server_node.py:561-611 | in every punctual run, after every tick, each controller gives Gazebo what its route makes of the last command for exactly as long as it holds it fresh, the legacy one for its timeout and the canonical one for the shorter of that and the wire validity, and a zero twist before and after |
| CommandRuns.AlikeIff | src/salus_control/salus_control/controller_server_node.py:561-611 | at every tick of every punctual run the two twists are equal exactly when there is no command or it has expired for both, or both hold it and it means the same on both routes, or only the legacy one holds it and it moves nothing |
| CommandRuns.ControllersInLockstep | src/salus_control/salus_control/controller_server_node.py:426-494 | in every punctual run of commands that the wire carries, if the wire validity is no shorter than the timeout, the two controllers give Gazebo the same twist after every tick |
| CommandRuns.LockstepIff | src/salus_control/salus_control/controller_server_node.py:426-494 | for every vehicle that can move, all punctual runs of commands that the wire carries keep the two twists equal exactly when the wire validity is no shorter than the timeout, or is lost on the wire |
| ShadowComparison.CompareVehicleCommands | src/salus_control/salus_control/vehicle_command_comparison.py:51-95 | the comparison returns exactly the reasons of the specification, in order |
| ShadowComparison.MatchesIffAgree | src/salus_control/salus_control/vehicle_command_comparison.py:51-95 | no reason is given exactly when the discrete fields agree, the frame and stamp are valid and every observed quantity is finite and within tolerance |
| ShadowComparison.ReasonsName | src/salus_control/salus_control/vehicle_command_comparison.py:51-95 | each reason is given exactly when what it names is wrong: that quantity not finite or out of its tolerance, that discrete field different, the frame unexpected, the stamp not positive |
| ShadowComparison.ImageMatches | src/salus_control/salus_control/vehicle_command_comparison.py:79-95 | a value and its own published image match exactly when the stamp is positive, the frame is the expected one and the tolerances cover the narrowing of brake, speed and angle and the rounding of the duration, which half a nanosecond always does |
| ShadowComparison.VehicleCommandComparisonNode.constructor | src/salus_control/salus_control/vehicle_command_comparison_node.py:96-110 | the node starts with empty queues and zero counters |
| ShadowComparison.VehicleCommandComparisonNode.OnLegacy | src/salus_control/salus_control/vehicle_command_comparison_node.py:130-143 | the legacy callback performs the legacy arrival transition, overflow included |
| ShadowComparison.VehicleCommandComparisonNode.OnShadow | src/salus_control/salus_control/vehicle_command_comparison_node.py:145-168 | the shadow callback performs the shadow arrival transition, overflow included |
| ShadowComparison.VehicleCommandComparisonNode.Pair | src/salus_control/salus_control/vehicle_command_comparison_node.py:170-180 | the pairing loop compares heads until a queue is empty |
| ShadowComparison.VehicleCommandComparisonNode.Tick | src/salus_control/salus_control/vehicle_command_comparison_node.py:182-192 | the timer expires both queues and reports the status level of the counters |
| ShadowComparison.VehicleCommandComparisonNode.PublishDiagnostics | src/salus_control/salus_control/vehicle_command_comparison_node.py:194-213 | the reported level is ERROR after any failure, else WARN before the first comparison, else OK |
| ShadowComparison.Conservation | src/salus_control/salus_control/vehicle_command_comparison_node.py:130-192 | in every reachable state, lossy or not, each stream's samples were compared, dropped or timed out, or are pending and its last ones; the compared ones are an increasing selection of each stream, each at the place given by the comparisons and losses before it; compared is matched plus diverged and diverged counts the mismatching pairs; one queue is empty |
| ShadowComparison.ErrorLatches | src/salus_control/salus_control/vehicle_command_comparison_node.py:194-207 | failures never decrease, so a reported ERROR never clears |
| ShadowComparison.ReasonsExplained | src/salus_control/salus_control/vehicle_command_comparison_node.py:130-192 | in every reachable state the reasons on show are those of a recorded pair that diverged, or name a kind of loss that has occurred, and there are none exactly while nothing has failed |
| ShadowComparison.LosslessIff | src/salus_control/salus_control/vehicle_command_comparison_node.py:130-192 | a run is lossless exactly when no arrival found its queue full and no tick found a sample that had waited longer than the pair timeout |
| ShadowComparison.LosslessRunsZip | src/salus_control/salus_control/vehicle_command_comparison_node.py:170-180 | in every interleaving without overflow or expiry the compared pairs are exactly the zip of the two streams |
| ShadowComparison.AdapterStreamVerdict | src/salus_control/salus_control/vehicle_command_comparison_node.py:170-180 | fed with the adapter's image, a lossless run diverges on exactly the samples without a stamp, under another frame, or changed by the wire beyond a tolerance |
| ShadowComparison.SameConfigVerdict | src/salus_control/salus_control/legacy_vehicle_command_node.py:48-97 | under the same parameters, for any messages and any lossless interleaving, the node never sees the adapter diverge exactly when nothing was compared, or the frame parameter has no white space around it, the tolerances cover the duration rounding and the narrowing of every compared value, and every compared sample has a positive stamp |
| ShadowComparison.TolerancesCover | src/salus_control/salus_control/vehicle_command_comparison_node.py:58-61 | tolerances of at least what narrowing can cost within the adapter's limits cover every message the adapter translates |
| ShadowComparison.NothingStaleAfterTick | src/salus_control/salus_control/vehicle_command_comparison_node.py:182-191 | with a clock that never goes back, nothing pending after a tick is older than the pair timeout |
| ShadowComparison.TickTakesTheStale | src/salus_control/salus_control/vehicle_command_comparison_node.py:182-191 | in any state a tick takes from each queue exactly the longest prefix of samples older than the pair timeout, counts each, and leaves everything else |
| ShadowComparison.TickKeepsTheRecent | src/salus_control/salus_control/vehicle_command_comparison_node.py:182-191 | a tick that finds only recent samples changes nothing at all |
| BatteryCurve.EnsureMonotonicCurve | src/salus_control/salus_control/battery_estimator.py:34-51 | a curve is let through exactly when its voltages are finite and strictly increase and its clamped percentages never fall, over all pairs of points |
| BatteryCurve.PiecewiseSocFromVoltage | src/salus_control/salus_control/battery_estimator.py:69-84 | the loop returns the specified estimate, zero for a voltage that is not finite, the default curve for an empty one, and fails for a refused one |
| BatteryCurve.SocMonotone | src/salus_control/salus_control/battery_estimator.py:69-84 | on every accepted curve the estimate lies in [0,1] and never falls as the voltage rises, across segments, narrow gaps and both cut-offs |
| BatteryCurve.SocAtKnot | src/salus_control/salus_control/battery_estimator.py:76-84 | the estimate at a knot is the knot's percentage exactly when, at an end, that is the cut-off value or, inside, the segment before it is at least 1e-6 wide or flat |
| BatteryCurve.SocLinear | src/salus_control/salus_control/battery_estimator.py:76-84 | inside a segment no narrower than the epsilon the estimate is the straight line between its knots |
| BatteryCurve.DefaultCurveExact | src/salus_control/salus_control/battery_estimator.py:20-27 | the default curve is accepted and hit exactly at every knot |
| BatteryGuard.BatteryEstimator.constructor | src/salus_control/salus_control/battery_estimator.py:110-131 | construction clamps the persistences to be nonnegative, raises the clear voltage to the return voltage, clamps the percentages of the curve and takes the default curve for an empty one |
| BatteryGuard.NormalisedMeans | src/salus_control/salus_control/battery_estimator.py:110-131 | normalising leaves exactly the valid parameters alone and lifts each other field just as far as it must |
| BatteryGuard.BatteryEstimator.BreakContinuity | src/salus_control/salus_control/battery_estimator.py:155-159 | a break forgets the last time and both accumulators but not the latch |
| BatteryGuard.BatteryEstimator.Update | src/salus_control/salus_control/battery_estimator.py:161-218 | an update performs the guard transition and reports its new state; a voltage in volts gets the curve's estimate, in [0,1], never falling as the voltage rises and exact at the knots of the default curve, and any other float gets zero |
| BatteryGuard.GuardMonotoneIff | src/salus_control/salus_control/battery_estimator.py:161-197 | lower voltages never leave the guard less latched, over all pairs of runs, exactly when both persistences are positive and the clear voltage is strictly above the return voltage, or both persistences are zero |
| BatteryGuard.LowWindow | src/salus_control/salus_control/battery_estimator.py:179-186 | while unlatched the low time is exactly the age of the last sample above threshold, first sample after a break, or unlatch, and every sample since is valid and low |
| BatteryGuard.ClearWindow | src/salus_control/salus_control/battery_estimator.py:187-195 | while latched the clear time is exactly the age of the last sample below the clear voltage, first sample after a break, or latch, and every sample since is valid and clear |
| BatteryGuard.UnlatchEarned | src/salus_control/salus_control/battery_estimator.py:187-195 | every unlatch ends an unbroken stretch of clear samples at least the clear persistence long, all after any earlier latch |
| BatteryGuard.LatchEarned | src/salus_control/salus_control/battery_estimator.py:179-186 | every latch, the first included, ends an unbroken stretch of low samples at least the return persistence long, all after any earlier unlatch |
| BatteryGuard.EvidenceKept | src/salus_control/salus_control/battery_estimator.py:179-195 | while the latch holds without a break, the low time that earned it stays on record |
| BatteryGuard.GuardProtectsIff | src/salus_control/salus_control/battery_estimator.py:161-197 | in every run an unbroken stretch of low samples at least the return persistence long leaves the guard latched, exactly when the clear persistence is positive and the clear voltage is above the return voltage |
| BatteryGuard.RefeedHarmlessIff | src/salus_control/salus_control/controller_server_node.py:664-670 | in every reachable state feeding a sample twice is feeding it once, exactly when both persistences are positive |
| DomainAllocator.ScanVisitsOnce | src/salus_evaluation/salus_evaluation/isolation.py:97-99 | the modular scan from any start visits each domain of the pool at exactly one offset |
| DomainAllocator.LocksAlwaysAgree | src/salus_evaluation/salus_evaluation/isolation.py:86-122 | in every interleaving exactly the allocator's holder is allocating, the domain locks are exactly those of the trials that hold one, and every trial stays in its pool |
| DomainAllocator.NoSharedDomain | src/salus_evaluation/salus_evaluation/isolation.py:86-122 | in every interleaving of allocators and lock-free releases, whatever the pools, no two trials hold the same domain |
| DomainAllocator.LetInIff | src/salus_evaluation/salus_evaluation/isolation.py:77-78 | a request is let in exactly when its pool is a non-empty subset of 1..232, and any other touches nothing |
| DomainAllocator.FailureMeansExhausted | src/salus_evaluation/salus_evaluation/isolation.py:86-116 | an allocation fails only if every domain of its pool was held at once when it took the allocator lock |
| DomainFairness.RoundRobinFair | src/salus_evaluation/salus_evaluation/isolation.py:89-110 | in any run, between two attempts on a domain, in particular two allocations of it, every other domain of the pool was allocated or found held, if only that pool was scanned in between |
| DomainFairness.SoloTrial | src/salus_evaluation/salus_evaluation/isolation.py:86-122 | alone, a trial takes the first domain of the scan, moves the cursor behind it and leaves no lock |
| DomainFairness.TakesFirstFree | src/salus_evaluation/salus_evaluation/isolation.py:86-122 | undisturbed, a trial passes over the held domains and takes the first free one of the scan, whatever others hold, leaving the cursor behind it |
| DomainFairness.FailsWhenExhausted | src/salus_evaluation/salus_evaluation/isolation.py:86-116 | undisturbed, with every domain of its pool held, a trial tries each once, fails and frees the allocator lock |
| DomainFairness.MixedPoolsUnfair | src/salus_evaluation/salus_evaluation/isolation.py:93-94 | for any two different valid pools, the first with more than one domain, there is a run over them that tries one domain of a pool twice and another of its domains not at all in between |
| DomainFairness.RoundRobinFairIff | src/salus_evaluation/salus_evaluation/isolation.py:86-110 | over a set of pools every run is fair, from any state file, exactly when its valid pools are all the same or have one domain each |
| DeadlineHeap.SiftUp | src/salus_control/salus_control/sim_drive_sensor_adapter.py:260 | restores the heap upwards in place, permuting the items |
| DeadlineHeap.SiftDown | src/salus_control/salus_control/sim_drive_sensor_adapter.py:262 | restores the heap downwards in place, permuting the items |
| DeadlineHeap.HeapPush | src/salus_control/salus_control/sim_drive_sensor_adapter.py:260 | adds one item and keeps the heap |
| DeadlineHeap.HeapPop | src/salus_control/salus_control/sim_drive_sensor_adapter.py:262-267 | removes the root, which no item precedes, and keeps the heap |
| SimTimeQueue.SimTimeQueue.constructor | src/salus_control/salus_control/sim_drive_sensor_adapter.py:245-250 | a new queue is empty and numbers from zero |
| SimTimeQueue.SimTimeQueue.Clear | src/salus_control/salus_control/sim_drive_sensor_adapter.py:252-253 | clearing empties the queue without reusing sequence numbers |
| SimTimeQueue.SimTimeQueue.Push | src/salus_control/salus_control/sim_drive_sensor_adapter.py:255-262 | a push adds the numbered item and, over capacity, evicts the least of all |
| SimTimeQueue.SimTimeQueue.PopReady | src/salus_control/salus_control/sim_drive_sensor_adapter.py:264-268 | a release returns the due items in order and keeps exactly the others |
| SimTimeQueue.ReadyIsDue | src/salus_control/salus_control/sim_drive_sensor_adapter.py:264-268 | what is released is all and only the due items, each once, in increasing (deadline, sequence) order |
| SimTimeQueue.PushesKeepTop | src/salus_control/salus_control/sim_drive_sensor_adapter.py:255-262 | after any pushes the queue holds exactly the max_size greatest (deadline, sequence) items |
| SimTimeQueue.TopUnique | src/salus_control/salus_control/sim_drive_sensor_adapter.py:255-262 | there is only one such set, so the previous row determines the contents |
| SimDriveSensorAdapter.SimDriveSensorAdapterNode.constructor | src/salus_control/salus_control/sim_drive_sensor_adapter.py:325-328 | the adapter starts with two empty queues and no clock reading |
| SimDriveSensorAdapter.SimDriveSensorAdapterNode.ObserveClock | src/salus_control/salus_control/sim_drive_sensor_adapter.py:344-348 | a clock that went back clears both queues; any reading is remembered |
| SimDriveSensorAdapter.SimDriveSensorAdapterNode.OnOdom | src/salus_control/salus_control/sim_drive_sensor_adapter.py:353-361 | odometry observes the clock and is pushed at its stamp plus a nonnegative delay, unless it was dropped |
| SimDriveSensorAdapter.SimDriveSensorAdapterNode.OnJointStates | src/salus_control/salus_control/sim_drive_sensor_adapter.py:363-371 | the same for joint states, on the other queue |
| SimDriveSensorAdapter.SimDriveSensorAdapterNode.ReleaseReady | src/salus_control/salus_control/sim_drive_sensor_adapter.py:373-381 | the timer ignores an unusable clock and otherwise releases what is due from each queue |
| SimDriveSensorAdapter.ExactlyOneFate | src/salus_control/salus_control/sim_drive_sensor_adapter.py:344-381 | in every run each pushed measurement is exactly once delivered, evicted, cleared or pending, and none is delivered before its deadline or its own stamp |
| SimDriveSensorAdapter.SteadyClockClearsNothing | src/salus_control/salus_control/sim_drive_sensor_adapter.py:344-348 | with a clock that never goes back nothing is ever cleared |
| SimDriveSensorAdapter.RollbackClears | src/salus_control/salus_control/sim_drive_sensor_adapter.py:344-348 | in every run an event clears both queues if its clock went back, and otherwise clears nothing |
| SimDriveSensorAdapter.PushedAsDrawn | src/salus_control/salus_control/sim_drive_sensor_adapter.py:103-107 | everything pushed in a run is a draw of that run, due at its stamp plus its delay, or at its stamp for a negative delay |
| SimDriveSensorAdapter.DeliveriesKeepTime | src/salus_control/salus_control/sim_drive_sensor_adapter.py:344-381 | in every run each delivery is of a draw and comes after its delay, and a usable release leaves nothing that is due |
| LeverDiagnostic.Diagnostic.constructor | tools/heading_gps_lever_diagnostic.py:25-26 | the diagnostic starts with empty deques |
| LeverDiagnostic.Diagnostic.OnLocal | tools/heading_gps_lever_diagnostic.py:32-38 | a local sample that does not advance the stream is ignored, any other is appended and flushed |
| LeverDiagnostic.Diagnostic.OnGps | tools/heading_gps_lever_diagnostic.py:40-44 | a GPS message is appended and flushed, unless it is already in the base frame, which is refused without a change |
| LeverDiagnostic.Diagnostic.FlushPending | tools/heading_gps_lever_diagnostic.py:46-67 | the loop performs the flush transition |
| LeverDiagnostic.JoinIsBatch | tools/heading_gps_lever_diagnostic.py:32-67 | if no position is pushed out and each is popped while the history covers it, after any interleaving what was published is what one batch pass over the two complete streams publishes, and pending is exactly the rest, however much of the local stream was dropped |
| LeverDiagnostic.BoundedMeasure | tools/heading_gps_lever_diagnostic.py:25-58 | with only the last 600 local samples, a message newer than all that was dropped is measured as with the complete stream, and any other is lost |
| LeverDiagnostic.FittingIsInTime | tools/heading_gps_lever_diagnostic.py:25 | a run of at most 600 advancing local samples covers every position it pops |
| LeverDiagnostic.QueuesHoldTheNewest | tools/heading_gps_lever_diagnostic.py:25-54 | in every run, overflowing or not, the history is the newest 600 local samples and what waits is a tail of at most 100 positions, the first of them still ahead of the history |
| LeverDiagnostic.ScheduleIndependent | tools/heading_gps_lever_diagnostic.py:32-67 | two such interleavings of the same streams end in the same state |
| LeverDiagnostic.MeasuredIffBracketed | tools/heading_gps_lever_diagnostic.py:56-58 | a message is kept exactly when two neighbouring local samples at most 0.2 s apart bracket its stamp |
| LeverDiagnostic.MeasuredInBracket | tools/heading_gps_lever_diagnostic.py:59-67 | the yaw used is interpolated inside the bracket with a weight in (0,1], never extrapolated |
| LeverDiagnostic.PublishedAnswers | tools/heading_gps_lever_diagnostic.py:46-67 | everything a run publishes answers a position it was sent: in a close bracket of the complete local stream, the published base and the lever arm rotated by the interpolated yaw put the antenna where it was measured |
| LeverDiagnostic.LeverLengthKept | tools/heading_gps_lever_diagnostic.py:12-15 | compensation moves a position by exactly the lever arm's length |
| LeverDiagnostic.LeverPointsAhead | tools/heading_gps_lever_diagnostic.py:12-15 | seen along the yaw, the antenna is 0.66 ahead and 0.20 to the left of the compensated position |
| ServicePoller.AsyncServicePoller.constructor | tools/smoke_runtime.py:174-187 | the poller starts idle with zero counters |
| ServicePoller.AsyncServicePoller.Poll | tools/smoke_runtime.py:189-215 | a poll performs the transition on every field |
| ServicePoller.PollerInvariant | tools/smoke_runtime.py:189-215 | in every run with a nondecreasing clock sent is responses plus timeouts plus failures plus the one in flight, and consecutive sends are at least interval_s apart |
| ServicePoller.RateLimited | tools/smoke_runtime.py:212-215 | any span of time sees at most one plus the whole number of intervals in it sends |
| ServicePoller.SendsIff | tools/smoke_runtime.py:212-215 | a poll sends exactly when the service is ready, nothing is in flight and the interval since the last completion, or the epoch, has passed |
| ServicePoller.CountsTheEnd | tools/smoke_runtime.py:191-211 | what a poll counts: an answer, an empty or raised one, or a timeout, the last exactly when the response is pending past its time |
| ServicePoller.LeavesFlight | tools/smoke_runtime.py:191-211 | a request is out of flight after the first poll at or past its timeout, whatever the service does |
| PolylineResampler.PolylineLength | src/salus_evaluation/salus_evaluation/geometry_quality.py:32-34 | the length is the arc length of all segments |
| PolylineResampler.FiniteXy | src/salus_evaluation/salus_evaluation/geometry_quality.py:14-24 | the points come back unchanged exactly when all coordinates are finite |
| PolylineResampler.MakeTargets | src/salus_evaluation/salus_evaluation/geometry_quality.py:48-53 | the loop yields the multiples of the spacing below the total, then the total |
| PolylineResampler.ResamplePolyline | src/salus_evaluation/salus_evaluation/geometry_quality.py:37-77 | the single pass returns, for every target, the sample a separate search from the first segment finds; it fails exactly for unusable input |
| PolylineResampler.Advance | src/salus_evaluation/salus_evaluation/geometry_quality.py:58-65 | the inner loop stops where the search from its segment stops |
| PolylineResampler.TargetOnSegment | src/salus_evaluation/salus_evaluation/geometry_quality.py:58-73 | every target is served by a real segment, so the fallback is unreachable; fractions are nonnegative and overshoot a segment by at most the slack |
| PolylineResampler.SampleCount | src/salus_evaluation/salus_evaluation/geometry_quality.py:48-53 | a positive length gives ceil(total / spacing) + 1 targets, from zero to the total |
| PolylineResampler.StartsAtFirst | src/salus_evaluation/salus_evaluation/geometry_quality.py:66-76 | the first sample is the first point |
| PolylineResampler.SampleAtArcLength | src/salus_evaluation/salus_evaluation/geometry_quality.py:69-76 | a sample is exactly as far from its segment's start as its target is past the start's arc length |
| PolylineResampler.EndsNearLast | src/salus_evaluation/salus_evaluation/geometry_quality.py:58-76 | the last sample is within twice the skipped tail of the last point, and the tail is at most the slack |
| PolylineResampler.EndsAtLast | src/salus_evaluation/salus_evaluation/geometry_quality.py:58-76 | if the last segment is longer than the slack the last sample is the last point |
| PolylineResampler.EndGuarantee | src/salus_evaluation/salus_evaluation/geometry_quality.py:58-76 | ending within one slack of the last point is guaranteed for a given skipped tail exactly when it is at most half the slack |
| SignChanges.DeletionNeverAdds | src/salus_evaluation/salus_evaluation/geometry_quality.py:116-121 | deleting elements from a sequence never adds alternations |
| SignChanges.NeverMoreIff | src/salus_evaluation/salus_evaluation/geometry_quality.py:116-121 | one deadband counts no more sign changes than another on every list of values exactly when they are equal or it is at least the other in magnitude |
| SignChanges.MirrorInvariantIff | src/salus_evaluation/salus_evaluation/geometry_quality.py:116-121 | the count is the same for mirrored values exactly when the deadband is not negative |
| AckermannRecovery.BranchesAgree | src/salus_control/salus_control/sim_gazebo_backend.py:182-245 | away from the near-straight thresholds both wheels, either wheel alone and odometry recover the same centre angle, with tangent wheelbase / radius |
| AckermannRecovery.SelectionAgrees | src/salus_control/salus_control/sim_gazebo_backend.py:182-278 | away from the near-straight thresholds, for joints and odometry of one circle, each present or not, selection of the recovered angles yields the centre angle whatever the tolerance, and nothing exactly when neither source is usable |
| AckermannRecovery.SelectionArbitrates | src/salus_control/salus_control/sim_gazebo_backend.py:271-278 | for any two angles, agreeing or not, the selected one is one of them, never further than the tolerance from the odometry's, and the joints' whenever that is near enough |
| AckermannRecovery.RecoveryArbitrates | src/salus_control/salus_control/sim_gazebo_backend.py:182-278 | the same for the angles that the joints and odometry give, whatever is present |
| AckermannRecovery.NearStraight | src/salus_control/salus_control/sim_gazebo_backend.py:218-245 | the near-straight branches: opposite joints, or one joint within the threshold, give straight ahead, two within it their mean, and a degenerate wheelbase the joint itself |
| AckermannRecovery.OdomSpeaksIff | src/salus_control/salus_control/sim_gazebo_backend.py:182-198 | odometry gives no angle exactly when a reading is missing or too slow or the wheelbase is degenerate; any angle it gives turns at the yaw rate and speed read |
| AckermannRecovery.WheelsMirror | src/salus_control/salus_control/sim_gazebo_backend.py:201-245 | turning the other way with the joints exchanged recovers the opposite angle, whatever is present and on every branch |
| AckermannRecovery.RecoversTheCommand | src/salus_control/salus_control/control_logic.py:105-106 | the recovered angle is the unsaturated steer commanded for the same speed and yaw rate |
| PathCleaning.CleanPaths | tools/ci_select_smokes.py:135-143 | the loop returns the sorted set of the non-empty cleaned paths |
| PathCleaning.CleanPathIsClean | tools/ci_select_smokes.py:137-141 | a cleaned path that is not empty has no leading ./, no backslash and no white space at its end |
| PathCleaning.OnlyCleanPaths | tools/ci_select_smokes.py:135-143 | only such paths get through, and one that is such already and does not start with white space gets through as it is |
| PathCleaning.SortedUnique | tools/ci_select_smokes.py:143 | a set of paths has one sorted listing |
| PathCleaning.OrderAndDuplicatesIrrelevant | tools/ci_select_smokes.py:135-143 | two lists give the same changed files exactly when their sets of cleaned paths are equal |
| PathCleaning.DotSlashIrrelevantIff | tools/ci_select_smokes.py:138-140 | a ./ in front changes nothing exactly when the path does not start with white space or is nothing else |
| CiSelector.Classify | tools/ci_select_smokes.py:146-254 | the loops and early returns compute the specified selection; an unsupported context fails |
| CiSelector.SelectMeans | tools/ci_select_smokes.py:155-254 | in terms of the tables alone: full CI with the whole universe exactly when forced, without a usable path, or with a path that is structural or in no table; otherwise exactly the smokes, within the universe, of the packages that changed paths lie in |
| CiSelector.SelectionJoins | tools/ci_select_smokes.py:155-254 | for lists not empty after cleaning the smokes of the union are the union of the smokes, and FULL absorbs to the universe |
| CiSelector.SmokesJoinIff | tools/ci_select_smokes.py:155-254 | for any two lists the smokes of the union are the union of the smokes exactly when both have a usable path, or each by itself escalates, as a list without one does, or has packages that own the whole universe |
| CiSelector.MoreChangesMoreSmokes | tools/ci_select_smokes.py:155-254 | a further changed file never drops a smoke nor leaves full CI |
| CiSelector.SelectionOfASet | tools/ci_select_smokes.py:155-254 | the whole selection depends only on the set of cleaned paths |
| CiSelector.PackageOwnsItsPaths | tools/ci_select_smokes.py:21-95 | the tables do not overlap: a path in a package belongs to that package alone and selects exactly its smokes, whatever the order of the tables |

## Left out

- ControllerServer.OnCmdVelFinal: takes finite velocities only, because the legacy callback has no finiteness test and its arithmetic on NaN is not modelled.
- ControllerServer.ControlTick: the published status message and log lines are not modelled.
- LockstepIff: says nothing of vehicles without a float32 speed to drive at; AlikeIff covers them.
- CompareVehicleCommands: reasons are enumerated values, not the strings built from field names.
- BatteryEstimator.constructor: takes points of an accepted curve, or none; a refused one raises before there is an object, as EnsureMonotonicCurve shows.
- BatteryEstimator.Update: the fields of the estimate that copy the raw voltage are one field, and times are finite.
- SimDriveSensorAdapterNode.OnOdom: the perturbation of the measured values and the random draws are not modelled, only the drawn delay.
- JoinIsBatch: says nothing of runs in which a hundred positions are waiting when the next arrives; the queue then loses its oldest (OverflowTakesTheOldest, QueuesHoldTheNewest).
- OnGps: the message is a value, so the deep copies and the unchanged stamp and covariance need no proof.
- Poll: the latest response and the error text are not modelled; `failed` and `sends` are history variables.
- NoSharedDomain: a process crash, the path of the lock directory and a failing system call are not modelled; all trials share one lock directory.
- Classify: the registry of smoke ids is a parameter and the reason strings are not modelled.
- SortedSet: stands for the library's `sorted(set(...))`; DeadlineHeap stands for the library's heap.
- Floating-point rounding of computations, float32 overflow, and the range of the integer fields of messages.
- ROS nodes, publishers, timers, parameters and launch files; callbacks are methods.
- The UART transport of rpy_esp32_comms, and the hazard light of its CommandState.
- Yaw extraction, curvature and lateral metrics and the R4 fillet: they need analytic trigonometry for little logic.
- Battery state labels, the external battery callback, telemetry and diagnostics formatting.
