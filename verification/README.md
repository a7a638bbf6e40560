# Verified model of the strand stepper firmware

The firmware drives strands of a kinetic installation: UDP messages become motion commands,
commands become step-and-direction pulses on a motor driver. This project models that path
from the message to the pulse, with the motor libraries it rests on, and proves what whole
moves and whole runs do.

* `Integers.dfy` - the integer arithmetic the other modules share.
* `Ramp.dfy` - exact arithmetic of v^2/(2a) and of Equation 13 of David Austin's
  "Generate stepper-motor speed profiles in real time".
* `Motion.dfy` - the state of an accelerated motor and the effect of every operation on it.
* `Profile.dfy`, `Shape.dfy`, `Stopping.dfy` - whole moves from rest: exact arrival, the
  deceleration ramp, the acceleration law, the trapezoid, and when `stop()` keeps its promise.
* `Reachable.dfy`, `Settling.dfy` - every state any sequence of operations can reach.
* `Pulses.dfy`, `AccelStepper.dfy` - the pins of the DRIVER interface and the class itself, whose
  methods are proved to have exactly the effects defined in `Motion.dfy`.
* `MultiStepper.dfy`, `Stepper.dfy` - coordinated constant-speed motion, and the plain
  modular step counter.
* `Commands.dfy`, `Strand.dfy` - clamping, the command queue, the sine generator, and the
  task that executes commands.
* `CommandLine.dfy` - splitting messages in place and dropping repeated ones.

Conventions. Speeds, intervals and accelerations are exact reals and counters unbounded integers.
The value of `sqrt(2 / a)` is a parameter constrained by its square. `micros()` is a
32-bit counter whose successive readings are a parameter `clock`; the only thing assumed of it is
that it is polled often enough to notice that a wait of `limit` microseconds is over (`Live`, which
`PollingIsLive` derives from the gaps between readings).
`After(m, k)` is motor state `m` after `k` due steps.

Findings. Six places where the code does not do what its documentation or its callers expect are
proved here, each with the exact condition and with a concrete input:

* `stop()` during the deceleration of a move can accelerate the motor past the target it has just
  set; `StopExactlyWhen` says precisely when, `StopOverrunsBy` by how far, and `StopCanOverrun` exhibits a six-step
  move.
* A motor whose maximum speed is below the speed of its first step slows down while it should speed up:
  `TrapezoidWhen` says which moves from rest have the shape of a trapezoid, and `SlowStart` exhibits a move of
  two steps that has not.
* The documented default maximum speed of one step per second is not in force after construction,
  and `setMaxSpeed(1)` does not put it in force: `MaxSpeedInForce` says when a maximum speed is in force, and
  `DefaultExceeded` exhibits a new motor going faster two steps into its first move. The strand is not
  affected, since its task starts with another maximum speed.
* `runSpeedToPosition` can leave the direction contradicting the sign of the speed:
  `FacingTargetCoherent` says when, and `TurnedAgainstSpeed` exhibits three calls on a new motor.
* `MultiStepper::moveTo` to the present positions does not replace older targets: `NothingToAim` says
  when the targets asked for are set, `StayIsIgnored` that a coordinated move cannot be called off in this
  way, and `OldTargetKept` exhibits a motor.
* A UDP message that is only a fresh number is dropped after a message that was itself dropped, and
  otherwise executes the command line left over from earlier messages: `DuplicatesDropped` says exactly when
  a UDP message is executed, and `BareNumberDropped` exhibits a series.

## Model

| member | source | states |
|---|---|---|
| Profile.ExactMove | main/libraries/AccelStepper/AccelStepper.cpp:97-188 | from rest, a move takes exactly as many steps as the target is away, all towards it, is never at rest before the last, and ends at rest on the target, for every distance, acceleration and maximum speed |
| Profile.ApproachRuns | main/libraries/AccelStepper/AccelStepper.cpp:97-164 | the invariant of an approach: after k of its steps the motor is k steps nearer and still approaching, and at rest on the target after the last |
| Profile.AcceleratingStep | main/libraries/AccelStepper/AccelStepper.cpp:112-162 | an accelerating motor with room to brake still has room after its next step, or starts braking in time, or stops on the target |
| Profile.BrakingStep | main/libraries/AccelStepper/AccelStepper.cpp:122-159 | a braking motor whose counter equals its stopping distance stays so and lands on the target |
| Profile.StartMove | main/libraries/AccelStepper/AccelStepper.cpp:148-163 | the first step from rest: counter 1, interval c0, direction to the target |
| Profile.PositionNamed | main/libraries/AccelStepper/AccelStepper.cpp:89-95 | after setCurrentPosition the motor is at rest at the position given, and every move is measured from there |
| Motion.PlanByAhead | main/libraries/AccelStepper/AccelStepper.cpp:112-145 | when computeNewSpeed starts to brake, accelerates again or goes on, in terms of the steps ahead, whichever way the motor moves and also on its target |
| Motion.MoveToAgain | main/libraries/AccelStepper/AccelStepper.cpp:23-31 | the same target again changes nothing |
| Motion.RescaledTowardsZero | main/libraries/AccelStepper/AccelStepper.cpp:289-290 | Equation 17: counter times acceleration is kept but for less than one new acceleration, rounded towards zero |
| Motion.SetAccelerationGoesOn | main/libraries/AccelStepper/AccelStepper.cpp:281-296 | with room to go on, the next update is made from that counter |
| Motion.SetMaxSpeedRecounts | main/libraries/AccelStepper/AccelStepper.cpp:259-274 | in mid-acceleration the next update is made from the counter of the actual speed, to go on or to brake; in any other phase only the settings change |
| Profile.StopExactly | main/libraries/AccelStepper/AccelStepper.cpp:637-647 | stop() while accelerating or cruising takes exactly floor(v^2/2a)+1 further steps in the same direction and comes to rest on the new target |
| Stopping.StopExactlyWhen | main/libraries/AccelStepper/AccelStepper.cpp:637-647 | at any moment of a move from rest, stop() keeps that promise if and only if the motor is not braking, or the target was already that far, or re-accelerating leaves it room to brake |
| Stopping.StopWhileBraking | main/libraries/AccelStepper/AccelStepper.cpp:122-127 | the same equivalence for one state of the deceleration ramp |
| Stopping.RampLands | main/libraries/AccelStepper/AccelStepper.cpp:97-145 | on the ramp with at most one step to spare, the motor lands on its target if and only if it has no more steps to stop than steps to go |
| Stopping.StopCanOverrun | main/libraries/AccelStepper/AccelStepper.cpp:637-647 | there is a move from rest and a moment at which stop() does not end at rest where it promises |
| Stopping.StopOverrunsBy | main/libraries/AccelStepper/AccelStepper.cpp:637-647 | when stop() fails, the motor turns around exactly s - k steps past the target it has set, with k steps to stop before the call and s after it, and comes back to rest on it |
| Stopping.RampRunsOut | main/libraries/AccelStepper/AccelStepper.cpp:97-164 | with more steps to stop than to go the motor goes on down the ramp across its target, one count and one step at a time, in the same direction |
| Stopping.TurnsPast | main/libraries/AccelStepper/AccelStepper.cpp:97-188 | it turns around at step 1 - n, exactly 1 - n - d steps past a target d steps away, and comes back by the shortest way |
| Stopping.MoveToHere | main/libraries/AccelStepper/AccelStepper.cpp:23-31 | moveTo(currentPosition()) with two or more steps to stop does not slow the motor down: it turns around one step after it could have stopped |
| Shape.RampLockstep | main/libraries/AccelStepper/AccelStepper.cpp:101-159 | over any updates that stay on the deceleration ramp floor(v^2/2a) stays equal to -n; the ramp holds exactly stepsToStop updates and ends with v^2 < 2a |
| Shape.RampEntry | main/libraries/AccelStepper/AccelStepper.cpp:116-120 | the decision to brake puts counter and stopping distance in step |
| Shape.AccelerationLaw | main/libraries/AccelStepper/AccelStepper.cpp:148-162 | n counts the accelerating steps; the squared speed lies between n and 2n-1 times that of the first step until it is clamped; stepsToStop grows by at most one a step |
| Shape.Trapezoid | main/libraries/AccelStepper/AccelStepper.cpp:112-164 | if the clamp does not reach the first interval, the speeds of a move from rest never fall up to a peak and fall at every step after it; the counter is positive exactly up to the peak |
| Shape.TrapezoidWhen | main/libraries/AccelStepper/AccelStepper.cpp:147-164 | a move from rest has this shape if and only if cmin is at most c0 or there is only one step to make |
| Shape.SlowStart | main/libraries/AccelStepper/AccelStepper.cpp:147-164 | a move of two steps at a maximum speed of one step a second slows down at once |
| Ramp.RampLaw | main/libraries/AccelStepper/AccelStepper.cpp:154-160 | the unclamped ramp from rest has v^2/2a between n and 2n-1 times its first value |
| Ramp.AccelerationGrowth | main/libraries/AccelStepper/AccelStepper.cpp:154-160 | with the 0.676 correction no accelerating update at or below the ramp adds a whole step to the stopping distance or leaves the ramp, for any n |
| Ramp.RampSlope | main/libraries/AccelStepper/AccelStepper.cpp:157-157 | the inequality behind it: 16n times the ramp's v^2/2a is less than (4n-1)^2, for every n |
| Ramp.NextIntervalRatio | main/libraries/AccelStepper/AccelStepper.cpp:157-157 | Equation 13 multiplies the interval by (4n-1)/(4n+1), whatever the sign of n |
| Ramp.DecelerationUpper | main/libraries/AccelStepper/AccelStepper.cpp:157-158 | a decelerating update takes v^2/2a from below k+1 to below k |
| Ramp.DecelerationLower | main/libraries/AccelStepper/AccelStepper.cpp:157-157 | an unclamped decelerating update takes v^2/2a from at least k to at least k-1 |
| Reachable.AlwaysCoherent | main/libraries/AccelStepper/AccelStepper.cpp:23-311 | after any sequence of operations the interval is zero exactly when the speed is, speed and direction agree, the interval is that of the speed, and a nonzero counter comes with an interval |
| Reachable.FacingTargetCoherent | main/libraries/AccelStepper/AccelStepper.cpp:619-628 | runSpeedToPosition keeps this if and only if the motor stands still, is on its target, or already moves towards it |
| Reachable.TurnedAgainstSpeed | main/libraries/AccelStepper/AccelStepper.cpp:619-628 | moveTo(-5), setSpeed(1) and runSpeedToPosition on a new motor: it turns to anticlockwise with a positive speed |
| Reachable.SpeedCap | main/libraries/AccelStepper/AccelStepper.cpp:148-164 | the speed set never exceeds the larger of the clamp speed and the first-step speed |
| Reachable.SetSpeedLaw | main/libraries/AccelStepper/AccelStepper.cpp:298-311 | the speed asked for or, beyond the maximum, the maximum the same way, with its direction and its whole microseconds |
| Reachable.NeverReversesAtSpeed | main/libraries/AccelStepper/AccelStepper.cpp:89-160 | over any sequence of operations at constant acceleration, a counter at or below zero means v^2 < 2a(1-n), and the direction only changes when v^2 < 2a |
| Reachable.ComputeSafe | main/libraries/AccelStepper/AccelStepper.cpp:97-164 | one computeNewSpeed keeps this and turns around only when v^2 < 2a |
| Reachable.MaxSpeedInForce | main/libraries/AccelStepper/AccelStepper.cpp:190-274 | after any operations on a new motor the maximum speed is in force if and only if some call set one other than 1 |
| Reachable.DefaultExceeded | main/libraries/AccelStepper/AccelStepper.cpp:190-274 | setMaxSpeed(1) and two steps of a move on a new motor: it is faster than its maximum speed of 1 |
| Settling.AlwaysSettles | main/libraries/AccelStepper/AccelStepper.cpp:613-617 | from any state accelerated motion can reach, running to the target ends at rest on it and turns around at most once |
| Settling.Settles | main/libraries/AccelStepper/AccelStepper.cpp:97-188 | the same for every safe state, and exactly the distance in steps from an approach |
| Settling.AstrayStep | main/libraries/AccelStepper/AccelStepper.cpp:103-160 | a motor not on an exact approach gets strictly closer to one with every step, without turning |
| Settling.ApproachTimed | main/libraries/AccelStepper/AccelStepper.cpp:154-161 | an approach never needs an interval above twice the longer of c0 and cmin |
| Settling.SettlesTimed | main/libraries/AccelStepper/AccelStepper.cpp:613-617 | from every safe state, astray ones included, the run to the target has a longest interval, as runToPosition is required to be polled |
| Pulses.TrainPulses | main/libraries/AccelStepper/AccelStepper.cpp:41-64 | reading the pins, a driver counts exactly the steps made, each in its direction, for any pin inversion and any initial levels; position change is clockwise minus anticlockwise pulses |
| Pulses.OnePulse | main/libraries/AccelStepper/AccelStepper.cpp:382-393 | one step is exactly one rising edge of the step pin, with the direction pin already set |
| Pulses.ObserveOutput | main/libraries/AccelStepper/AccelStepper.cpp:357-367 | one setOutputPins call as the driver sees it |
| AccelSteppers.AccelStepper.constructor | main/libraries/AccelStepper/AccelStepper.cpp:190-223 | the state of a new motor |
| AccelSteppers.AccelStepper.ComputeNewSpeed | main/libraries/AccelStepper/AccelStepper.cpp:97-164 | in-place computeNewSpeed has exactly the specified effect |
| AccelSteppers.AccelStepper.PlanCount | main/libraries/AccelStepper/AccelStepper.cpp:112-145 | its branches over counter, distance and direction |
| AccelSteppers.AccelStepper.TakeInterval | main/libraries/AccelStepper/AccelStepper.cpp:147-164 | its Equation 13 update with the cmin clamp |
| AccelSteppers.AccelStepper.MoveTo | main/libraries/AccelStepper/AccelStepper.cpp:23-31 | the specified effect; an unchanged target changes nothing |
| AccelSteppers.AccelStepper.Move | main/libraries/AccelStepper/AccelStepper.cpp:33-36 | moveTo relative to the current position |
| AccelSteppers.AccelStepper.Stop | main/libraries/AccelStepper/AccelStepper.cpp:637-647 | the specified effect |
| AccelSteppers.AccelStepper.SetCurrentPosition | main/libraries/AccelStepper/AccelStepper.cpp:89-95 | rest at the given position; the pulse ledger starts afresh |
| AccelSteppers.AccelStepper.SetMaxSpeed | main/libraries/AccelStepper/AccelStepper.cpp:259-274 | the specified effect, including Equation 16 while accelerating |
| AccelSteppers.AccelStepper.SetAcceleration | main/libraries/AccelStepper/AccelStepper.cpp:281-296 | the specified effect, including Equations 7, 15 and 17 |
| AccelSteppers.AccelStepper.SetSpeed | main/libraries/AccelStepper/AccelStepper.cpp:298-311 | the specified effect of constant-speed mode |
| AccelSteppers.AccelStepper.SetOutputPins | main/libraries/AccelStepper/AccelStepper.cpp:357-367 | writes the masked levels, inverted where the pin is |
| AccelSteppers.AccelStepper.Step1 | main/libraries/AccelStepper/AccelStepper.cpp:382-393 | writes one step pulse |
| AccelSteppers.AccelStepper.SetPinsInverted | main/libraries/AccelStepper/AccelStepper.cpp:596-601 | changes only the wiring |
| AccelSteppers.AccelStepper.RunSpeed | main/libraries/AccelStepper/AccelStepper.cpp:41-70 | one step and one pulse exactly when a nonzero interval has passed on the wrapping clock, with the ledger kept |
| AccelSteppers.ElapsedTime | main/libraries/AccelStepper/AccelStepper.cpp:48-48 | two readings less than 2^32 microseconds apart give the true time between them across the wrap |
| AccelSteppers.AccelStepper.DueInTime | main/libraries/AccelStepper/AccelStepper.cpp:41-48 | a step is due exactly when the interval has passed in true time, whether or not the counter has wrapped |
| AccelSteppers.PollingIsLive | main/libraries/AccelStepper/AccelStepper.cpp:41-70 | a clock read with gaps of at most 2^32 microseconds less the wait sees every wait end |
| AccelSteppers.LiveExactly | main/libraries/AccelStepper/AccelStepper.cpp:48-48 | there is such a clock if and only if the wait is below 2^32 microseconds |
| AccelSteppers.AccelStepper.Run | main/libraries/AccelStepper/AccelStepper.cpp:183-188 | a due step followed by computeNewSpeed, and whether the motor still runs |
| AccelSteppers.AccelStepper.RunToPosition | main/libraries/AccelStepper/AccelStepper.cpp:613-617 | returns, at rest on the target, having made the steps of the run and at most one turn; from an approach exactly its distance |
| AccelSteppers.AccelStepper.RunToNewPosition | main/libraries/AccelStepper/AccelStepper.cpp:631-635 | returns at rest on the new position; from rest after exactly the distance in steps |
| AccelSteppers.AccelStepper.RunSpeedToPosition | main/libraries/AccelStepper/AccelStepper.cpp:619-628 | faces the target and steps if due |
| MultiSteppers.AimedOnPace | main/libraries/AccelStepper/MultiStepper.cpp:37-48 | the computed speed is within the maximum, so constrain changes nothing; it points at the target and sets the interval that goes with it |
| MultiSteppers.AimedUnderway | main/libraries/AccelStepper/MultiStepper.cpp:37-48 | every motor so set is fit for runSpeedToPosition |
| MultiSteppers.LongestMeans | main/libraries/AccelStepper/MultiStepper.cpp:24-35 | the longest time is enough for every motor at its maximum speed, and just enough for one |
| MultiSteppers.FastestTogether | main/libraries/AccelStepper/MultiStepper.cpp:37-48 | every motor is set to cover its distance in the same time within its maximum speed, and one of them at its maximum speed |
| MultiSteppers.NothingToAim | main/libraries/AccelStepper/MultiStepper.cpp:22-49 | after moveTo the targets are those asked for if and only if some motor is asked to move or none had anywhere left to go; if none is asked to move nothing changes |
| MultiSteppers.StayIsIgnored | main/libraries/AccelStepper/MultiStepper.cpp:22-49 | asking every motor to stay where it is right after moveTo leaves each on its way to the target it had |
| MultiSteppers.OldTargetKept | main/libraries/AccelStepper/MultiStepper.cpp:37-48 | a motor at 0 on its way to 5, asked to be at 0, keeps target 5 |
| MultiSteppers.ArrivalWindow | main/libraries/AccelStepper/AccelStepper.cpp:298-311 | stepping at the integer interval loses less than a microsecond a step |
| MultiSteppers.ArrivalSkew | main/libraries/AccelStepper/MultiStepper.cpp:22-49 | all motors arrive within as many microseconds of each other as the longer of the moves has steps |
| MultiSteppers.PolledArrival | main/libraries/AccelStepper/AccelStepper.cpp:41-70 | polled every microsecond, a motor reaches its target at exactly that arrival time |
| MultiSteppers.MultiStepper.AddStepper | main/libraries/AccelStepper/MultiStepper.cpp:14-20 | appends up to ten motors |
| MultiSteppers.MultiStepper.LongestTime | main/libraries/AccelStepper/MultiStepper.cpp:24-35 | at their maximum speeds all motors get there in that time, and unless it is zero one of them in no less |
| MultiSteppers.MultiStepper.MoveTo | main/libraries/AccelStepper/MultiStepper.cpp:22-49 | the motors are set to cover their distances in one time, one of them at its maximum speed and none above; their targets are those asked for if and only if some is asked to move or none had anywhere left to go |
| MultiSteppers.MultiStepper.Run | main/libraries/AccelStepper/MultiStepper.cpp:52-78 | each motor off its target makes its due step, the others nothing |
| MultiSteppers.MultiStepper.RunSpeedToPosition | main/libraries/AccelStepper/MultiStepper.cpp:81-85 | returns with every motor on its target after exactly its distance in steps, all in one direction |
| MultiSteppers.RoundsAreLive | main/libraries/AccelStepper/MultiStepper.cpp:81-85 | rounds that come often enough let every motor see its waits end |
| Steppers.Stepper.Step | main/libraries/Stepper/src/Stepper.cpp:192-238 | step(k) terminates, sets step_number to (step_number - k) mod N and emits the phases on the way |
| Steppers.MoveUndone | main/libraries/Stepper/src/Stepper.cpp:192-238 | step(-k) undoes step(k) through the same step numbers |
| Steppers.PhaseLaw | main/libraries/Stepper/src/Stepper.cpp:229-235 | the phase never jumps, wrap-around included, if and only if N is a multiple of the number of phases |
| Steppers.PhaseFollows | main/libraries/Stepper/src/Stepper.cpp:229-235 | for such N the phase follows the law of the step number |
| Steppers.NeighbourPatterns | main/libraries/Stepper/src/Stepper.cpp:243-368 | between neighbouring phases one wire changes, with four wires one goes low and one high |
| Commands.ToStepsError | main/src/strand.cpp:248-248 | truncating 22.6 steps per millimetre is antisymmetric and loses at most four fifths of a step |
| Commands.StepsOfKind | main/src/strand.cpp:246-285 | the steps of each type: as given for a relative move, 22.6 a millimetre rounded towards zero for an absolute one, which alone is recorded |
| Commands.LedgerDrift | main/src/strand.cpp:246-285 | relative moves aside, the steps of any series of commands differ from 22.6 times the change of position by at most 4/5 for each absolute command |
| Commands.ClampInRange | main/src/strand.cpp:83-99 | the clamp always lands in the range if and only if the range is not empty |
| Commands.ClampNearest | main/src/strand.cpp:83-99 | an absolute move in range is kept, any other goes to the end it is beyond, no place of the range being nearer; a relative move is kept |
| Commands.RangeSafety | main/src/strand.cpp:79-110 | whatever is offered and dropped, every executed absolute command leaves the position in the range |
| Commands.FifoOrder | main/src/strand.cpp:225-236 | over any interleaving of senders and receiver commands come out in order, none twice, some perhaps dropped |
| Commands.DroppedWhenFull | main/src/strand.cpp:104-110 | over any interleaving exactly the commands offered to a queue of 40 are dropped; any other goes to its end |
| Commands.SwingsCancel | main/src/net.c:940-947 | between the turning points of a sine truncation errors cancel exactly |
| Commands.SineCommands | main/src/net.c:938-949 | a sine sends loops swings by its offset about its centre, up first, each as far as the range goes, and then the centre |
| Commands.SineDrift | main/src/net.c:920-949 | a sine's steps differ from 22.6 times the change of position by less than three steps, for any number of loops and any dropped commands |
| Commands.SineEndsAtCentre | main/src/net.c:949-949 | if its last command is executed a sine ends at its centre or, that being out of range, at the nearer end of the range |
| Strands.CommandMove | main/src/strand.cpp:79-110 | offers exactly one command, with the settings given and the move given if it is relative or in range, else the end of the range it is beyond |
| Strands.SineTask | main/src/net.c:913-957 | offers exactly the swings about the centre and the centre, however the receiver interleaves |
| Strands.Strand.constructor | main/src/strand.cpp:131-172 | the motor with the maximum speed and acceleration of init_strand, ready to move |
| Strands.Strand.Prepare | main/src/strand.cpp:244-285 | the move and the recorded position of a command, its acceleration unless zero, and its maximum speed, for type 2 chosen from the distance and the time, with the clamp that goes with it |
| Strands.Strand.SetForTime | main/src/strand.cpp:246-268 | the acceleration and the three-way choice of maximum speed of a type 2 command |
| Strands.TimedSpeedLaw | main/src/strand.cpp:246-268 | that choice in whole numbers: speed times steps over time, truncated, at least 100, and 10000 for a speed of 10000 or more |
| Strands.Strand.Travel | main/src/strand.cpp:294-373 | without HOME exactly the steps to the target, at rest on it; with HOME at step 4000 and position 0; HOME happens if and only if it was pending at a poll |
| Strands.Strand.Home | main/src/strand.cpp:311-321 | whatever the speed and target, ends at rest at step 4000, position 0, after exactly 4000 steps |
| Strands.Strand.Execute | main/src/strand.cpp:236-377 | one command as a whole: its steps, its position, and its settings, which stay in force |
| Strands.Strand.Work | main/src/strand.cpp:225-384 | however commands arriving and commands executed interleave, the motor is at rest after each, the step position is where it started plus the moves of the commands received, and the position is their last absolute target |
| Strands.SineTaken | main/src/net.c:920-949 | whatever part of a sine the strand receives from an empty queue, it can execute, and its steps drift by less than three |
| Strands.Strand.Oscillate | main/src/net.c:913-957 | a sine offered to an empty queue while the strand works moves the motor by less than three steps more or less than 22.6 times the change of position, and ends at the centre, or the nearer end of the range, if its last command is executed |
| Strands.Strand.Drain | main/src/strand.cpp:234-384 | draining the queue moves by the sum of the moves and ends at the last absolute target, at rest |
| Strands.TravelFacts | main/src/strand.cpp:296-296 | the motion loop's condition is false exactly when the motor is at rest on the target |
| Reachable.RootBounds | main/libraries/AccelStepper/AccelStepper.cpp:292-292 | for an acceleration of 1 to 2^31 the first interval is between a microsecond and a second |
| CommandLines.TokensOfSpaced | main/src/net.c:354-375 | splitting recovers the words however many spaces separate them |
| CommandLines.Strtok | main/src/net.c:354-375 | in place, the first remaining word is ended and the rest is left as it was |
| CommandLines.AtoiOfWritten | main/src/net.c:363-367 | a number is read back as it was written in decimal, up to the first character that is no digit |
| CommandLines.AtoiAfterBlanks | main/src/net.c:363-367 | blanks before a number do not count |
| CommandLines.AtoiAfterPlus | main/src/net.c:363-367 | nor does a plus sign |
| CommandLines.NumberRead | main/src/net.c:354-367 | the number at the head of a UDP message is the one it is compared by |
| CommandLines.CommandReader.GetCommandLine | main/src/net.c:348-379 | the command line holds exactly the words after the number, later entries untouched; on a repeated number its first entry is the mark |
| CommandLines.CommandReader.Accept | main/src/net.c:1031-1039 | the message is executed exactly if it does not repeat the number before it and the command line does not begin with the mark; if executed, the line holds its words before those left over |
| CommandLines.DuplicatesDropped | main/src/net.c:46-46 | over a whole run a UDP message is executed if and only if its number differs from that of the UDP message before it, initially 1, and it brings a command or, as a bare number, follows an executed message or none |
| CommandLines.NumbersCompared | main/src/net.c:354-379 | the same in terms of the numbers written at the heads of the messages |
| CommandLines.BareNumberDropped | main/src/net.c:1031-1039 | a bare fresh number after a repeated message is dropped |

## Left out

- Floating-point rounding, and overflow of `long` and `unsigned long` values other than the clock's: exact reals and unbounded integers instead.
- Parameter ranges: intervals are kept at one microsecond or more (maximum speeds up to one million steps a second, accelerations up to about 9.1e11); below that the library's interval truncates to zero and the motor never moves.
- Reachable.AlwaysCoherent: starts from, and allows, only parameters in these ranges.
- AccelSteppers.AccelStepper.SetMaxSpeed: not for a speed of 0, for which the library divides by zero; likewise Strands.Strand.Execute for a maximum speed of 0 or a type 2 command with time 0.
- Stopping.RampLands: with two or more steps to spare the motor accelerates again instead of staying on the ramp; from there Settling.Settles says that it ends on its target.
- STOP_BIT handling and its position bookkeeping (main/src/strand.cpp:322-353): a stopped move leaves the position ledger.
- Changing the acceleration in mid-move: covered by coherence only, not by the reversal and settling theorems, since Equation 17 truncates the counter.
- Mixing setSpeed with run: covered by coherence only.
- Strands.Strand.Drain: no commands arrive while the queue is drained; with arrivals it is Strands.Strand.Work.
- Strands.SineTask: sine_wave_task sends the same commands after a delay computed from a distance and is not repeated.
- Storing the position in flash (`setPramamter`, `saveParamters`), the solenoid and the driver chip.
- Interfaces other than DRIVER, enable pins and pulse widths.
- CommandLines.CommandReader.GetCommandLine: messages with more than 40 words, words of 50 characters or more, no number, or no room for the mark overrun C buffers or dereference null and are excluded.
- The commands behind the duplicate filter other than motion, and the network, update and storage tasks.
