/**
  The AccelStepper class with the DRIVER interface.  Each method is proved to have exactly the
  effect of the function of the same name in module Motion, and to keep the pulse ledger; the
  blocking runs are proved to return at rest on the target.
 */
module AccelSteppers {
  import opened Integers
  import opened Ramp
  import opened Motion
  import opened Profile
  import opened Reachable
  import opened Settling
  import opened Pulses

  /** The value of micros(): an unsigned 32-bit counter that wraps. */
  type Micros = t: nat | t < 0x1_0000_0000

  /** Unsigned subtraction of two readings. */
  function Elapsed(now: Micros, last: Micros): nat {
    (now - last) % 0x1_0000_0000
  }

  /** A clock polled often enough: every wait of up to limit microseconds is eventually seen to be over. */
  ghost predicate Live(clock: nat -> Micros, limit: nat) {
    forall i: nat, last: Micros :: SeenLater(clock, i, last, limit)
  }

  ghost predicate SeenLater(clock: nat -> Micros, i: nat, last: Micros, limit: nat) {
    exists j: nat :: j >= i && Elapsed(clock(j), last) >= limit
  }

  lemma NextDue(clock: nat -> Micros, i: nat, last: Micros, limit: nat) returns (j: nat)
    requires Live(clock, limit)
    ensures j >= i && Elapsed(clock(j), last) >= limit
  {
    assert SeenLater(clock, i, last, limit);
    j :| j >= i && Elapsed(clock(j), last) >= limit;
  }

  /** The reading of micros() at a true time. */
  function Reading(t: nat): Micros {
    t % 0x1_0000_0000
  }

  /** Two readings less than 2^32 microseconds apart give the true time between them, also when the counter has wrapped in between. */
  lemma ElapsedTime(t: nat, t': nat)
    requires t <= t' < t + 0x1_0000_0000
    ensures Elapsed(Reading(t'), Reading(t)) == t' - t
  {
    var q, q' := t / 0x1_0000_0000, t' / 0x1_0000_0000;
    RemainderUnique(Reading(t') - Reading(t), q - q', t' - t, 0x1_0000_0000);
  }

  /** The time from an earlier reading grows with the clock as long as it stays below 2^32. */
  lemma ElapsedLater(t: nat, t': nat, last: Micros)
    requires t <= t' && Elapsed(Reading(t), last) + (t' - t) < 0x1_0000_0000
    ensures Elapsed(Reading(t'), last) == Elapsed(Reading(t), last) + (t' - t)
  {
    var w := 0x1_0000_0000;
    var x := Elapsed(Reading(t), last);
    var q, q', p := t / w, t' / w, (Reading(t) - last) / w;
    assert Reading(t) - last == p * w + x;
    RemainderUnique(Reading(t') - last, p + q - q', x + (t' - t), w);
  }

  /** Clock times that never go back, leave no more than gap microseconds between two readings, and go on for ever. */
  ghost predicate Polls(time: nat -> nat, gap: nat) {
    && (forall i: nat :: time(i) <= time(i + 1) <= time(i) + gap)
    && (forall t: nat :: Comes(time, t))
  }

  ghost predicate Comes(time: nat -> nat, t: nat) {
    exists j: nat :: time(j) >= t
  }

  /** The first reading at or after time t. */
  lemma {:induction false} FirstReading(time: nat -> nat, i: nat, t: nat, j: nat) returns (k: nat)
    requires (forall i: nat :: time(i) <= time(i + 1)) && time(i) < t <= time(j)
    ensures k > i && time(k - 1) < t <= time(k)
    decreases if j > i then j - i else i - j
  {
    if j <= i {
      NeverBack(time, j, i);
      assert false;
    }
    if time(j - 1) < t {
      k := j;
    } else {
      k := FirstReading(time, i, t, j - 1);
    }
  }

  lemma {:induction false} NeverBack(time: nat -> nat, i: nat, j: nat)
    requires (forall i: nat :: time(i) <= time(i + 1)) && i <= j
    ensures time(i) <= time(j)
    decreases j - i
  {
    if i < j {
      NeverBack(time, i, j - 1);
      assert time(j - 1) <= time(j - 1 + 1);
    }
  }

  /** A clock read often enough sees every wait come to its end: the readings may leave gaps of up to 2^32 microseconds less the wait. */
  lemma PollingIsLive(time: nat -> nat, gap: nat, clock: nat -> Micros, limit: nat)
    requires Polls(time, gap) && limit + gap <= 0x1_0000_0000
    requires forall i: nat :: clock(i) == Reading(time(i))
    ensures Live(clock, limit)
  {
    forall i: nat, last: Micros ensures SeenLater(clock, i, last, limit) {
      var x := Elapsed(Reading(time(i)), last);
      if x < limit {
        var t := time(i) + (limit - x);
        assert Comes(time, t);
        var j: nat :| time(j) >= t;
        var k := FirstReading(time, i, t, j);
        assert time(k - 1) <= time(k - 1 + 1) <= time(k - 1) + gap;
        NeverBack(time, i, k);
        ElapsedLater(time(i), time(k), last);
        assert Elapsed(clock(k), last) >= limit;
      } else {
        assert Elapsed(clock(i), last) >= limit;
      }
    }
  }

  /** There is such a clock for exactly the waits that 32 bits can measure. */
  lemma LiveExactly(limit: nat)
    ensures (exists clock: nat -> Micros :: Live(clock, limit)) <==> limit < 0x1_0000_0000
  {
    if limit < 0x1_0000_0000 {
      var time: nat -> nat, clock: nat -> Micros := i => i, i => Reading(i);
      forall t: nat ensures Comes(time, t) {
        assert time(t) >= t;
      }
      PollingIsLive(time, 1, clock, limit);
    } else {
      forall clock: nat -> Micros ensures !Live(clock, limit) {
        assert !SeenLater(clock, 0, 0, limit);
      }
    }
  }

  class AccelStepper {
    var currentPos: int
    var targetPos: int
    var speed: real
    var maxSpeed: real
    var acceleration: real
    var stepInterval: int
    var lastStepTime: Micros
    var direction: Direction
    var n: int
    var c0: real
    var cn: real
    var cmin: real

    const stepPin: nat
    const dirPin: nat
    var stepInverted: bool
    var dirInverted: bool

    /** Everything written to the output pins so far. */
    var port: seq<Write>

    // Since the last setCurrentPosition or setPinsInverted: where the motor was, how long the port log was, and the steps made.
    ghost var origin: int
    ghost var mark: nat
    ghost var steps: seq<Direction>

    ghost function State(): Motor
      reads this
    {
      Motor(currentPos, targetPos, speed, maxSpeed, acceleration, stepInterval, direction, n, c0, cn, cmin)
    }

    lemma StateFields()
      ensures State().currentPos == currentPos && State().targetPos == targetPos && State().speed == speed
      ensures State().direction == direction && State().stepInterval == stepInterval
      ensures State().maxSpeed == maxSpeed && State().acceleration == acceleration
    {}

    ghost function Wires(): Wiring
      reads this`stepInverted, this`dirInverted
    {
      Wiring(stepPin, dirPin, stepInverted, dirInverted)
    }

    /** The port log since the mark is the pulse train of the steps made, and they account for the position. */
    ghost predicate Balanced()
      reads this`port, this`mark, this`stepInverted, this`dirInverted, this`steps, this`currentPos, this`origin
    {
      mark <= |port| && port[mark..] == Train(Wires(), steps) && currentPos == origin + Net(steps)
    }

    ghost predicate Valid()
      reads this
    {
      State().Valid() && Wires().Valid() && Balanced()
    }

    ghost predicate Due(now: Micros)
      reads this
    {
      stepInterval != 0 && Elapsed(now, lastStepTime) >= stepInterval
    }

    /** In true time: a step is due when the interval has passed since the last one, whether or not the counter has wrapped. */
    lemma DueInTime(t: nat, t': nat)
      requires lastStepTime == Reading(t) && t <= t' < t + 0x1_0000_0000
      ensures Due(Reading(t')) <==> stepInterval != 0 && t' - t >= stepInterval
    {
      ElapsedTime(t, t');
    }

    constructor (stepPin: nat, dirPin: nat, root: real)
      requires stepPin != dirPin && IsRoot(root, 1.0)
      ensures Valid() && State() == BLANK.SetAcceleration(1.0, root)
      ensures lastStepTime == 0 && !stepInverted && !dirInverted && port == [] && steps == []
    {
      this.stepPin, this.dirPin := stepPin, dirPin;
      currentPos, targetPos := 0, 0;
      speed, maxSpeed, acceleration := 0.0, 1.0, 0.0;
      stepInterval, lastStepTime := 0, 0;
      n, c0, cn, cmin := 0, 0.0, 0.0, 1.0;
      direction := CCW;
      stepInverted, dirInverted := false, false;
      port, origin, mark, steps := [], 0, 0, [];
      new;
      SetAccelerationFrom(1.0, root);
    }

    method SetPinsInverted(directionInvert: bool, stepInvert: bool)
      requires Valid()
      modifies this
      ensures Valid() && State() == old(State()) && lastStepTime == old(lastStepTime) && port == old(port)
      ensures stepInverted == stepInvert && dirInverted == directionInvert && steps == []
    {
      stepInverted, dirInverted := stepInvert, directionInvert;
      origin, mark, steps := currentPos, |port|, [];
    }

    /** The first half of computeNewSpeed: whether to go on, to start braking or to accelerate again. */
    method PlanCount(distanceTo: int, stepsToStop: int)
      requires Valid() && distanceTo == State().DistanceToGo() && stepsToStop == State().StepsToStop()
      modifies this`n
      ensures Valid() && State() == old(State()).(n := old(State()).PlannedCount())
    {
      hide Motor.StepsToStop, Balanced, Wiring.Valid;
      if distanceTo > 0 {
        if n > 0 {
          if stepsToStop >= distanceTo || direction == CCW {
            n := -stepsToStop;
          }
        } else if n < 0 {
          if stepsToStop < distanceTo && direction == CW {
            n := -n;
          }
        }
      } else if distanceTo < 0 {
        if n > 0 {
          if stepsToStop >= -distanceTo || direction == CW {
            n := -stepsToStop;
          }
        } else if n < 0 {
          if stepsToStop < -distanceTo && direction == CCW {
            n := -n;
          }
        }
      }
    }

    /** The second half of computeNewSpeed: the interval and speed of the next step. */
    method TakeInterval(distanceTo: int)
      requires Valid() && distanceTo == State().DistanceToGo()
      modifies this`stepInterval, this`speed, this`n, this`cn, this`direction
      ensures Valid() && State() == old(State()).TakeInterval()
    {
      PositiveParameters(State());
      hide NextInterval, Trunc, StepRate, Motor.Valid, Balanced, Wiring.Valid;
      if n == 0 {
        cn := c0;
        direction := if distanceTo > 0 then CW else CCW;
      } else {
        cn := NextInterval(cn, n);
        cn := Max(cn, cmin);
      }
      n := n + 1;
      stepInterval := Trunc(cn);
      speed := StepRate(cn);
      if direction == CCW {
        speed := -speed;
      }
    }

    method ComputeNewSpeed()
      requires Valid()
      modifies this`stepInterval, this`speed, this`n, this`cn, this`direction
      ensures Valid() && State() == old(State()).ComputeNewSpeed()
    {
      PositiveParameters(State());
      hide Energy, NextInterval, Trunc, Motor.Valid, Balanced, Wiring.Valid, Motor.PlannedCount, Motor.TakeInterval;
      var distanceTo := targetPos - currentPos;
      var stepsToStop := Trunc(Energy(speed, acceleration));
      if distanceTo == 0 && stepsToStop <= 1 {
        stepInterval := 0;
        speed := 0.0;
        n := 0;
        return;
      }
      PlanCount(distanceTo, stepsToStop);
      TakeInterval(distanceTo);
    }

    method MoveTo(absolute: int)
      requires Valid()
      modifies this`targetPos, this`stepInterval, this`speed, this`n, this`cn, this`direction
      ensures Valid() && State() == old(State()).MoveTo(absolute)
    {
      if targetPos != absolute {
        targetPos := absolute;
        ComputeNewSpeed();
      }
    }

    method Move(relative: int)
      requires Valid()
      modifies this`targetPos, this`stepInterval, this`speed, this`n, this`cn, this`direction
      ensures Valid() && State() == old(State()).Move(relative)
    {
      MoveTo(currentPos + relative);
    }

    method Stop()
      requires Valid()
      modifies this`targetPos, this`stepInterval, this`speed, this`n, this`cn, this`direction
      ensures Valid() && State() == old(State()).Stop()
    {
      if speed != 0.0 {
        var stepsToStop := Trunc(Energy(speed, acceleration)) + 1;
        if speed > 0.0 {
          Move(stepsToStop);
        } else {
          Move(-stepsToStop);
        }
      }
    }

    method SetCurrentPosition(position: int)
      requires Valid()
      modifies this`currentPos, this`targetPos, this`n, this`stepInterval, this`speed, this`origin, this`mark, this`steps
      ensures Valid() && State() == old(State()).SetCurrentPosition(position)
      ensures steps == []
    {
      hide Motor.Valid, Wiring.Valid, Train, Net;
      TrainOfNothing(Wires());
      targetPos, currentPos := position, position;
      n := 0;
      stepInterval := 0;
      speed := 0.0;
      origin, mark, steps := currentPos, |port|, [];
      assert State() == old(State()).SetCurrentPosition(position);
    }

    method SetMaxSpeed(newSpeed: real)
      requires Valid() && newSpeed != 0.0
      modifies this`maxSpeed, this`cmin, this`stepInterval, this`speed, this`n, this`cn, this`direction
      ensures Valid() && State() == old(State()).SetMaxSpeed(newSpeed)
    {
      var v := if newSpeed < 0.0 then -newSpeed else newSpeed;
      if maxSpeed != v {
        maxSpeed := v;
        cmin := MICROS / v;
        if n > 0 {
          n := Trunc(Energy(speed, acceleration));
          ComputeNewSpeed();
        }
      }
    }

    /** root is the value of sqrt(2 / |newAcceleration|). */
    method SetAcceleration(newAcceleration: real, root: real)
      requires Valid() && (newAcceleration != 0.0 ==> IsRoot(root, Abs(newAcceleration)))
      modifies this`c0, this`acceleration, this`stepInterval, this`speed, this`n, this`cn, this`direction
      ensures Valid() && State() == old(State()).SetAcceleration(newAcceleration, root)
    {
      SetAccelerationFrom(newAcceleration, root);
    }

    /** setAcceleration, also from the constructor's blank state. */
    method SetAccelerationFrom(newAcceleration: real, root: real)
      requires Wires().Valid() && Balanced()
      requires State().Valid() || (maxSpeed > 0.0 && cmin > 0.0 && acceleration == 0.0 && newAcceleration != 0.0)
      requires newAcceleration != 0.0 ==> IsRoot(root, Abs(newAcceleration))
      modifies this`c0, this`acceleration, this`stepInterval, this`speed, this`n, this`cn, this`direction
      ensures Valid() && State() == old(State()).SetAcceleration(newAcceleration, root)
    {
      if newAcceleration == 0.0 {
        return;
      }
      var a := if newAcceleration < 0.0 then -newAcceleration else newAcceleration;
      if acceleration != a {
        hide Motor.ComputeNewSpeed, Balanced, Wiring.Valid, RescaledCount, Motor.Valid;
        n := RescaledCount(n, acceleration, a);
        c0 := 0.676 * root * 1000000.0;
        acceleration := a;
        assert State() == old(State()).WithAcceleration(a, root);
        ComputeNewSpeed();
      }
    }

    method SetSpeed(newSpeed: real)
      requires Valid()
      modifies this`stepInterval, this`speed, this`direction
      ensures Valid() && State() == old(State()).SetSpeed(newSpeed)
    {
      if newSpeed == speed {
        return;
      }
      var v := Constrain(newSpeed, -maxSpeed, maxSpeed);
      if v == 0.0 {
        stepInterval := 0;
      } else {
        stepInterval := Trunc(Abs(MICROS / v));
        direction := if v > 0.0 then CW else CCW;
      }
      speed := v;
    }

    method SetOutputPins(mask: bv8)
      modifies this`port
      ensures port == old(port) + OutputPins(Wires(), mask)
    {
      var i := 0;
      while i < 2
        invariant 0 <= i <= 2
        invariant port == old(port) + OutputPins(Wires(), mask)[..i]
      {
        var pin, inverted := if i == 0 then stepPin else dirPin, if i == 0 then stepInverted else dirInverted;
        port := port + [Write(pin, BitSet(mask, i) != inverted)];
        i := i + 1;
      }
    }

    /** One step on a stepper driver; only the DRIVER interface is modelled. */
    method Step1()
      modifies this`port
      ensures port == old(port) + StepPulse(Wires(), direction)
    {
      SetOutputPins(if direction == CW then 2 else 0);
      SetOutputPins(if direction == CW then 3 else 1);
      SetOutputPins(if direction == CW then 2 else 0);
    }

    /** The ledger entry for the step just made. */
    ghost method RecordStep()
      requires mark + |StepPulse(Wires(), direction)| <= |port|
      requires var before := port[..|port| - |StepPulse(Wires(), direction)|];
        && port == before + StepPulse(Wires(), direction)
        && before[mark..] == Train(Wires(), steps)
      requires currentPos == origin + Net(steps) + Sign(direction)
      modifies this`steps
      ensures Balanced() && steps == old(steps) + [direction]
    {
      TrainGrows(Wires(), steps, direction);
      var before := port[..|port| - |StepPulse(Wires(), direction)|];
      assert port[mark..] == before[mark..] + StepPulse(Wires(), direction);
      steps := steps + [direction];
    }

    method RunSpeed(now: Micros) returns (stepped: bool)
      requires Valid()
      modifies this`currentPos, this`port, this`lastStepTime, this`steps
      ensures Valid() && stepped == old(Due(now))
      ensures State() == if stepped then old(State()).Stepped() else old(State())
      ensures State() == Apply(old(State()), Op.RunSpeed(stepped))
      ensures steps == if stepped then old(steps) + [direction] else old(steps)
      ensures lastStepTime == if stepped then now else old(lastStepTime)
      ensures port == if stepped then old(port) + StepPulse(Wires(), direction) else old(port)
    {
      hide Motor.Valid, Wiring.Valid, StepPulse, Train, Net;
      if stepInterval == 0 {
        return false;
      }
      if Elapsed(now, lastStepTime) >= stepInterval {
        if direction == CW {
          currentPos := currentPos + 1;
        } else {
          currentPos := currentPos - 1;
        }
        Step1();
        lastStepTime := now;
        RecordStep();
        assert State() == old(State()).Stepped();
        return true;
      } else {
        return false;
      }
    }

    method Run(now: Micros) returns (running: bool)
      requires Valid()
      modifies this`currentPos, this`port, this`lastStepTime, this`steps, this`stepInterval, this`speed, this`n, this`cn, this`direction
      ensures Valid()
      ensures State() == if old(Due(now)) then old(State()).RunDue() else old(State())
      ensures State() == Apply(old(State()), Op.Run(old(Due(now))))
      ensures steps == if old(Due(now)) then old(steps) + [old(direction)] else old(steps)
      ensures lastStepTime == if old(Due(now)) then now else old(lastStepTime)
      ensures port == if old(Due(now)) then old(port) + StepPulse(Wires(), old(direction)) else old(port)
      ensures running <==> speed != 0.0 || targetPos != currentPos
    {
      hide Motor.Valid, Wiring.Valid, StepPulse, Balanced, Motor.ComputeNewSpeed;
      var stepped := RunSpeed(now);
      if stepped {
        ComputeNewSpeed();
      }
      running := speed != 0.0 || targetPos - currentPos != 0;
    }

    /** One turn of a polling loop: a call of run() after done of the k steps from was. */
    method Poll(now: Micros, ghost was: Motor, ghost turn: nat, ghost k: nat, ghost done: nat, ghost limit: nat)
      returns (running: bool, ghost done': nat)
      requires Valid() && Coherent(was) && SettlesIn(was, turn, k) && Timed(was, limit)
      requires done <= k && State() == After(was, done)
      modifies this`currentPos, this`port, this`lastStepTime, this`steps, this`stepInterval, this`speed, this`n, this`cn, this`direction
      ensures Valid() && done <= done' <= k && State() == After(was, done')
      ensures steps == old(steps) + if done' == done then [] else [After(was, done).direction]
      ensures done' == done ==> lastStepTime == old(lastStepTime)
      ensures done' <= done + 1
      ensures done < k && Elapsed(now, old(lastStepTime)) >= limit ==> done' == done + 1
      ensures running <==> done' < k
    {
      RunFacts(was, turn, k, done, limit);
      assert done == k ==> stepInterval == 0;
      done' := if Due(now) then done + 1 else done;
      hide *;
      running := Run(now);
      RunFacts(was, turn, k, done', limit);
    }

    /**
      Blocks until the motor is at rest on the target.  clock gives the successive readings of
      micros(), the first of them number start.  The ghost results say how many steps were made, and
      before which of them the motor turned around if it had to.  Every safe state has a limit
      (SettlesTimed), and an approach one that its settings give (ApproachTimed).
     */
    method RunToPosition(clock: nat -> Micros, start: nat, ghost limit: nat)
      returns (readings: nat, ghost turn: nat, ghost k: nat)
      requires Valid() && Coherent(State()) && Safe(State())
      requires Live(clock, limit) && Timed(State(), limit)
      modifies this`currentPos, this`port, this`lastStepTime, this`steps, this`stepInterval, this`speed, this`n, this`cn, this`direction
      ensures Valid() && Coherent(State()) && AtRest(State())
      ensures SettlesIn(old(State()), turn, k) && State() == After(old(State()), k)
      ensures steps == old(steps) + Directions(old(State()), k)
      ensures old(Approaching(State())) ==> turn == 0 && k == old(State().Ahead())
    {
      hide *;
      ghost var was := State();
      SafeStart(was);
      turn, k := Settles(was);
      ghost var done: nat := 0;
      ghost var due: nat := NextDue(clock, start, lastStepTime, limit);
      readings := start;
      var running := true;
      while running
        invariant Valid() && done <= k && (done < k ==> readings <= due)
        invariant State() == After(was, done)
        invariant steps == old(steps) + Directions(was, done)
        invariant Elapsed(clock(due), lastStepTime) >= limit
        invariant done < k ==> running
        decreases k - done + if running then 1 else 0, due - readings
      {
        ghost var before := done;
        MoreDirections(was, done);
        running, done := Poll(clock(readings), was, turn, k, done, limit);
        if done > before {
          due := NextDue(clock, readings + 1, lastStepTime, limit);
        }
        readings := readings + 1;
      }
      RunFacts(was, turn, k, done, limit);
    }

    /** Blocks until the motor is at rest on the new target. */
    method RunToNewPosition(position: int, clock: nat -> Micros, start: nat, ghost limit: nat)
      returns (readings: nat, ghost turn: nat, ghost k: nat)
      requires Valid() && Coherent(State()) && Safe(State())
      requires Live(clock, limit) && Timed(State().MoveTo(position), limit)
      modifies this`currentPos, this`targetPos, this`port, this`lastStepTime, this`steps, this`stepInterval, this`speed, this`n, this`cn, this`direction
      ensures Valid() && Coherent(State()) && AtRest(State()) && currentPos == position
      ensures SettlesIn(old(State()).MoveTo(position), turn, k) && State() == After(old(State()).MoveTo(position), k)
      ensures steps == old(steps) + Directions(old(State()).MoveTo(position), k)
      ensures old(AtRest(State())) ==> k == Distance(old(currentPos), position)
    {
      ghost var was := State();
      hide *;
      StateFields();
      RetargetedState(was, position);
      MoveTo(position);
      readings, turn, k := RunToPosition(clock, start, limit);
      SettledOn(was, position, turn, k);
      StateFields();
    }

    method RunSpeedToPosition(now: Micros) returns (stepped: bool)
      requires Valid()
      modifies this`currentPos, this`port, this`lastStepTime, this`steps, this`direction
      ensures Valid()
      ensures stepped <==> old(Due(now)) && old(targetPos != currentPos)
      ensures State() == if stepped then old(State()).FacingTarget().Stepped() else old(State()).FacingTarget()
      ensures steps == if stepped then old(steps) + [direction] else old(steps)
    {
      if targetPos == currentPos {
        return false;
      }
      if targetPos > currentPos {
        direction := CW;
      } else {
        direction := CCW;
      }
      stepped := RunSpeed(now);
    }
  }
}
