/**
  stop() while the motor is already braking.  The library documents stop() as stopping "as quickly
  as possible"; from the deceleration ramp it can instead speed the motor up and make it overrun
  the target it has just set.  This module says exactly when.
 */
module Stopping {
  import opened Ramp
  import opened Motion
  import opened Profile
  import opened Shape
  import opened Settling

  /** On the ramp, but with more steps to stop than there are to the target. */
  ghost predicate Overrunning(m: Motor) {
    OnRamp(m) && m.Ahead() >= 1 && -m.n > m.Ahead()
  }

  lemma OverrunningStep(m: Motor)
    requires Overrunning(m)
    ensures m.RunDue().speed != 0.0
    ensures m.Ahead() > 1 ==> Overrunning(m.RunDue()) && m.RunDue().Ahead() == m.Ahead() - 1
  {
    hide Energy, NextInterval, Trunc;
    var s := m.Stepped();
    StepsAhead(m);
    StepsToStopIsFloor(s);
    if m.Ahead() > 1 {
      PlannedTowards(s);
    }
    RampUpdate(s);
    ComputeKeepsParameters(s);
    InStrideEnergy(s.ComputeNewSpeed());
  }

  /** An overrunning motor reaches its target still moving. */
  lemma {:induction false} OverrunMisses(m: Motor, k: nat)
    requires Overrunning(m) && k <= m.Ahead()
    ensures k < m.Ahead() ==> Overrunning(After(m, k)) && After(m, k).Ahead() == m.Ahead() - k
    ensures k == m.Ahead() ==> After(m, k).speed != 0.0
  {
    hide Energy, NextInterval, Trunc, Motor.ComputeNewSpeed, Motor.RunDue, InStride;
    if k > 0 {
      OverrunMisses(m, k - 1);
      OverrunningStep(After(m, k - 1));
    }
  }

  /** On the ramp with at most one step to spare, the motor lands on its target exactly when it has no more steps to stop than steps to go. */
  lemma RampLands(m: Motor)
    requires OnRamp(m) && m.Ahead() >= 1 && -m.n >= m.Ahead() - 1
    ensures Lands(m, m.Ahead()) <==> -m.n <= m.Ahead()
  {
    hide Energy, NextInterval, Trunc, Motor.ComputeNewSpeed, Motor.RunDue, InStride;
    if m.n == 0 {
      LastStepLands(m);
    } else if -m.n <= m.Ahead() {
      ShorterThanFirst(m);
      assert Braking(m);
      ApproachLands(m);
    } else {
      OverrunMisses(m, m.Ahead());
    }
  }

  /** Slower than one step of stopping distance, one step before the target. */
  lemma LastStepLands(m: Motor)
    requires m.Valid() && InStride(m) && m.Ahead() == 1 && m.E() < 1.0
    ensures Lands(m, 1)
  {
    hide Energy, NextInterval, Trunc;
    InStrideEnergy(m);
    var s := m.Stepped();
    StepsAhead(m);
    StepsToStopIsFloor(s);
    NextAfter(m, 0);
    AfterNone(m);
  }

  // ---------------------------------------------------------------- running past the target

  /** On the ramp, with more steps to stop than there are to the target; the target may be behind the motor already. */
  ghost predicate Beyond(m: Motor) {
    OnRamp(m) && -m.n > m.Ahead()
  }

  /** With steps to stop left, a motor beyond goes on down the ramp, across its target as well. */
  lemma BeyondStep(m: Motor)
    requires Beyond(m) && m.n < 0
    ensures Beyond(m.RunDue()) && m.RunDue().n == m.n + 1 && m.RunDue().Ahead() == m.Ahead() - 1
    ensures m.RunDue().direction == m.direction && m.RunDue().currentPos == m.currentPos + Sign(m.direction)
    ensures m.speed != 0.0
  {
    hide Energy, NextInterval, Trunc, Motor.PlannedCount;
    var s := m.Stepped();
    StepsAhead(m);
    StepsToStopIsFloor(s);
    PlanByAhead(s);
    InStrideEnergy(m);
    ComputeKeepsParameters(s);
    RampUpdate(s);
  }

  /** At the end of the ramp it turns around, and approaches the target from the other side. */
  lemma BeyondTurns(m: Motor)
    requires Beyond(m) && m.n == 0
    ensures m.speed != 0.0 && Approaching(m.RunDue()) && m.RunDue().direction != m.direction
    ensures m.RunDue().currentPos == m.currentPos + Sign(m.direction) && m.RunDue().Ahead() == 1 - m.Ahead()
  {
    hide Energy, NextInterval, Trunc, Motor.PlannedCount;
    var s := m.Stepped();
    StepsAhead(m);
    StepsToStopIsFloor(s);
    PlanByAhead(s);
    InStrideEnergy(m);
    ComputeKeepsParameters(s);
    RestartApproaches(s);
    RestartsTowards(s);
  }

  lemma RestartsTowards(s: Motor)
    requires s.Valid() && s.n == 0 && s.Ahead() < 0
    ensures s.ComputeNewSpeed().Ahead() == -s.Ahead() && s.ComputeNewSpeed().direction != s.direction
  {
    hide Energy, NextInterval, Trunc, StepRate;
  }

  /**
    The overrun, step by step: all the way down the ramp the counter goes up by one a step and
    stays minus the stopping distance, the direction stays, and every step is one step on.
   */
  lemma {:induction false} RampRunsOut(m: Motor, k: nat)
    requires Beyond(m) && k <= -m.n
    ensures Beyond(After(m, k)) && OnRamp(After(m, k)) && After(m, k).n == m.n + k
    ensures After(m, k).direction == m.direction && After(m, k).currentPos == m.currentPos + k * Sign(m.direction)
    ensures After(m, k).Ahead() == m.Ahead() - k && After(m, k).speed != 0.0
  {
    hide *;
    BeyondMoves(m);
    if k > 0 {
      RampRunsOut(m, k - 1);
      NextAfter(m, k - 1);
      BeyondStep(After(m, k - 1));
      BeyondMoves(After(m, k));
      OneFurther(m.currentPos, k, Sign(m.direction));
    } else {
      AfterNone(m);
    }
  }

  lemma OneFurther(p: int, k: int, d: int)
    ensures p + (k - 1) * d + d == p + k * d
  {}

  lemma BeyondMoves(m: Motor)
    requires Beyond(m)
    ensures m.speed != 0.0 && OnRamp(m) && m.Valid()
  {
    InStrideEnergy(m);
  }

  /**
    How a motor beyond ends: it turns around at step 1 - n, exactly 1 - n - Ahead() steps
    past its target, and comes back to rest on it by the shortest way.
   */
  lemma TurnsPast(m: Motor)
    requires Beyond(m)
    ensures m.Valid() && (forall k: nat | k < 1 - m.n :: After(m, k).direction == m.direction)
    ensures After(m, 1 - m.n).direction != m.direction
    ensures After(m, 1 - m.n).currentPos == m.targetPos + (1 - m.n - m.Ahead()) * Sign(m.direction)
    ensures SettlesIn(m, 1 - m.n, 2 * (1 - m.n) - m.Ahead())
  {
    BeyondMoves(m);
    BeyondCount(m);
    PastTarget(m, 1 - m.n);
    hide *;
    forall k: nat | k < 1 - m.n ensures After(m, k).direction == m.direction {
      RampRunsOut(m, k);
    }
    RampRunsOut(m, -m.n);
    NextAfter(m, -m.n);
    BeyondTurns(After(m, -m.n));
    PastSettles(m);
  }

  lemma {:induction false} PastSettles(m: Motor)
    requires Beyond(m)
    ensures m.Valid() && m.n <= 0 && -m.n > m.Ahead() && SettlesIn(m, 1 - m.n, 2 * (1 - m.n) - m.Ahead())
    decreases -m.n
  {
    BeyondMoves(m);
    BeyondCount(m);
    hide *;
    var m' := m.RunDue();
    if m.n < 0 {
      BeyondStep(m);
      PastSettles(m');
      RunLater(m, 1 - m'.n, 2 * (1 - m'.n) - m'.Ahead());
    } else {
      BeyondTurns(m);
      ApproachRun(m');
      RunLater(m, 0, m'.Ahead());
    }
  }

  lemma BeyondCount(m: Motor)
    requires Beyond(m)
    ensures m.n <= 0 && -m.n > m.Ahead()
  {}

  /** k steps on is k - Ahead() steps past the target. */
  lemma PastTarget(m: Motor, k: int)
    ensures m.targetPos + (k - m.Ahead()) * Sign(m.direction) == m.currentPos + k * Sign(m.direction)
  {}

  /**
    With k steps to stop left: would one accelerating update take the stopping distance to k + 2?
    A caller can tell from the speed, the step counter and the maximum speed.
   */
  ghost predicate WouldOverrun(m: Motor, k: int)
    requires m.Valid()
  {
    var r := k as real;
    && m.E() * ((4.0 * r + 1.0) * (4.0 * r + 1.0)) >= (r + 2.0) * ((4.0 * r - 1.0) * (4.0 * r - 1.0))
    && Energy(MICROS / m.cmin, m.acceleration) >= r + 2.0
  }

  lemma SameThreshold(m: Motor, t: int, k: int)
    requires m.Valid()
    ensures WouldOverrun(m.(targetPos := t), k) == WouldOverrun(m, k)
  {
    hide Energy;
  }

  /** Braking with exactly as many steps to stop as there are to the target: stop() re-accelerates. */
  lemma StopReaccelerates(m: Motor, k: int)
    requires Braking(m) && k == -m.n == m.Ahead() >= 1
    ensures var m' := m.Stop();
      && m'.Valid() && InStride(m') && m'.n == k + 1 && m'.Ahead() == k + 1 && m.cn >= m'.cn >= m'.cmin
      && m'.c0 == m.c0 && m'.cmin == m.cmin && m'.acceleration == m.acceleration
      && m'.direction == m.direction && m'.currentPos == m.currentPos
      && m.E() <= m'.E()
      && (WouldOverrun(m, k) <==> m'.StepsToStop() >= k + 2)
  {
    hide Energy, NextInterval, Trunc, InStride, WouldOverrun, Motor.Stop;
    StopTarget(m);
    StepsToStopIsFloor(m);
    var s := m.(targetPos := m.currentPos + Sign(m.direction) * (k + 1));
    Retargeted(m, s.targetPos);
    SameThreshold(m, s.targetPos, k);
    PlannedTowards(s);
    ComputeInStride(s);
    ComputeKeepsParameters(s);
    AcceleratingUpdate(s, k);
    StepsToStopIsFloor(s.ComputeNewSpeed());
    ReacceleratedEnergy(s, k);
  }

  lemma ReacceleratedEnergy(s: Motor, k: int)
    requires s.Valid() && InStride(s) && !s.Stops() && k == s.PlannedCount() >= 1 && s.cn >= s.cmin
    ensures s.E() <= s.ComputeNewSpeed().E()
    ensures WouldOverrun(s, k) <==> s.ComputeNewSpeed().E() >= k as real + 2.0
  {
    hide Energy, NextInterval, Trunc;
    var m' := s.ComputeNewSpeed();
    ComputeInStride(s);
    InStrideEnergy(s);
    InStrideEnergy(m');
    AcceleratingUpdate(s, k);
    SlowerHasLess(m'.cn, s.cn, s.acceleration);
    SlowerHasLess(s.cmin, m'.cn, s.acceleration);
    ThresholdCrossed(k as real, s.E(), m'.E(), Energy(MICROS / s.cmin, s.acceleration), m'.cn > s.cmin);
  }

  lemma SlowerHasLess(c: real, c': real, a: real)
    requires a > 0.0 && 0.0 < c <= c'
    ensures Energy(MICROS / c', a) <= Energy(MICROS / c, a)
  {
    EnergyRescaled(c, c', 1.0, 1.0, a);
  }

  lemma ThresholdCrossed(r: real, e: real, e': real, top: real, unclamped: bool)
    requires r >= 1.0 && e' <= top && (!unclamped ==> e' == top)
    requires e' * ((4.0 * r - 1.0) * (4.0 * r - 1.0)) <= e * ((4.0 * r + 1.0) * (4.0 * r + 1.0))
    requires unclamped ==> e' * ((4.0 * r - 1.0) * (4.0 * r - 1.0)) == e * ((4.0 * r + 1.0) * (4.0 * r + 1.0))
    ensures e' >= r + 2.0 <==>
      e * ((4.0 * r + 1.0) * (4.0 * r + 1.0)) >= (r + 2.0) * ((4.0 * r - 1.0) * (4.0 * r - 1.0)) && top >= r + 2.0
  {
    var gg, hh := Squares(4.0 * r - 1.0, 4.0 * r + 1.0);
    ThresholdBySquares(r + 2.0, e, e', top, unclamped, gg, hh);
  }

  lemma ThresholdBySquares(t: real, e: real, e': real, top: real, unclamped: bool, gg: real, hh: real)
    requires gg > 0.0 && e' <= top && (!unclamped ==> e' == top)
    requires e' * gg <= e * hh && (unclamped ==> e' * gg == e * hh)
    ensures e' >= t <==> e * hh >= t * gg && top >= t
  {
    if e' >= t { MulMono(t, e', gg); }
    if unclamped && e * hh >= t * gg { MulCancel(t, e', gg); }
  }

  lemma {:induction false} LandsLater(m: Motor, k: nat)
    requires m.Valid() && m.speed != 0.0
    requires m.RunDue().direction == m.direction
    ensures Lands(m, k + 1) <==> Lands(m.RunDue(), k)
  {
    hide Energy, NextInterval, Trunc, Motor.ComputeNewSpeed, Motor.RunDue, AtRest;
    forall i: nat ensures After(m, i + 1) == After(m.RunDue(), i) {
      AfterFirst(m, i);
    }
    assert RunDueMoves(m) by { RunDueIsOneStep(m); }
    if Lands(m.RunDue(), k) {
      forall i: nat | i <= k + 1 ensures After(m, i).currentPos == m.currentPos + i * Sign(m.direction) {
        if i > 0 { assert After(m, (i - 1) + 1) == After(m.RunDue(), i - 1); }
      }
      forall i: nat | i < k + 1 ensures After(m, i).speed != 0.0 {
        if i > 0 { assert After(m, (i - 1) + 1) == After(m.RunDue(), i - 1); }
      }
    }
    if Lands(m, k + 1) {
      forall i: nat | i <= k
        ensures After(m.RunDue(), i).currentPos == m.RunDue().currentPos + i * Sign(m.direction)
      {
        assert After(m, i + 1).currentPos == m.currentPos + (i + 1) * Sign(m.direction);
      }
      forall i: nat | i < k ensures After(m.RunDue(), i).speed != 0.0 {
        assert After(m, i + 1).speed != 0.0;
      }
    }
  }

  predicate RunDueMoves(m: Motor)
    requires m.Valid()
  {
    m.RunDue().currentPos == m.currentPos + Sign(m.direction)
  }

  lemma RunDueIsOneStep(m: Motor)
    requires m.Valid()
    ensures RunDueMoves(m)
  {
    ComputeKeepsParameters(m.Stepped());
  }

  /** After stop() has sent a braking motor accelerating again, it lands on its new target or overruns it. */
  lemma ReacceleratedLanding(m: Motor, k: int, m': Motor)
    requires Braking(m) && k == -m.n == m.Ahead() >= 1 && m' == m.Stop()
    ensures m'.Valid() && (Lands(m', k + 1) <==> !WouldOverrun(m, k))
  {
    StopReaccelerates(m, k);
    hide Energy, NextInterval, Trunc, WouldOverrun, Motor.Stop;
    var s := m'.Stepped();
    StepsAhead(m');
    StepsToStopIsFloor(s);
    StepsToStopIsFloor(m);
    PlannedTowards(s);
    RampEntry(s);
    ComputeKeepsParameters(s);
    DeceleratingUpdate(s, s.StepsToStop());
    ShorterThanFirst(m);
    InStrideEnergy(m');
    RampLands(m'.RunDue());
    LandsLater(m', k);
  }

  /** stop() from the deceleration ramp keeps its promise, unless it re-accelerates past the point of no return. */
  lemma StopWhileBraking(m: Motor)
    requires Braking(m)
    ensures StopsIn(m, m.StepsToStop() + 1) <==>
      m.Ahead() == m.StepsToStop() + 1 || !WouldOverrun(m, m.StepsToStop())
  {
    StepsToStopIsFloor(m);
    StopTarget(m);
    if m.Ahead() == m.StepsToStop() + 1 {
      ApproachLands(m);
      assert m.Stop() == m;
    } else {
      StopReaccelerates(m, -m.n);
      ReacceleratedLanding(m, -m.n, m.Stop());
    }
  }

  /**
    stop() at any moment of a move from rest: the motor takes exactly floor(v^2/2a) + 1 further
    steps and comes to rest if and only if it was not yet braking, or the target was already that
    far away, or one accelerating update leaves it room to brake again.
   */
  lemma StopExactlyWhen(m: Motor, target: int, k: nat)
    requires m.Valid() && AtRest(m) && k < Distance(m.currentPos, target)
    ensures var moving := After(m.MoveTo(target), k);
      StopsIn(moving, moving.StepsToStop() + 1) <==>
        moving.n > 0 || moving.Ahead() == moving.StepsToStop() + 1 || !WouldOverrun(moving, moving.StepsToStop())
  {
    hide Energy, NextInterval, Trunc, RampEnergy, InStride, StopsIn, WouldOverrun, Motor.ComputeNewSpeed, Accelerating, Braking;
    StartMove(m, target);
    var start := m.MoveTo(target);
    ApproachRuns(start, k);
    StopApproach(After(start, k));
  }

  /** After stop() has sent a braking motor too fast: one step later it is beyond its new target. */
  lemma ReacceleratedBeyond(m: Motor, k: int, m': Motor, s: int)
    requires Braking(m) && k == -m.n == m.Ahead() >= 1 && WouldOverrun(m, k) && m' == m.Stop() && s == m'.StepsToStop()
    ensures m'.Valid() && m'.speed != 0.0 && s >= k + 2 && m'.targetPos == m.currentPos + (k + 1) * Sign(m.direction)
    ensures var r := m'.RunDue();
      && Beyond(r) && r.n == 1 - s && r.Ahead() == k
      && r.direction == m.direction == m'.direction && r.targetPos == m'.targetPos
  {
    StopReaccelerates(m, k);
    hide Energy, NextInterval, Trunc, WouldOverrun, Motor.Stop;
    StopAims(m', k, m);
    EntersBeyond(m');
  }

  lemma StopAims(m': Motor, k: int, m: Motor)
    requires m'.Ahead() == k + 1 && m'.direction == m.direction && m'.currentPos == m.currentPos
    ensures m'.targetPos == m.currentPos + (k + 1) * Sign(m.direction)
  {}

  /** A step of a motor speeding towards a target it cannot stop at any more, or away from one. */
  lemma EntersBeyond(m: Motor)
    requires m.Valid() && InStride(m) && m.cn >= m.cmin && m.n > 0 && m.StepsToStop() > m.Ahead() != 1 && m.StepsToStop() >= 2
    ensures m.speed != 0.0
    ensures var r := m.RunDue();
      && Beyond(r) && r.n == 1 - m.StepsToStop() && r.Ahead() == m.Ahead() - 1
      && r.direction == m.direction && r.targetPos == m.targetPos && r.currentPos == m.currentPos + Sign(m.direction)
  {
    hide Energy, NextInterval, Trunc, Motor.PlannedCount;
    var s := m.Stepped();
    StepsAhead(m);
    InStrideEnergy(m);
    PlanByAhead(s);
    ComputeKeepsParameters(s);
    ComputeInStride(s);
    RampEntry(s);
  }

  /** One step before it is beyond, with s steps to stop. */
  lemma TurnsLater(m: Motor, s: nat, ahead: int)
    requires m.Valid() && m.speed != 0.0 && Beyond(m.RunDue())
    requires m.RunDue().n == 1 - s && m.RunDue().Ahead() == ahead && s > ahead
    requires m.RunDue().direction == m.direction && m.RunDue().targetPos == m.targetPos
    ensures SettlesIn(m, s + 1, 2 * s + 1 - ahead)
    ensures After(m, s + 1).currentPos == m.targetPos + (s - ahead) * Sign(m.direction)
    ensures After(m, s + 1).direction != m.direction
  {
    hide *;
    TurnsPast(m.RunDue());
    RunLater(m, s, 2 * s - ahead);
    AfterFirst(m, s);
  }

  /**
    Where stop() leads when it fails: the motor turns around exactly s - k steps past the target
    stop() has set, with k steps to stop before the call and s after it, and settles on it from behind.
   */
  lemma StopOverrunsBy(m: Motor)
    requires Braking(m) && m.Ahead() != m.StepsToStop() + 1 && WouldOverrun(m, m.StepsToStop())
    ensures var k, m' := m.StepsToStop(), m.Stop();
      var s := m'.StepsToStop();
      && m'.Valid() && s >= k + 2 && m'.targetPos == m.currentPos + (k + 1) * Sign(m.direction)
      && SettlesIn(m', s + 1, 2 * s + 1 - k)
      && After(m', s + 1).currentPos == m'.targetPos + (s - k) * Sign(m.direction)
      && After(m', s + 1).direction != m.direction
  {
    BrakingCount(m);
    var k, m' := m.StepsToStop(), m.Stop();
    var s := m'.StepsToStop();
    hide *;
    ReacceleratedBeyond(m, k, m', s);
    TurnsLater(m', s, k);
  }

  lemma BrakingCount(m: Motor)
    requires Braking(m) && m.Ahead() != m.StepsToStop() + 1
    ensures m.Valid() && m.StepsToStop() == -m.n == m.Ahead() >= 1
  {
    StepsToStopIsFloor(m);
  }

  /**
    moveTo(currentPosition()) does not stop a motor: with two or more steps to stop it goes on
    accelerating or cruising, and turns around one step after it could have stopped.
   */
  lemma MoveToHere(m: Motor)
    requires Accelerating(m) && m.StepsToStop() >= 2
    ensures var m' := m.MoveTo(m.currentPos);
      var s := m'.StepsToStop();
      && m'.Valid() && m'.n == m.n + 1 > 0 && m'.direction == m.direction && Rate(m') >= Rate(m)
      && s >= m.StepsToStop()
      && SettlesIn(m', s + 1, 2 * s + 2)
      && After(m', s + 1).currentPos == m.currentPos + (s + 1) * Sign(m.direction)
      && After(m', s + 1).direction != m.direction
  {
    var m' := m.MoveTo(m.currentPos);
    var s := m'.StepsToStop();
    AcceleratesHere(m);
    hide *;
    EntersBeyond(m');
    TurnsLater(m', s, -1);
  }

  lemma AcceleratesHere(m: Motor)
    requires Accelerating(m) && m.StepsToStop() >= 2
    ensures var m' := m.MoveTo(m.currentPos);
      && m'.Valid() && m'.n == m.n + 1 > 0 && m'.direction == m.direction && Rate(m') >= Rate(m)
      && InStride(m') && m'.cn >= m'.cmin && m'.targetPos == m'.currentPos == m.currentPos && m'.Ahead() == 0
      && m'.StepsToStop() >= m.StepsToStop()
  {
    hide Energy, NextInterval, Trunc, Motor.PlannedCount, RampEnergy;
    var s := m.(targetPos := m.currentPos);
    StepsToStopIsFloor(m);
    Retargeted(m, m.currentPos);
    RampStart();
    PlanByAhead(s);
    ComputeInStride(s);
    ComputeKeepsParameters(s);
    AcceleratingUpdate(s, s.n);
    var m' := s.ComputeNewSpeed();
    RateOrder(m', m);
    StepsToStopIsFloor(m');
    InStrideEnergy(m);
    InStrideEnergy(m');
    SlowerHasLess(m'.cn, m.cn, m.acceleration);
  }

  lemma StopApproach(m: Motor)
    requires m.Valid() && Approaching(m)
    ensures StopsIn(m, m.StepsToStop() + 1) <==>
      m.n > 0 || m.Ahead() == m.StepsToStop() + 1 || !WouldOverrun(m, m.StepsToStop())
  {
    hide Energy, NextInterval, Trunc, RampEnergy, InStride, StopsIn, WouldOverrun;
    if m.n > 0 {
      StopApproaching(m);
    } else {
      StopWhileBraking(m);
    }
  }

  // ---------------------------------------------------------------- a move on which stop() fails

  /** A motor on its way from 0 to 6 with acceleration 2 (so c0 is 676000) and no effective speed limit. */
  function Sample(pos: int, n: int, cn: real): Motor
    requires cn > 0.0
  {
    Motor(pos, 6, MICROS / cn, 1000000.0, 2.0, Trunc(cn), CW, n, 676000.0, cn, 1.0)
  }

  /** Equation 16 for the sample motor, from integer bounds on the squared interval. */
  lemma SampleEnergy(pos: int, n: int, cn: real, s: int)
    requires cn > 0.0 && s >= 0
    requires s as real * (4.0 * (cn * cn)) <= 1000000.0 * 1000000.0 < (s as real + 1.0) * (4.0 * (cn * cn))
    ensures Sample(pos, n, cn).StepsToStop() == s
  {
    var m := Sample(pos, n, cn);
    assert InStride(m);
    InStrideEnergy(m);
    StepsToStopIsFloor(m);
    EnergyOfInterval(cn, 2.0);
    ProductPositive(cn, cn, cn * cn);
    FloorBetween(m.E(), s, 4.0 * (cn * cn));
  }

  lemma FloorBetween(e: real, s: int, t: real)
    requires t > 0.0 && e * t == MICROS * MICROS
    requires s as real * t <= 1000000.0 * 1000000.0 < (s as real + 1.0) * t
    ensures e.Floor == s
  {
    MulCancel(s as real, e, t);
    MulCancelStrict(e, s as real + 1.0, t);
  }

  lemma SampleStep(pos: int, n: int, cn: real, s: int, p: int, cn': real)
    requires 0 <= pos < 5 && n > 0 && cn > 0.0 && cn' >= 1.0
    requires s as real * (4.0 * (cn * cn)) <= 1000000.0 * 1000000.0 < (s as real + 1.0) * (4.0 * (cn * cn)) && s >= 0
    requires p == (if s >= 5 - pos then -s else n) && p != 0
    requires cn' * (4.0 * p as real + 1.0) == cn * (4.0 * p as real - 1.0)
    ensures Sample(pos, n, cn).RunDue() == Sample(pos + 1, p + 1, cn')
  {
    SampleEnergy(pos + 1, n, cn, s);
    SampleNext(cn, p, cn');
    hide Energy, Trunc, NextInterval;
  }

  lemma SampleNext(cn: real, p: int, cn': real)
    requires cn' * (4.0 * p as real + 1.0) == cn * (4.0 * p as real - 1.0)
    ensures NextInterval(cn, p) == cn'
  {
    NextIntervalRatio(cn, p);
    assert 4 * p + 1 != 0;
    hide NextInterval;
    MulCancelSame(NextInterval(cn, p), cn', 4.0 * p as real + 1.0);
  }

  lemma SampleStart(m: Motor)
    requires m == Motor(0, 0, 0.0, 1000000.0, 2.0, 0, CCW, 0, 676000.0, 0.0, 1.0)
    ensures m.Valid() && AtRest(m) && m.MoveTo(6) == Sample(0, 1, 676000.0)
  {}

  /** The first four steps of a six-step move: it has begun to brake, with two steps to stop and two to go. */
  lemma SampleSteps()
    ensures Sample(0, 1, 676000.0).RunDue() == Sample(1, 2, 405600.0)
    ensures Sample(1, 2, 405600.0).RunDue() == Sample(2, 3, 946400.0 / 3.0)
    ensures Sample(2, 3, 946400.0 / 3.0).RunDue() == Sample(3, 4, 10410400.0 / 39.0)
    ensures Sample(3, 4, 10410400.0 / 39.0).RunDue() == Sample(4, -2, 946400.0 / 3.0)
  {
    hide *;
    SampleStep(0, 1, 676000.0, 0, 1, 405600.0);
    SampleStep(1, 2, 405600.0, 1, 2, 946400.0 / 3.0);
    SampleStep(2, 3, 946400.0 / 3.0, 2, 3, 10410400.0 / 39.0);
    SampleStep(3, 4, 10410400.0 / 39.0, 3, -3, 946400.0 / 3.0);
  }

  lemma AfterFour(m: Motor)
    requires m.Valid()
    ensures After(m, 4) == m.RunDue().RunDue().RunDue().RunDue()
  {
    hide *;
    NextAfter(m, 3);
    NextAfter(m, 2);
    NextAfter(m, 1);
    NextAfter(m, 0);
    AfterNone(m);
  }

  lemma SampleWouldOverrun(m: Motor)
    requires m == Sample(4, -2, 946400.0 / 3.0)
    ensures m.Valid() && m.StepsToStop() == 2 && m.n == -2 && m.Ahead() == 2 && WouldOverrun(m, 2)
  {
    SampleEnergy(4, -2, 946400.0 / 3.0, 2);
    InStrideEnergy(m);
    EnergyOfInterval(946400.0 / 3.0, 2.0);
    EnergyOfInterval(1.0, 2.0);
  }

  lemma SampleOverruns(m: Motor, target: int, k: nat)
    requires m.Valid() && AtRest(m) && m.currentPos == 0 && target == 6 && k == 4
    requires m.MoveTo(target) == Sample(0, 1, 676000.0)
    ensures StopMisses(m, target, k)
  {
    assert k < Distance(m.currentPos, target);
    SampleSteps();
    hide *;
    AfterFour(m.MoveTo(target));
    SampleWouldOverrun(After(m.MoveTo(target), k));
    StopExactlyWhen(m, target, k);
    MissMeans(m, target, k);
  }

  /** A moment k of a move from rest at which stop() does not bring the motor to rest where it promises. */
  ghost predicate StopMisses(m: Motor, target: int, k: nat) {
    && m.Valid() && AtRest(m) && k < Distance(m.currentPos, target)
    && !StopsIn(After(m.MoveTo(target), k), After(m.MoveTo(target), k).StepsToStop() + 1)
  }

  lemma MissMeans(m: Motor, target: int, k: nat)
    requires m.Valid() && AtRest(m) && k < Distance(m.currentPos, target)
    requires !StopsIn(After(m.MoveTo(target), k), After(m.MoveTo(target), k).StepsToStop() + 1)
    ensures StopMisses(m, target, k)
  {}

  lemma SampleRest() returns (m: Motor, target: int, k: nat)
    ensures m.Valid() && AtRest(m) && m.currentPos == 0 && target == 6 && k == 4
    ensures m.MoveTo(target) == Sample(0, 1, 676000.0)
  {
    m, target, k := Motor(0, 0, 0.0, 1000000.0, 2.0, 0, CCW, 0, 676000.0, 0.0, 1.0), 6, 4;
    SampleStart(m);
  }

  /** There is such a moment: the fourth step of a move of six. */
  lemma StopCanOverrun()
    ensures exists m: Motor, target: int, k: nat :: StopMisses(m, target, k)
  {
    hide *;
    var m, target, k := SampleRest();
    SampleOverruns(m, target, k);
  }
}
