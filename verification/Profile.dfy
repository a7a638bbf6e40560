/**
  Whole moves: the speed profile of a motor that runs to its target.
 */
module Profile {
  import opened Ramp
  import opened Motion

  predicate AtRest(m: Motor) {
    m.speed == 0.0 && m.n == 0 && m.stepInterval == 0 && m.DistanceToGo() == 0
  }

  /** Speeding up or cruising towards the target, with room left to brake. */
  ghost predicate Accelerating(m: Motor) {
    && m.Valid() && InStride(m)
    && m.n >= 1
    && m.E() <= RampEnergy(m.n)
    && (m.cn == m.cmin || m.E() == RampEnergy(m.n))
    && (m.cn >= m.cmin || m.n == 1)
    && m.cn <= Max(m.c0, m.cmin)
    && m.Ahead() >= 1
    && m.E() < m.Ahead() as real + 1.0
  }

  /** On the deceleration ramp: the step counter is the stopping distance, and the target is where the ramp ends. */
  ghost predicate Braking(m: Motor) {
    && m.Valid() && InStride(m)
    && m.n <= 0
    && -m.n as real <= m.E() < 1.0 - m.n as real
    && m.cn >= m.cmin
    && m.cn * 3.0 <= Max(m.c0, m.cmin) * 5.0
    && m.Ahead() >= 1
    && m.Ahead() - 1 <= -m.n <= m.Ahead()
  }

  ghost predicate Approaching(m: Motor) {
    Accelerating(m) || Braking(m)
  }

  /** k due steps, one after the other. */
  ghost function After(m: Motor, k: nat): Motor
    requires m.Valid()
    ensures After(m, k).Valid()
    ensures var m' := After(m, k);
      m'.c0 == m.c0 && m'.cmin == m.cmin && m'.acceleration == m.acceleration && m'.maxSpeed == m.maxSpeed && m'.targetPos == m.targetPos
  {
    if k == 0 then m else After(m, k - 1).RunDue()
  }

  lemma AfterNone(m: Motor)
    requires m.Valid()
    ensures After(m, 0) == m
  {}

  lemma NextAfter(m: Motor, k: nat)
    requires m.Valid()
    ensures After(m, k + 1) == After(m, k).RunDue()
  {}

  lemma {:induction false} AfterFirst(m: Motor, k: nat)
    requires m.Valid()
    ensures m.RunDue().Valid()
    ensures After(m, k + 1) == After(m.RunDue(), k)
  {
    hide Motor.ComputeNewSpeed, Motor.RunDue;
    if k > 0 {
      AfterFirst(m, k - 1);
    }
  }

  // ---------------------------------------------------------------- one step

  lemma PlannedTowards(m: Motor)
    requires m.Valid() && m.Ahead() >= 1
    ensures m.PlannedCount() ==
      if m.n > 0 then (if m.StepsToStop() >= m.Ahead() then -m.StepsToStop() else m.n)
      else if m.n < 0 then (if m.StepsToStop() < m.Ahead() then -m.n else m.n)
      else 0
  {}

  /** Above one step of stopping distance the interval is shorter than the first one. */
  lemma ShorterThanFirst(m: Motor)
    requires m.Valid() && InStride(m) && m.E() >= 1.0
    ensures m.cn <= m.c0
  {
    InStrideEnergy(m);
    EnergyOfInterval(m.c0, m.acceleration);
    var e1 := Energy(MICROS / m.c0, m.acceleration);
    FirstEnergy(e1, m.acceleration, m.c0);
    EnergyTradesInterval(m.cn, m.c0, m.acceleration);
    OrderFromEnergy(m.E(), e1, m.cn, m.c0);
  }

  lemma OrderFromEnergy(e: real, e1: real, c: real, c1: real)
    requires e >= 1.0 > e1 >= 0.0 && c > 0.0 && c1 > 0.0
    requires e * (c * c) == e1 * (c1 * c1)
    ensures c <= c1
  {
    if c > c1 {
      SquareMono(c1, c);
      var y := SquareOf(c1);
      var x := SquareOf(c);
      NoLessEnergy(e, e1, x, y);
    }
  }

  lemma NoLessEnergy(e: real, e1: real, x: real, y: real)
    requires e >= 1.0 > e1 >= 0.0 && 0.0 < y <= x
    ensures e1 * y < e * x
  {
    MulMono(1.0, e, x);
    ProductPositive(1.0 - e1, y, (1.0 - e1) * y);
  }

  lemma StepsAhead(m: Motor)
    requires m.Valid()
    ensures var m' := m.Stepped();
      && m'.Valid() && m'.E() == m.E() && m'.StepsToStop() == m.StepsToStop()
      && m'.Ahead() == m.Ahead() - 1 && m'.n == m.n
      && (InStride(m) ==> InStride(m'))
  {}

  /** From the braking ramp: one step nearer on the ramp, or at rest on the target. */
  lemma BrakingStep(m: Motor)
    requires Braking(m)
    ensures m.Ahead() == 1 ==> AtRest(m.RunDue())
    ensures m.Ahead() > 1 ==> Braking(m.RunDue()) && m.RunDue().Ahead() == m.Ahead() - 1
    ensures m.Ahead() > 1 ==> m.cn < m.RunDue().cn
    ensures m.RunDue().direction == m.direction
    ensures m.RunDue().currentPos == m.currentPos + Sign(m.direction)
  {
    hide Energy, NextInterval, Trunc;
    var s := m.Stepped();
    StepsAhead(m);
    StepsToStopIsFloor(s);
    if m.Ahead() > 1 {
      PlannedTowards(s);
      ComputeKeepsParameters(s);
      ComputeInStride(s);
      DeceleratingUpdate(s, -m.n);
      ShorterThanFirst(s);
    }
  }

  /** From the accelerating phase: still accelerating, starting to brake in time, or at rest on the target. */
  lemma AcceleratingStep(m: Motor)
    requires Accelerating(m)
    ensures m.Ahead() == 1 ==> AtRest(m.RunDue())
    ensures m.Ahead() > 1 ==> Approaching(m.RunDue()) && m.RunDue().Ahead() == m.Ahead() - 1
    ensures m.Ahead() > 1 && Accelerating(m.RunDue()) ==> m.RunDue().n == m.n + 1 && m.RunDue().cn <= Max(m.cn, m.cmin)
    ensures m.Ahead() > 1 && Braking(m.RunDue()) ==> m.cn < m.RunDue().cn
    ensures m.RunDue().direction == m.direction
    ensures m.RunDue().currentPos == m.currentPos + Sign(m.direction)
  {
    hide Energy, NextInterval, Trunc, RampEnergy;
    var s := m.Stepped();
    StepsAhead(m);
    StepsToStopIsFloor(s);
    if m.Ahead() > 1 {
      PlannedTowards(s);
      ComputeKeepsParameters(s);
      ComputeInStride(s);
      if s.StepsToStop() >= s.Ahead() {
        RampStart();
        DeceleratingUpdate(s, s.StepsToStop());
        ShorterThanFirst(s);
      } else {
        StillAccelerating(s);
      }
    }
  }

  lemma StillAccelerating(s: Motor)
    requires s.Valid() && InStride(s) && s.Ahead() >= 1
    requires s.n >= 1 && s.E() <= RampEnergy(s.n) && s.StepsToStop() < s.Ahead()
    requires s.cn == s.cmin || s.E() == RampEnergy(s.n)
    requires s.cn <= Max(s.c0, s.cmin)
    ensures Accelerating(s.ComputeNewSpeed())
    ensures s.ComputeNewSpeed().n == s.n + 1 && s.ComputeNewSpeed().cn <= Max(s.cn, s.cmin)
    ensures s.ComputeNewSpeed().direction == s.direction
  {
    hide Energy, NextInterval, Trunc, RampEnergy;
    PlannedTowards(s);
    ComputeInStride(s);
    ComputeKeepsParameters(s);
    StepsToStopIsFloor(s);
    StepsToStopIsFloor(s.ComputeNewSpeed());
    AcceleratingUpdate(s, s.n);
    AccelerationGrowth(s.n, s.E(), s.ComputeNewSpeed().E());
  }

  // ---------------------------------------------------------------- whole moves

  /** Every step of an approach moves one step towards the target; the last one brings the motor to rest on it. */
  lemma ApproachingStep(m: Motor)
    requires Approaching(m)
    ensures m.RunDue().currentPos == m.currentPos + Sign(m.direction) && m.RunDue().direction == m.direction
    ensures m.Ahead() == 1 ==> AtRest(m.RunDue())
    ensures m.Ahead() > 1 ==> Approaching(m.RunDue()) && m.RunDue().Ahead() == m.Ahead() - 1
    ensures m.Ahead() > 1 && m.n <= 0 ==> m.RunDue().n <= 0
    ensures m.Ahead() > 1 && m.cn >= m.cmin && m.RunDue().n > 0 ==> m.RunDue().cn <= m.cn
    ensures m.Ahead() > 1 && m.RunDue().n <= 0 ==> m.cn < m.RunDue().cn
  {
    hide Energy, NextInterval, Trunc, RampEnergy, Motor.ComputeNewSpeed, Motor.RunDue;
    if Braking(m) {
      BrakingStep(m);
    } else {
      AcceleratingStep(m);
    }
  }

  lemma ApproachingAhead(m: Motor)
    requires Approaching(m)
    ensures m.Ahead() >= 1
  {}

  /** The run of an approach: |distance| steps, all towards the target, none of them at rest before the last. */
  lemma {:induction false} ApproachRuns(m: Motor, k: nat)
    requires Approaching(m) && k <= m.Ahead()
    ensures After(m, k).currentPos == m.currentPos + k * Sign(m.direction)
    ensures After(m, k).direction == m.direction
    ensures k < m.Ahead() ==> Approaching(After(m, k)) && After(m, k).Ahead() == m.Ahead() - k
    ensures k == m.Ahead() ==> AtRest(After(m, k))
  {
    hide Energy, NextInterval, Trunc, RampEnergy, Motor.ComputeNewSpeed, Motor.RunDue, Accelerating, Braking;
    if k > 0 {
      ApproachRuns(m, k - 1);
      ApproachingStep(After(m, k - 1));
    } else {
      ApproachingAhead(m);
    }
  }

  /** From rest, moveTo starts the accelerating phase at the first interval. */
  lemma StartMove(m: Motor, target: int)
    requires m.Valid() && AtRest(m) && target != m.currentPos
    ensures var m' := m.MoveTo(target);
      && m'.Valid() && Accelerating(m') && m'.n == 1 && m'.cn == m.c0 && m'.E() == RampEnergy(1)
      && m'.currentPos == m.currentPos && m'.targetPos == target
      && m'.Ahead() == if target > m.currentPos then target - m.currentPos else m.currentPos - target
  {
    hide Energy, NextInterval, Trunc;
    var s := m.(targetPos := target);
    StepsToStopIsFloor(s);
    StartingUpdate(s);
    ComputeInStride(s);
    RampStart();
  }

  /** Running from m takes exactly k steps, all in m's direction and none of them at rest before the last, and ends at rest on the target. */
  ghost predicate Lands(m: Motor, k: nat)
    requires m.Valid()
  {
    && (forall i: nat | i <= k :: After(m, i).currentPos == m.currentPos + i * Sign(m.direction))
    && (forall i: nat | i < k :: After(m, i).speed != 0.0)
    && AtRest(After(m, k))
  }

  lemma ApproachingMoves(m: Motor)
    requires Approaching(m)
    ensures m.speed != 0.0 && m.Valid() && InStride(m) && m.Ahead() >= 1
  {
    InStrideEnergy(m);
  }

  lemma ApproachLands(m: Motor)
    requires Approaching(m)
    ensures m.Valid() && m.Ahead() >= 1 && Lands(m, m.Ahead())
  {
    ApproachingMoves(m);
    hide Energy, NextInterval, Trunc, RampEnergy, Motor.ComputeNewSpeed, Motor.RunDue, Accelerating, Braking;
    forall i: nat | i <= m.Ahead()
      ensures After(m, i).currentPos == m.currentPos + i * Sign(m.direction)
      ensures if i == m.Ahead() then AtRest(After(m, i)) else After(m, i).speed != 0.0
    {
      ApproachRuns(m, i);
      if i < m.Ahead() { ApproachingMoves(After(m, i)); }
    }
  }

  function Distance(a: int, b: int): nat {
    if a <= b then b - a else a - b
  }

  /**
    The theorem the library exists for.  From rest, moveTo followed by runToPosition takes exactly
    as many steps as the target is away, every one towards it, moves at every moment in between,
    and comes to rest on the target: no overshoot, whatever the distance, acceleration and maximum speed.
   */
  lemma ExactMove(m: Motor, target: int)
    requires m.Valid() && AtRest(m)
    ensures var start := m.MoveTo(target);
      && start.Valid() && start.currentPos == m.currentPos && start.targetPos == target
      && Lands(start, Distance(m.currentPos, target))
      && (target > m.currentPos ==> start.direction == CW)
      && (target < m.currentPos ==> start.direction == CCW)
  {
    hide Energy, NextInterval, Trunc, RampEnergy, Motor.ComputeNewSpeed, Motor.RunDue, Accelerating, Braking;
    if target != m.currentPos {
      StartMove(m, target);
      ApproachLands(m.MoveTo(target));
    }
  }

  /** setCurrentPosition stops the motor and names the place: every later move is measured from there. */
  lemma PositionNamed(m: Motor, position: int, target: int)
    requires m.Valid()
    ensures var m' := m.SetCurrentPosition(position);
      && m'.Valid() && AtRest(m') && m'.currentPos == position
      && m'.MoveTo(target).Valid() && Lands(m'.MoveTo(target), Distance(position, target))
      && After(m'.MoveTo(target), Distance(position, target)).currentPos == target
  {
    var m' := m.SetCurrentPosition(position);
    ExactMove(m', target);
    hide Motor.MoveTo, Motor.ComputeNewSpeed, Motor.RunDue;
  }

  // ---------------------------------------------------------------- stopping

  lemma StopTarget(m: Motor)
    requires m.Valid() && InStride(m)
    ensures m.Stop() == m.MoveTo(m.currentPos + Sign(m.direction) * (m.StepsToStop() + 1))
  {
    assert (MICROS / m.cn) * m.cn == MICROS;
    assert MICROS / m.cn > 0.0;
  }

  /** stop() during the accelerating phase leaves an approach to a point stepsToStop + 1 ahead. */
  lemma StopWhileAccelerating(m: Motor)
    requires Accelerating(m)
    ensures Accelerating(m.Stop()) && m.Stop().Ahead() == m.StepsToStop() + 1
    ensures m.Stop().direction == m.direction && m.Stop().currentPos == m.currentPos
  {
    hide Energy, NextInterval, Trunc, RampEnergy, InStride, Motor.ComputeNewSpeed, Motor.Stop;
    StopTarget(m);
    StepsToStopIsFloor(m);
    var t := m.currentPos + Sign(m.direction) * (m.StepsToStop() + 1);
    Retargeted(m, t);
    if m.targetPos != t {
      StillAccelerating(m.(targetPos := t));
      ComputeKeepsParameters(m.(targetPos := t));
    }
  }

  /** A new target alone changes neither the speed nor what it means. */
  lemma Retargeted(m: Motor, t: int)
    requires m.Valid()
    ensures var s := m.(targetPos := t);
      s.Valid() && s.E() == m.E() && s.StepsToStop() == m.StepsToStop() && (InStride(m) ==> InStride(s))
  {}

  /** After stop(), exactly k further steps in the direction the motor was moving in. */
  ghost predicate StopsIn(m: Motor, k: nat)
    requires m.Valid()
  {
    var m' := m.Stop();
    m'.Valid() && m'.currentPos == m.currentPos && m'.direction == m.direction && Lands(m', k)
  }

  /**
    stop() at any moment of a move from rest at which the motor is accelerating or cruising makes
    it take exactly floor(v^2/2a) + 1 further steps in its current direction, and come to rest
    on the new target.
   */
  lemma StopExactly(m: Motor, target: int, k: nat)
    requires m.Valid() && AtRest(m) && target != m.currentPos
    requires k < m.MoveTo(target).Ahead() && After(m.MoveTo(target), k).n > 0
    ensures StopsIn(After(m.MoveTo(target), k), After(m.MoveTo(target), k).StepsToStop() + 1)
  {
    StartMove(m, target);
    hide *;
    ApproachRuns(m.MoveTo(target), k);
    StopApproaching(After(m.MoveTo(target), k));
  }

  lemma StopApproaching(m: Motor)
    requires m.Valid() && Approaching(m) && m.n > 0
    ensures StopsIn(m, m.StepsToStop() + 1)
  {
    StopWhileAccelerating(m);
    ApproachLands(m.Stop());
  }
}
