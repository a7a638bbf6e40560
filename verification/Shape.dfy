/**
  The shape of the speed profile: the deceleration ramp and the step counter stay in lockstep,
  the acceleration law, and the trapezoid of a whole move.
 */
module Shape {
  import opened Ramp
  import opened Motion
  import opened Profile

  // ---------------------------------------------------------------- the deceleration ramp

  /** The step counter of Equation 13 is minus the stopping distance of Equation 16. */
  ghost predicate OnRamp(m: Motor) {
    && m.Valid() && InStride(m)
    && m.n <= 0
    && -m.n as real <= m.E() < 1.0 - m.n as real
    && m.cn >= m.cmin
  }

  /** computeNewSpeed goes on down the ramp: it neither stops the motor nor flips the counter. */
  predicate StaysOnRamp(m: Motor)
    requires m.Valid()
  {
    !m.Stops() && m.PlannedCount() == m.n < 0
  }

  /** A decision to brake starts the ramp in step. */
  lemma RampEntry(m: Motor)
    requires m.Valid() && InStride(m) && m.cn >= m.cmin
    requires m.n > 0 && !m.Stops() && m.PlannedCount() < 0
    ensures OnRamp(m.ComputeNewSpeed()) && m.ComputeNewSpeed().n == 1 - m.StepsToStop()
  {
    hide Energy, NextInterval, Trunc;
    StepsToStopIsFloor(m);
    ComputeInStride(m);
    ComputeKeepsParameters(m);
    DeceleratingUpdate(m, m.StepsToStop());
  }

  lemma RampUpdate(m: Motor)
    requires OnRamp(m) && StaysOnRamp(m)
    ensures OnRamp(m.ComputeNewSpeed()) && m.ComputeNewSpeed().n == m.n + 1
  {
    hide Energy, NextInterval, Trunc;
    StepsToStopIsFloor(m);
    ComputeInStride(m);
    ComputeKeepsParameters(m);
    DeceleratingUpdate(m, -m.n);
  }

  /** A position and a target that computeNewSpeed finds when it is called. */
  datatype Place = Place(at: int, target: int)

  function Placed(m: Motor, p: Place): Motor {
    m.(currentPos := p.at, targetPos := p.target)
  }

  /** computeNewSpeed called once for each place. */
  ghost function Updates(m: Motor, places: seq<Place>): Motor
    requires m.Valid()
    ensures Updates(m, places).Valid()
  {
    if places == [] then m else Placed(Updates(m, places[..|places| - 1]), places[|places| - 1]).ComputeNewSpeed()
  }

  ghost predicate AllOnRamp(m: Motor, places: seq<Place>)
    requires m.Valid()
  {
    forall i | 0 <= i < |places| :: StaysOnRamp(Placed(Updates(m, places[..i]), places[i]))
  }

  /**
    Equations 13 and 16 never drift apart on a deceleration ramp: after any updates that stay on
    it, wherever the motor and its target have got to, floor(v^2/2a) is minus the counter.  The ramp
    holds exactly as many updates as the motor had steps to stop, and ends with v^2 < 2a.
   */
  lemma {:induction false} RampLockstep(m: Motor, places: seq<Place>)
    requires OnRamp(m) && AllOnRamp(m, places)
    ensures OnRamp(Updates(m, places))
    ensures Updates(m, places).StepsToStop() == -Updates(m, places).n == -m.n - |places|
    ensures |places| <= m.StepsToStop() == -m.n
    ensures |places| == m.StepsToStop() ==> Updates(m, places).E() < 1.0
  {
    if places != [] {
      hide *;
      AllButLastOnRamp(m, places);
      RampLockstep(m, places[..|places| - 1]);
      LastOnRamp(m, places);
    } else {
      hide Energy, NextInterval, Trunc, Motor.ComputeNewSpeed;
      StepsToStopIsFloor(m);
    }
  }

  lemma AllButLastOnRamp(m: Motor, places: seq<Place>)
    requires m.Valid() && places != [] && AllOnRamp(m, places)
    ensures AllOnRamp(m, places[..|places| - 1])
  {
    hide StaysOnRamp, Updates;
    var front := places[..|places| - 1];
    forall j | 0 <= j < |front| ensures StaysOnRamp(Placed(Updates(m, front[..j]), front[j])) {
      assert front[..j] == places[..j];
    }
  }

  lemma LastOnRamp(m: Motor, places: seq<Place>)
    requires OnRamp(m) && places != [] && AllOnRamp(m, places)
    requires OnRamp(Updates(m, places[..|places| - 1])) && Updates(m, places[..|places| - 1]).n == m.n + |places| - 1
    ensures OnRamp(Updates(m, places)) && Updates(m, places).n == m.n + |places|
    ensures Updates(m, places).StepsToStop() == -Updates(m, places).n
    ensures |places| <= m.StepsToStop() == -m.n
    ensures |places| == m.StepsToStop() ==> Updates(m, places).E() < 1.0
  {
    hide Energy, NextInterval, Trunc, Motor.ComputeNewSpeed, Motor.PlannedCount, InStride;
    var s := Placed(Updates(m, places[..|places| - 1]), places[|places| - 1]);
    assert StaysOnRamp(s);
    PlacedOnRamp(Updates(m, places[..|places| - 1]), places[|places| - 1]);
    RampUpdate(s);
    StepsToStopIsFloor(m);
    StepsToStopIsFloor(s.ComputeNewSpeed());
  }

  lemma PlacedOnRamp(m: Motor, p: Place)
    requires OnRamp(m)
    ensures OnRamp(Placed(m, p)) && Placed(m, p).n == m.n
  {
    hide Energy;
  }

  // ---------------------------------------------------------------- acceleration

  /** The squared speed of the first step from rest. */
  function V0Squared(a: real): real {
    a / (2.0 * 0.676 * 0.676)
  }

  /** Bounds on the squared speed in terms of the step counter. */
  ghost predicate ObeysLaw(m: Motor) {
    && m.speed * m.speed <= V0Squared(m.acceleration) * (2.0 * m.n as real - 1.0)
    && (m.cn > m.cmin ==> V0Squared(m.acceleration) * m.n as real <= m.speed * m.speed)
  }

  /**
    The acceleration law on a move from rest.  While the motor is accelerating or cruising n counts
    its steps, its squared speed is at most (2n-1) times that of the first step, and stepsToStop grows
    by at most one a step; until the interval reaches the cmin clamp the squared speed is also at
    least n times that of the first step.
   */
  lemma AccelerationLaw(m: Motor, target: int, k: nat)
    requires m.Valid() && AtRest(m) && k < Distance(m.currentPos, target)
    requires After(m.MoveTo(target), k).n > 0
    ensures After(m.MoveTo(target), k).n == k + 1
    ensures ObeysLaw(After(m.MoveTo(target), k))
    ensures k + 1 < Distance(m.currentPos, target) && After(m.MoveTo(target), k + 1).n > 0 ==>
      After(m.MoveTo(target), k + 1).StepsToStop() <= After(m.MoveTo(target), k).StepsToStop() + 1
  {
    StartMove(m, target);
    var start := m.MoveTo(target);
    assert Distance(m.currentPos, target) == start.Ahead();
    hide *;
    AcceleratingPrefix(start, k);
    AcceleratingLaw(After(start, k));
    if k + 1 < start.Ahead() && After(start, k + 1).n > 0 {
      ApproachRuns(start, k);
      NextAfter(start, k);
      GrowsByOne(After(start, k));
    }
  }

  /** n counts the steps while it is positive. */
  lemma {:induction false} AcceleratingPrefix(m: Motor, k: nat)
    requires Accelerating(m) && k < m.Ahead() && After(m, k).n > 0
    ensures Accelerating(After(m, k)) && After(m, k).n == m.n + k
  {
    hide Energy, NextInterval, Trunc, Motor.ComputeNewSpeed, Motor.RunDue, RampEnergy;
    if k > 0 {
      ApproachRuns(m, k - 1);
      ApproachRuns(m, k);
      ApproachingStep(After(m, k - 1));
      AcceleratingPrefix(m, k - 1);
      AcceleratingStep(After(m, k - 1));
    }
  }

  lemma AcceleratingLaw(m: Motor)
    requires Accelerating(m)
    ensures ObeysLaw(m)
  {
    var e, k := AcceleratingFacts(m);
    var a, n, vv, v0 := m.acceleration, m.n as real, m.speed * m.speed, V0Squared(m.acceleration);
    hide *;
    V0Value(a);
    LawCore(m.cn > m.cmin, e, 2.0 * a, vv, n, k, 15625.0 / 28561.0, v0);
    LawByName(m);
  }

  predicate LawHolds(unclamped: bool, n: real, vv: real, v0: real) {
    vv <= v0 * (2.0 * n - 1.0) && (unclamped ==> v0 * n <= vv)
  }

  lemma LawByName(m: Motor)
    requires LawHolds(m.cn > m.cmin, m.n as real, m.speed * m.speed, V0Squared(m.acceleration))
    ensures ObeysLaw(m)
  {}

  lemma AcceleratingFacts(m: Motor) returns (e: real, k: real)
    requires Accelerating(m)
    ensures m.acceleration > 0.0 && e == Energy(m.speed, m.acceleration)
    ensures e * (2.0 * m.acceleration) == m.speed * m.speed
    ensures e <= k && (m.cn > m.cmin ==> e == k)
    ensures 15625.0 / 28561.0 * m.n as real <= k <= 15625.0 / 28561.0 * (2.0 * m.n as real - 1.0)
  {
    hide *;
    AcceleratingMeans(m);
    e := Energy(m.speed, m.acceleration);
    k := RampAt(m.n);
    SquaredSpeed(m.speed, m.acceleration);
  }

  lemma AcceleratingMeans(m: Motor)
    requires Accelerating(m)
    ensures m.acceleration > 0.0 && m.n >= 1
    ensures Energy(m.speed, m.acceleration) <= RampEnergy(m.n)
    ensures m.cn > m.cmin ==> Energy(m.speed, m.acceleration) == RampEnergy(m.n)
  {
    hide Energy, InStride, RampEnergy;
  }

  lemma RampAt(n: int) returns (k: real)
    requires n >= 1
    ensures k == RampEnergy(n)
    ensures 15625.0 / 28561.0 * n as real <= k <= 15625.0 / 28561.0 * (2.0 * n as real - 1.0)
  {
    hide *;
    k := RampEnergy(n);
    RampBounds(n);
  }

  lemma LawCore(unclamped: bool, e: real, t: real, vv: real, n: real, k: real, q: real, v0: real)
    requires t > 0.0 && e * t == vv && v0 == q * t
    requires e <= k && q * n <= k <= q * (2.0 * n - 1.0)
    requires unclamped ==> e == k
    ensures LawHolds(unclamped, n, vv, v0)
  {
    SpeedFromEnergy(e, t, q, 2.0 * n - 1.0, vv, v0);
    SpeedFromEnergy(e, t, q, n, vv, v0);
  }

  lemma RampBounds(n: int)
    requires n >= 1
    ensures 15625.0 / 28561.0 * n as real <= RampEnergy(n) <= 15625.0 / 28561.0 * (2.0 * n as real - 1.0)
  {
    RampLaw(n);
    RampStart();
    hide *;
    assert (2 * n - 1) as real == 2.0 * n as real - 1.0;
  }

  lemma V0Value(a: real)
    ensures V0Squared(a) == 15625.0 / 28561.0 * (2.0 * a)
  {}

  lemma SquaredSpeed(v: real, a: real)
    requires a > 0.0
    ensures Energy(v, a) * (2.0 * a) == v * v
  {}

  lemma SpeedFromEnergy(e: real, t: real, q: real, x: real, vv: real, v0: real)
    requires t > 0.0 && e * t == vv && v0 == q * t
    ensures e <= q * x ==> vv <= v0 * x
    ensures q * x <= e ==> v0 * x <= vv
  {
    assert (q * x) * t == v0 * x;
    if e <= q * x {
      MulMono(e, q * x, t);
    }
    if q * x <= e {
      MulMono(q * x, e, t);
    }
  }

  lemma GrowsByOne(m: Motor)
    requires Accelerating(m) && m.Ahead() > 1 && m.RunDue().n > 0
    ensures m.RunDue().StepsToStop() <= m.StepsToStop() + 1
  {
    hide Energy, NextInterval, Trunc, RampEnergy;
    var s := m.Stepped();
    StepsAhead(m);
    PlannedTowards(s);
    StepsToStopIsFloor(s);
    StepsToStopIsFloor(s.ComputeNewSpeed());
    AcceleratingUpdate(s, s.n);
    AccelerationGrowth(s.n, s.E(), s.ComputeNewSpeed().E());
  }

  // ---------------------------------------------------------------- the trapezoid

  function Rate(m: Motor): real {
    Abs(m.speed)
  }

  /** The speeds over steps from..to never fall. */
  ghost predicate Rising(m: Motor, from: nat, to: nat)
    requires m.Valid()
  {
    forall i: nat, j: nat | from <= i < j <= to :: Rate(After(m, i)) <= Rate(After(m, j))
  }

  /** The speeds over steps from..to fall at every step. */
  ghost predicate Falling(m: Motor, from: nat, to: nat)
    requires m.Valid()
  {
    forall i: nat, j: nat | from <= i < j <= to :: Rate(After(m, i)) > Rate(After(m, j))
  }

  /** Over d steps the speed rises or stays up to a peak, falls at every step after it, and the counter is positive exactly up to the peak. */
  ghost predicate Trapezoidal(start: Motor, d: nat, peak: nat)
    requires start.Valid()
  {
    && peak < d
    && (forall i: nat | i < d :: After(start, i).n > 0 <==> i <= peak)
    && Rising(start, 0, peak)
    && Falling(start, peak, d)
    && After(start, d).speed == 0.0
  }

  /**
    The trapezoid.  A move from rest whose first interval is no shorter than cmin speeds up
    or cruises until some step, slows down at every step after it until it stands on the target, and
    never goes back from braking to accelerating.
   */
  lemma Trapezoid(m: Motor, target: int) returns (peak: nat)
    requires m.Valid() && AtRest(m) && target != m.currentPos && m.cmin <= m.c0
    ensures m.MoveTo(target).Valid() && Trapezoidal(m.MoveTo(target), Distance(m.currentPos, target), peak)
  {
    StartMove(m, target);
    var start := m.MoveTo(target);
    assert Distance(m.currentPos, target) == start.Ahead();
    hide *;
    peak := Peak(start);
    RisesTo(start, peak);
    FallsFrom(start, peak);
    ApproachLands(start);
    LandsStopped(start);
    TrapezoidByParts(start, start.Ahead(), peak);
  }

  lemma TrapezoidByParts(start: Motor, d: nat, peak: nat)
    requires start.Valid() && peak < d
    requires forall i: nat | i < d :: After(start, i).n > 0 <==> i <= peak
    requires Rising(start, 0, peak) && Falling(start, peak, d) && After(start, d).speed == 0.0
    ensures Trapezoidal(start, d, peak)
  {}

  /**
    The first step of a move is not clamped.  If the maximum speed is below it, the second step
    is slower while the motor still counts as accelerating: a move from rest has the shape of a trapezoid
    if and only if the clamp does not reach the first interval, or there is only one step to make.
   */
  lemma TrapezoidWhen(m: Motor, target: int)
    requires m.Valid() && AtRest(m) && target != m.currentPos
    ensures m.MoveTo(target).Valid()
    ensures (exists peak: nat :: Trapezoidal(m.MoveTo(target), Distance(m.currentPos, target), peak)) <==>
      m.cmin <= m.c0 || Distance(m.currentPos, target) == 1
  {
    StartMove(m, target);
    var start := m.MoveTo(target);
    MoveToKeepsParameters(m, target);
    assert Distance(m.currentPos, target) == start.Ahead();
    hide *;
    if m.cmin <= m.c0 {
      var peak := Trapezoid(m, target);
    } else if start.Ahead() == 1 {
      SingleStep(start);
    } else {
      StartOf(start);
      forall peak: nat ensures !Trapezoidal(start, start.Ahead(), peak) {
        FirstStepFaster(start, peak);
      }
    }
  }

  /** At one step a second and acceleration 2 a move of two steps slows down at once. */
  lemma SlowStart() returns (m: Motor)
    ensures m.Valid() && AtRest(m) && m.maxSpeed == 1.0 && m.acceleration == 2.0 && m.cmin * m.maxSpeed == MICROS
    ensures m.MoveTo(2).Valid() && forall peak: nat :: !Trapezoidal(m.MoveTo(2), 2, peak)
  {
    hide *;
    m := SlowMotor();
    TrapezoidWhen(m, 2);
    TwoSteps();
  }

  lemma SlowMotor() returns (m: Motor)
    ensures m.Valid() && AtRest(m) && m.maxSpeed == 1.0 && m.acceleration == 2.0 && m.cmin * m.maxSpeed == MICROS
    ensures m.c0 < m.cmin && m.currentPos == 0
  {
    m := Motor(0, 0, 0.0, 1.0, 2.0, 0, CCW, 0, 676000.0, 0.0, 1000000.0);
  }

  lemma TwoSteps()
    ensures Distance(0, 2) == 2
  {}

  lemma StartOf(m: Motor)
    requires Accelerating(m)
    ensures m.Ahead() >= 1
  {}

  lemma SingleStep(m: Motor)
    requires Accelerating(m) && m.Ahead() == 1
    ensures Trapezoidal(m, 1, 0)
  {
    ApproachLands(m);
    hide *;
    LandsStopped(m);
    AfterNone(m);
    ApproachingNow(m);
    ApproachingMoves(m);
    InStrideRate(m);
    StoppedShape(m);
  }

  lemma ApproachingNow(m: Motor)
    requires Accelerating(m)
    ensures Approaching(m) && m.n > 0
  {}

  lemma StoppedShape(m: Motor)
    requires m.Valid() && m.n > 0 && After(m, 0) == m && Rate(m) > 0.0 && After(m, 1).speed == 0.0
    ensures Trapezoidal(m, 1, 0)
  {
    hide After, Motor.Valid;
  }

  lemma FirstStepFaster(m: Motor, peak: nat)
    requires Accelerating(m) && m.n == 1 && m.cn == m.c0 < m.cmin && m.E() == RampEnergy(1) && m.Ahead() >= 2
    ensures m.Valid() && !Trapezoidal(m, m.Ahead(), peak)
  {
    ClampedSecondStep(m);
    hide *;
    ApproachingNow(m);
    ApproachingMoves(m);
    RateOrder(m, m.RunDue());
    NextAfter(m, 0);
    AfterNone(m);
    if Trapezoidal(m, m.Ahead(), peak) {
      RisesAtFirst(m, peak);
    }
  }

  lemma RisesAtFirst(m: Motor, peak: nat)
    requires m.Valid() && m.Ahead() >= 2 && Trapezoidal(m, m.Ahead(), peak) && After(m, 1).n > 0
    ensures Rate(After(m, 0)) <= Rate(After(m, 1))
  {
    hide After, Motor.Valid, Motor.Ahead;
    assert 1 <= peak;
  }

  lemma ClampedSecondStep(m: Motor)
    requires Accelerating(m) && m.n == 1 && m.cn == m.c0 < m.cmin && m.E() == RampEnergy(1) && m.Ahead() >= 2
    ensures m.Valid() && InStride(m.RunDue()) && m.RunDue().cn > m.cn && m.RunDue().n == 2
  {
    hide Energy, NextInterval, Trunc, RampEnergy;
    var s := m.Stepped();
    StepsAhead(m);
    RampStart();
    StepsToStopIsFloor(s);
    PlannedTowards(s);
    ComputeInStride(s);
  }

  lemma LandsStopped(m: Motor)
    requires m.Valid() && m.Ahead() >= 0 && Lands(m, m.Ahead())
    ensures After(m, m.Ahead()).speed == 0.0
  {}

  /** The last step at which the motor is still accelerating or cruising. */
  lemma Peak(m: Motor) returns (peak: nat)
    requires m.Valid() && Approaching(m) && m.n > 0 && m.Ahead() >= 1
    ensures peak < m.Ahead()
    ensures forall i: nat | i < m.Ahead() :: After(m, i).n > 0 <==> i <= peak
  {
    hide Energy, NextInterval, Trunc, RampEnergy, Motor.ComputeNewSpeed, Motor.RunDue, Accelerating, Braking;
    peak := 0;
    var k := 1;
    while k < m.Ahead()
      invariant 1 <= k <= m.Ahead() && peak < k
      invariant forall i: nat | i < k :: After(m, i).n > 0 <==> i <= peak
    {
      ApproachRuns(m, k - 1);
      ApproachingStep(After(m, k - 1));
      if After(m, k).n > 0 {
        peak := k;
      }
      k := k + 1;
    }
  }

  lemma {:induction false} NeverBelowClamp(m: Motor, k: nat)
    requires Approaching(m) && m.cn >= m.cmin && k < m.Ahead()
    ensures After(m, k).cn >= m.cmin
  {
    if k > 0 {
      hide Energy, NextInterval, Trunc, RampEnergy, Motor.ComputeNewSpeed, Motor.RunDue;
      NeverBelowClamp(m, k - 1);
      ApproachRuns(m, k - 1);
      ApproachRuns(m, k);
      ClampKept(After(m, k - 1));
    }
  }

  lemma ClampKept(m: Motor)
    requires Approaching(m) && m.cn >= m.cmin && m.Ahead() > 1
    ensures m.RunDue().cn >= m.cmin
  {
    ApproachingStep(m);
    hide Energy, NextInterval, Trunc, RampEnergy;
  }

  lemma RisesTo(m: Motor, peak: nat)
    requires m.Valid() && Approaching(m) && m.cn >= m.cmin && peak < m.Ahead()
    requires forall i: nat | i < m.Ahead() :: After(m, i).n > 0 <==> i <= peak
    ensures Rising(m, 0, peak)
  {
    forall i: nat, j: nat | 0 <= i < j <= peak
      ensures Rate(After(m, i)) <= Rate(After(m, j))
    {
      RisingPair(m, peak, i, j);
    }
  }

  lemma {:induction false} RisingPair(m: Motor, peak: nat, i: nat, j: nat)
    requires m.Valid() && Approaching(m) && m.cn >= m.cmin && peak < m.Ahead() && i < j <= peak
    requires forall i: nat | i < m.Ahead() :: After(m, i).n > 0 <==> i <= peak
    ensures Rate(After(m, i)) <= Rate(After(m, j))
  {
    hide *;
    NextRates(m, j - 1);
    if i < j - 1 {
      RisingPair(m, peak, i, j - 1);
    }
  }

  /** Two consecutive speeds of an approach, compared. */
  lemma NextRates(m: Motor, k: nat)
    requires m.Valid() && Approaching(m) && m.cn >= m.cmin && k + 1 < m.Ahead()
    ensures After(m, k + 1).n > 0 ==> Rate(After(m, k)) <= Rate(After(m, k + 1))
    ensures After(m, k + 1).n <= 0 ==> Rate(After(m, k)) > Rate(After(m, k + 1))
  {
    NextAfter(m, k);
    hide *;
    NeverBelowClamp(m, k);
    ApproachRuns(m, k);
    ApproachRuns(m, k + 1);
    ApproachingStep(After(m, k));
    ApproachingMoves(After(m, k));
    ApproachingMoves(After(m, k + 1));
    RateOrder(After(m, k), After(m, k + 1));
    RateOrder(After(m, k + 1), After(m, k));
  }

  lemma FallsFrom(m: Motor, peak: nat)
    requires m.Valid() && Approaching(m) && m.cn >= m.cmin && peak < m.Ahead()
    requires forall i: nat | i < m.Ahead() :: After(m, i).n > 0 <==> i <= peak
    ensures Falling(m, peak, m.Ahead())
  {
    forall i: nat, j: nat | peak <= i < j <= m.Ahead()
      ensures Rate(After(m, i)) > Rate(After(m, j))
    {
      FallingPair(m, peak, i, j);
    }
  }

  lemma {:induction false} FallingPair(m: Motor, peak: nat, i: nat, j: nat)
    requires m.Valid() && Approaching(m) && m.cn >= m.cmin && peak <= i < j <= m.Ahead()
    requires forall i: nat | i < m.Ahead() :: After(m, i).n > 0 <==> i <= peak
    ensures Rate(After(m, i)) > Rate(After(m, j))
  {
    if j == m.Ahead() {
      hide Energy, NextInterval, Trunc, RampEnergy, Motor.ComputeNewSpeed, Motor.RunDue, Accelerating, Braking;
      ApproachRuns(m, i);
      ApproachRuns(m, j);
      ApproachingMoves(After(m, i));
      InStrideRate(After(m, i));
    } else {
      hide *;
      NextRates(m, j - 1);
      if i < j - 1 {
        FallingPair(m, peak, i, j - 1);
      }
    }
  }

  lemma RateOrder(m: Motor, m': Motor)
    requires InStride(m) && InStride(m')
    ensures m.cn <= m'.cn ==> Rate(m) >= Rate(m') > 0.0
    ensures m.cn < m'.cn ==> Rate(m) > Rate(m') > 0.0
  {
    InStrideRate(m);
    InStrideRate(m');
    RatesCompare(Rate(m), m.cn, Rate(m'), m'.cn);
  }

  lemma RatesCompare(r: real, c: real, r': real, c': real)
    requires r > 0.0 && c > 0.0 && r' > 0.0 && c' > 0.0 && r * c == r' * c'
    ensures c <= c' ==> r >= r'
    ensures c < c' ==> r > r'
  {
    if c <= c' {
      MulMono(c, c', r);
      MulCancel(r', r, c');
      if c < c' {
        ProductPositive(r, c' - c, r * (c' - c));
        MulCancelStrict(r', r, c');
      }
    }
  }

  lemma InStrideRate(m: Motor)
    requires InStride(m)
    ensures Rate(m) > 0.0 && Rate(m) * m.cn == MICROS
  {
    assert (MICROS / m.cn) * m.cn == MICROS;
    assert MICROS / m.cn > 0.0;
  }
}
