/**
  The state of one accelerated stepper motor and what each library operation does to it
  (AccelStepper.cpp), as functions on values.  The class in AccelStepper.dfy is proved to
  implement exactly these functions; the theorems about whole moves and whole runs are stated
  about them.
 */
module Motion {
  import opened Ramp

  datatype Direction = CCW | CW

  function Sign(d: Direction): int {
    if d == CW then 1 else -1
  }

  function Max(x: real, y: real): real {
    if x < y then y else x
  }

  /** The Arduino constrain macro. */
  function Constrain(x: real, low: real, high: real): real {
    if x < low then low else if x > high then high else x
  }

  /** The speed, in steps per second, of a motor stepping every c microseconds. */
  function StepRate(c: real): real
    requires c != 0.0
  {
    MICROS / c
  }

  /** Equation 17: the step counter for the current speed at another acceleration. */
  function RescaledCount(n: int, from: real, to: real): int
    requires to != 0.0
  {
    Trunc(n as real * (from / to))
  }

  /** root is the value of sqrt(2 / a). */
  predicate IsRoot(root: real, a: real) {
    root > 0.0 && root * root * a == 2.0
  }

  /** c0 * c0 * a for a first interval c0 computed by Equation 7 with the correction of Equation 15. */
  const C0_SQUARED_A: real := 913952000000.0

  datatype Motor = Motor(
    currentPos: int,
    targetPos: int,
    speed: real,
    maxSpeed: real,
    acceleration: real,
    stepInterval: int,
    direction: Direction,
    n: int,
    c0: real,
    cn: real,
    cmin: real)
  {
    /** The parameters are usable: positive, and c0 is the one that belongs to the acceleration. */
    predicate Valid() {
      && maxSpeed > 0.0
      && acceleration > 0.0
      && c0 > 0.0
      && cmin > 0.0
      && c0 * c0 * acceleration == C0_SQUARED_A
    }

    /** No interval shorter than the one microsecond the library can time. */
    predicate Paced() {
      c0 >= 1.0 && cmin >= 1.0
    }

    function DistanceToGo(): int {
      targetPos - currentPos
    }

    /** Steps to the target in the direction the motor is set to; negative when the target is behind it. */
    function Ahead(): int {
      Sign(direction) * DistanceToGo()
    }

    /** v^2/(2a). */
    function E(): real
      requires acceleration > 0.0
    {
      Energy(speed, acceleration)
    }

    /** Equation 16. */
    function StepsToStop(): (s: int)
      requires acceleration > 0.0
      ensures s >= 0
    {
      EnergySign(speed, acceleration);
      Trunc(E())
    }

    predicate Stops()
      requires acceleration > 0.0
    {
      DistanceToGo() == 0 && StepsToStop() <= 1
    }

    /** The step counter computeNewSpeed settles on before it takes the next interval. */
    function PlannedCount(): int
      requires acceleration > 0.0
    {
      var d, s := DistanceToGo(), StepsToStop();
      if d > 0 then
        if n > 0 then
          if s >= d || direction == CCW then -s else n
        else if n < 0 then
          if s < d && direction == CW then -n else n
        else n
      else if d < 0 then
        if n > 0 then
          if s >= -d || direction == CW then -s else n
        else if n < 0 then
          if s < -d && direction == CCW then -n else n
        else n
      else n
    }

    /** The next step of the profile, with the counter already settled. */
    function TakeInterval(): (m: Motor)
      requires Valid()
      ensures m.Valid()
    {
      var c := if n == 0 then c0 else Max(NextInterval(cn, n), cmin);
      var dir := if n != 0 then direction else if DistanceToGo() > 0 then CW else CCW;
      this.(n := n + 1, cn := c, direction := dir, stepInterval := Trunc(c),
            speed := if dir == CCW then -StepRate(c) else StepRate(c))
    }

    function ComputeNewSpeed(): (m: Motor)
      requires Valid()
      ensures m.Valid()
    {
      if Stops() then this.(stepInterval := 0, speed := 0.0, n := 0)
      else this.(n := PlannedCount()).TakeInterval()
    }

    function MoveTo(absolute: int): (m: Motor)
      requires Valid()
      ensures m.Valid()
    {
      if targetPos != absolute then this.(targetPos := absolute).ComputeNewSpeed() else this
    }

    function Move(relative: int): (m: Motor)
      requires Valid()
      ensures m.Valid()
    {
      MoveTo(currentPos + relative)
    }

    function Stop(): (m: Motor)
      requires Valid()
      ensures m.Valid()
    {
      if speed == 0.0 then this
      else if speed > 0.0 then Move(StepsToStop() + 1)
      else Move(-(StepsToStop() + 1))
    }

    function SetCurrentPosition(position: int): (m: Motor)
      ensures Valid() ==> m.Valid()
    {
      this.(targetPos := position, currentPos := position, n := 0, stepInterval := 0, speed := 0.0)
    }

    function SetMaxSpeed(newSpeed: real): (m: Motor)
      requires Valid() && newSpeed != 0.0
      ensures m.Valid()
    {
      var v := Abs(newSpeed);
      if maxSpeed == v then this
      else
        var s := this.(maxSpeed := v, cmin := MICROS / v);
        if n > 0 then s.(n := StepsToStop()).ComputeNewSpeed() else s
    }

    /** The counter rescaled by Equation 17 and the first interval of Equations 7 and 15. */
    function WithAcceleration(a: real, root: real): (m: Motor)
      requires maxSpeed > 0.0 && cmin > 0.0 && a > 0.0 && IsRoot(root, a)
      ensures m.Valid()
    {
      FirstInterval(root, a);
      this.(n := RescaledCount(n, acceleration, a), c0 := 0.676 * root * 1000000.0, acceleration := a)
    }

    /** root stands for the call to sqrt(2 / |newAcceleration|). */
    function SetAcceleration(newAcceleration: real, root: real): (m: Motor)
      requires Valid() || (maxSpeed > 0.0 && cmin > 0.0 && acceleration == 0.0 && newAcceleration != 0.0)
      requires newAcceleration != 0.0 ==> IsRoot(root, Abs(newAcceleration))
      ensures m.Valid()
    {
      var a := Abs(newAcceleration);
      if newAcceleration == 0.0 || acceleration == a then this
      else WithAcceleration(a, root).ComputeNewSpeed()
    }

    function SetSpeed(newSpeed: real): (m: Motor)
      requires Valid()
      ensures m.Valid()
    {
      if newSpeed == speed then this
      else
        var v := Constrain(newSpeed, -maxSpeed, maxSpeed);
        if v == 0.0 then this.(stepInterval := 0, speed := v)
        else this.(stepInterval := Trunc(Abs(MICROS / v)), direction := if v > 0.0 then CW else CCW, speed := v)
    }

    /** One motor step in the current direction: what runSpeed does when a step is due. */
    function Stepped(): (m: Motor)
      ensures Valid() ==> m.Valid()
    {
      this.(currentPos := currentPos + Sign(direction))
    }

    /** What run does when a step is due. */
    function RunDue(): (m: Motor)
      requires Valid()
      ensures m.Valid()
    {
      Stepped().ComputeNewSpeed()
    }

    /** What runSpeedToPosition does to the direction before it calls runSpeed. */
    function FacingTarget(): (m: Motor)
      ensures Valid() ==> m.Valid()
    {
      if targetPos == currentPos then this
      else this.(direction := if targetPos > currentPos then CW else CCW)
    }
  }

  lemma FirstInterval(root: real, a: real)
    requires IsRoot(root, a)
    ensures var c := 0.676 * root * 1000000.0; c > 0.0 && c * c * a == C0_SQUARED_A
  {
    var c := 0.676 * root * 1000000.0;
    assert c == 676000.0 * root;
    assert c * c == 456976000000.0 * (root * root);
    assert c * c * a == 456976000000.0 * (root * root * a);
  }

  /** The object as the constructor leaves it before its closing call of setAcceleration(1). */
  const BLANK := Motor(0, 0, 0.0, 1.0, 0.0, 0, CCW, 0, 0.0, 0.0, 1.0)

  lemma PositiveParameters(m: Motor)
    requires m.Valid()
    ensures m.maxSpeed > 0.0 && m.acceleration > 0.0 && m.c0 > 0.0 && m.cmin > 0.0
  {}

  lemma StepsToStopIsFloor(m: Motor)
    requires m.acceleration > 0.0
    ensures m.E() >= 0.0 && m.StepsToStop() == m.E().Floor
    ensures m.speed == 0.0 ==> m.E() == 0.0
  {
    EnergySign(m.speed, m.acceleration);
  }

  /**
    The decision of computeNewSpeed as seen from the motor, whichever way it moves: it starts to brake,
    by as many steps as it needs to stop, when the target is behind it or no further away than that; it
    accelerates again from where it has braked down to when it has room; on the target it goes on as it is.
   */
  lemma PlanByAhead(m: Motor)
    requires m.acceleration > 0.0
    ensures var s, ahead, p := m.StepsToStop(), m.Ahead(), m.PlannedCount();
      && (m.n > 0 && ahead != 0 && s >= ahead ==> p == -s)
      && (m.n > 0 && (ahead == 0 || s < ahead) ==> p == m.n)
      && (m.n < 0 && s < ahead ==> p == -m.n)
      && (m.n < 0 && s >= ahead ==> p == m.n)
      && (m.n == 0 ==> p == 0)
  {}

  lemma ComputeKeepsParameters(m: Motor)
    requires m.Valid()
    ensures var m' := m.ComputeNewSpeed();
      && m'.Valid() && m'.c0 == m.c0 && m'.cmin == m.cmin && m'.acceleration == m.acceleration
      && m'.maxSpeed == m.maxSpeed && m'.currentPos == m.currentPos && m'.targetPos == m.targetPos
  {}

  lemma MoveToKeepsParameters(m: Motor, absolute: int)
    requires m.Valid()
    ensures var m' := m.MoveTo(absolute);
      && m'.c0 == m.c0 && m'.cmin == m.cmin && m'.acceleration == m.acceleration
      && m'.maxSpeed == m.maxSpeed && m'.currentPos == m.currentPos && m'.targetPos == absolute
  {
    hide Energy, NextInterval, Trunc, StepRate, Motor.PlannedCount;
  }

  /** Speed, interval and direction describe one motion. */
  predicate InStride(m: Motor) {
    && m.cn > 0.0
    && m.speed == (if m.direction == CCW then -(MICROS / m.cn) else MICROS / m.cn)
    && m.stepInterval == Trunc(m.cn)
  }

  lemma InStrideEnergy(m: Motor)
    requires m.acceleration > 0.0 && InStride(m)
    ensures m.E() == Energy(MICROS / m.cn, m.acceleration)
    ensures m.speed != 0.0
  {
    EnergySign(MICROS / m.cn, m.acceleration);
    assert (MICROS / m.cn) * m.cn == MICROS;
  }

  /** Whatever computeNewSpeed does, it stops the motor or leaves it in stride. */
  lemma ComputeInStride(m: Motor)
    requires m.Valid()
    ensures !m.Stops() ==> InStride(m.ComputeNewSpeed()) && m.ComputeNewSpeed().n == m.PlannedCount() + 1
    ensures m.PlannedCount() != 0 && !m.Stops() ==> m.ComputeNewSpeed().cn >= m.cmin
  {}

  /** moveTo is idempotent: the same target again changes nothing. */
  lemma MoveToAgain(m: Motor, absolute: int)
    requires m.Valid()
    ensures m.MoveTo(absolute).MoveTo(absolute) == m.MoveTo(absolute)
  {
    MoveToKeepsParameters(m, absolute);
    hide Motor.ComputeNewSpeed;
  }

  // ---------------------------------------------------------------- changing the settings

  /** Equation 17, truncated towards zero: the counter times the acceleration stays the same but for less than one new acceleration. */
  lemma RescaledTowardsZero(m: Motor, a: real, root: real)
    requires m.Valid() && a > 0.0 && IsRoot(root, a)
    ensures var n' := m.WithAcceleration(a, root).n;
      && (m.n >= 0 ==> n' >= 0 && n' as real * a <= m.n as real * m.acceleration < (n' as real + 1.0) * a)
      && (m.n <= 0 ==> n' <= 0 && (n' as real - 1.0) * a < m.n as real * m.acceleration <= n' as real * a)
  {
    RescaledName(m, a, root);
    PositiveParameters(m);
    hide *;
    RescaledBounds(m.n, m.acceleration, a);
  }

  lemma RescaledName(m: Motor, a: real, root: real)
    requires m.Valid() && a > 0.0 && IsRoot(root, a)
    ensures m.WithAcceleration(a, root).n == RescaledCount(m.n, m.acceleration, a)
  {
    hide RescaledCount, IsRoot;
  }

  lemma RescaledBounds(n: int, b: real, a: real)
    requires b > 0.0 && a > 0.0
    ensures var n' := RescaledCount(n, b, a);
      && (n >= 0 ==> n' >= 0 && n' as real * a <= n as real * b < (n' as real + 1.0) * a)
      && (n <= 0 ==> n' <= 0 && (n' as real - 1.0) * a < n as real * b <= n' as real * a)
  {
    var x := RescaledValue(n, b, a);
    hide *;
    TruncTimes(x, a, n as real * b, RescaledCount(n, b, a));
  }

  lemma RescaledValue(n: int, b: real, a: real) returns (x: real)
    requires b > 0.0 && a > 0.0
    ensures RescaledCount(n, b, a) == Trunc(x)
    ensures x * a == n as real * b
    ensures n >= 0 ==> x >= 0.0
    ensures n <= 0 ==> x <= 0.0
  {
    var q := b / a;
    x := n as real * q;
    assert RescaledCount(n, b, a) == Trunc(x);
    hide *;
    QuotientScales(n as real, b, a);
    TruncSign(n, q);
  }

  lemma QuotientScales(n: real, b: real, a: real)
    requires a > 0.0 && b > 0.0
    ensures (n * (b / a)) * a == n * b && b / a > 0.0
  {
    var q := b / a;
    assert q * a == b;
    assert (n * q) * a == n * (q * a);
  }

  lemma TruncTimes(x: real, a: real, p: real, t: int)
    requires a > 0.0 && p == x * a && t == Trunc(x)
    ensures x >= 0.0 ==> t >= 0 && t as real * a <= p < (t as real + 1.0) * a
    ensures x <= 0.0 ==> t <= 0 && (t as real - 1.0) * a < p <= t as real * a
  {
    var r := t as real;
    if x >= 0.0 {
      MulMono(r, x, a);
      ProductPositive(r + 1.0 - x, a, (r + 1.0 - x) * a);
    }
    if x <= 0.0 {
      MulMono(x, r, a);
      ProductPositive(x - r + 1.0, a, (x - r + 1.0) * a);
    }
  }

  lemma TruncSign(n: int, q: real)
    requires q > 0.0
    ensures n >= 0 ==> n as real * q >= 0.0
    ensures n <= 0 ==> n as real * q <= 0.0
  {
    if n >= 0 { MulMono(0.0, n as real, q); }
    if n <= 0 { MulMono(n as real, 0.0, q); }
  }

  /**
    setAcceleration in mid-acceleration: with room to go on, the motor makes its next update from
    the counter of Equation 17.
   */
  lemma SetAccelerationGoesOn(m: Motor, a: real, root: real)
    requires m.Valid() && a > 0.0 && a != m.acceleration && IsRoot(root, a) && m.n > 0
    requires m.WithAcceleration(a, root).StepsToStop() < m.Ahead()
    ensures var n' := m.SetAcceleration(a, root).n;
      n' >= 1 && (n' as real - 1.0) * a <= m.n as real * m.acceleration < n' as real * a
  {
    RescaledTowardsZero(m, a, root);
    var s := m.WithAcceleration(a, root);
    hide IsRoot, RescaledCount, Energy, NextInterval, Trunc, StepRate;
    PlanByAhead(s);
    ComputeInStride(s);
  }

  /**
    setMaxSpeed in mid-acceleration: the next update is made from the counter that belongs to the
    speed the motor has (Equation 16), to accelerate or, where the target is too near or behind, to
    brake.  In every other phase only the settings change.
   */
  lemma SetMaxSpeedRecounts(m: Motor, v: real)
    requires m.Valid() && v != 0.0 && Abs(v) != m.maxSpeed
    ensures var m' := m.SetMaxSpeed(v);
      && m'.maxSpeed == Abs(v) && m'.cmin * Abs(v) == MICROS
      && (m.n <= 0 ==> m' == m.(maxSpeed := m'.maxSpeed, cmin := m'.cmin))
      && (m.n > 0 && m.E() < m.Ahead() as real ==> m'.n >= 1 && m'.n as real - 1.0 <= m.E() < m'.n as real)
      && (m.n > 0 && m.Ahead() != 0 && m.E() >= m.Ahead() as real ==> m'.n <= 1 && 1.0 - m'.n as real <= m.E() < 2.0 - m'.n as real)
  {
    assert (MICROS / Abs(v)) * Abs(v) == MICROS;
    StepsToStopIsFloor(m);
    SetMaxSpeedUpdate(m, v);
    hide Motor.SetMaxSpeed, Energy, Motor.StepsToStop, Motor.PlannedCount;
    if m.n > 0 {
      var s := m.(maxSpeed := Abs(v), cmin := MICROS / Abs(v), n := m.StepsToStop());
      RecountedPlan(m, s);
    }
  }

  lemma SetMaxSpeedUpdate(m: Motor, v: real)
    requires m.Valid() && v != 0.0 && Abs(v) != m.maxSpeed
    ensures var s := m.(maxSpeed := Abs(v), cmin := MICROS / Abs(v));
      s.Valid() && m.SetMaxSpeed(v) == (if m.n > 0 then s.(n := m.StepsToStop()).ComputeNewSpeed() else s)
  {
    assert (MICROS / Abs(v)) * Abs(v) == MICROS;
    hide Motor.ComputeNewSpeed, Energy;
  }

  lemma RecountedPlan(m: Motor, s: Motor)
    requires m.Valid() && s.Valid() && s == m.(maxSpeed := s.maxSpeed, cmin := s.cmin, n := m.StepsToStop())
    ensures var m' := s.ComputeNewSpeed();
      && m'.maxSpeed == s.maxSpeed && m'.cmin == s.cmin
      && (m.StepsToStop() < m.Ahead() ==> m'.n == 1 + m.StepsToStop())
      && (m.Ahead() != 0 && m.StepsToStop() >= m.Ahead() ==> m'.n == 1 - m.StepsToStop())
  {
    StepsToStopIsFloor(s);
    assert s.StepsToStop() == m.StepsToStop() && s.Ahead() == m.Ahead();
    PlanByAhead(s);
    ComputeInStride(s);
    ComputeKeepsParameters(s);
    hide Energy, NextInterval, Trunc, StepRate, Motor.PlannedCount;
  }

  /** The first step from rest. */
  lemma StartingUpdate(m: Motor)
    requires m.Valid() && !m.Stops() && m.PlannedCount() == 0
    ensures m.ComputeNewSpeed().E() == RampEnergy(1)
  {
    var m' := m.ComputeNewSpeed();
    ComputeInStride(m);
    InStrideEnergy(m');
    EnergyOfInterval(m.c0, m.acceleration);
    RampStart();
    FirstEnergy(m'.E(), m.acceleration, m.c0);
  }

  lemma FirstEnergy(e: real, a: real, c: real)
    requires e * (2.0 * a) * (c * c) == MICROS * MICROS
    requires c * c * a == C0_SQUARED_A
    ensures e == 15625.0 / 28561.0
  {
    assert e * (2.0 * a) * (c * c) == 2.0 * e * (c * c * a);
  }

  /** An accelerating update at planned count p. */
  lemma AcceleratingUpdate(m: Motor, p: int)
    requires m.Valid() && InStride(m) && !m.Stops() && p == m.PlannedCount() >= 1
    ensures var r := p as real;
      && m.ComputeNewSpeed().E() * ((4.0 * r - 1.0) * (4.0 * r - 1.0)) <= m.E() * ((4.0 * r + 1.0) * (4.0 * r + 1.0))
      && (m.ComputeNewSpeed().cn > m.cmin ==>
          m.ComputeNewSpeed().E() * ((4.0 * r - 1.0) * (4.0 * r - 1.0)) == m.E() * ((4.0 * r + 1.0) * (4.0 * r + 1.0)))
    ensures m.ComputeNewSpeed().cn <= Max(m.cn, m.cmin)
  {
    hide Energy, NextInterval, Trunc;
    var m' := m.ComputeNewSpeed();
    ComputeInStride(m);
    InStrideEnergy(m);
    InStrideEnergy(m');
    EnergyAccelerating(m.cn, m'.cn, p, m.acceleration);
    AcceleratingShortens(m.cn, p);
  }

  lemma AcceleratingShortens(c: real, n: int)
    requires c > 0.0 && n >= 1
    ensures 0.0 < NextInterval(c, n) < c
  {
    var h := 4.0 * n as real + 1.0;
    var x := (2.0 * c) / h;
    assert x * h == 2.0 * c;
    assert x > 0.0;
    MulCancelStrict(x, c, h);
  }

  /** A decelerating update with k steps left. */
  lemma DeceleratingUpdate(m: Motor, k: int)
    requires m.Valid() && InStride(m) && !m.Stops() && k == -m.PlannedCount() >= 1
    ensures m.E() < k as real + 1.0 ==> m.ComputeNewSpeed().E() < k as real
    ensures m.cn >= m.cmin && k as real <= m.E() ==> k as real - 1.0 <= m.ComputeNewSpeed().E()
    ensures m.cn >= m.cmin ==> m.cn < m.ComputeNewSpeed().cn && m.ComputeNewSpeed().cn * 3.0 <= m.cn * 5.0
  {
    hide Energy, NextInterval, Trunc;
    var m' := m.ComputeNewSpeed();
    ComputeInStride(m);
    InStrideEnergy(m);
    InStrideEnergy(m');
    assert m'.cn >= NextInterval(m.cn, -k);
    EnergyDecelerating(m.cn, m'.cn, k, m.acceleration);
    DeceleratingLengthens(m.cn, k);
    if m.E() < k as real + 1.0 {
      DecelerationUpper(k, m.E(), m'.E());
    }
    if m.cn >= m.cmin && k as real <= m.E() {
      DecelerationLower(k, m.E(), m'.E());
    }
  }

  lemma DeceleratingLengthens(c: real, k: int)
    requires c > 0.0 && k >= 1
    ensures c < NextInterval(c, -k) && NextInterval(c, -k) * 3.0 <= c * 5.0
  {
    var h := 4.0 * k as real - 1.0;
    var x := (2.0 * c) / (4.0 * (-k) as real + 1.0);
    assert x * -h == 2.0 * c;
    assert (-x) * h == 2.0 * c;
    assert -x > 0.0;
    MulMono(3.0, h, -x);
  }
}
