/**
  What holds in every state a program can bring the motor into, whatever operations it calls
  in whatever order.
 */
module Reachable {
  import opened Ramp
  import opened Motion
  import opened Profile

  datatype Op =
    | MoveTo(absolute: int)
    | Move(relative: int)
    | Stop
    | SetMaxSpeed(maxSpeed: real)
    | SetAcceleration(acceleration: real, root: real)
    | SetSpeed(speed: real)
    | SetCurrentPosition(position: int)
    | RunSpeed(due: bool)
    | Run(due: bool)

  /** The arguments the documentation asks for, within what the library can time. */
  predicate Allowed(op: Op) {
    match op
    case SetMaxSpeed(v) => 0.0 < Abs(v) <= MICROS
    case SetAcceleration(a, root) => a != 0.0 ==> IsRoot(root, Abs(a)) && 0.676 * root * 1000000.0 >= 1.0
    case _ => true
  }

  function Apply(m: Motor, op: Op): (m': Motor)
    requires m.Valid() && Allowed(op)
    ensures m'.Valid()
  {
    match op
    case MoveTo(p) => m.MoveTo(p)
    case Move(r) => m.Move(r)
    case Stop => m.Stop()
    case SetMaxSpeed(v) => m.SetMaxSpeed(v)
    case SetAcceleration(a, root) => m.SetAcceleration(a, root)
    case SetSpeed(v) => m.SetSpeed(v)
    case SetCurrentPosition(p) => m.SetCurrentPosition(p)
    case RunSpeed(due) => if due && m.stepInterval != 0 then m.Stepped() else m
    case Run(due) => if due && m.stepInterval != 0 then m.RunDue() else m
  }

  ghost function ApplyAll(m: Motor, ops: seq<Op>): (m': Motor)
    requires m.Valid() && forall i | 0 <= i < |ops| :: Allowed(ops[i])
    ensures m'.Valid()
  {
    if ops == [] then m else Apply(ApplyAll(m, ops[..|ops| - 1]), ops[|ops| - 1])
  }

  // ---------------------------------------------------------------- speed and interval agree

  /** i is the time of a step at speed v in whole microseconds, that is, 10^6/|v| truncated. */
  predicate WholeMicros(i: int, v: real) {
    i as real * Abs(v) <= MICROS < (i + 1) as real * Abs(v)
  }

  lemma WholeMicrosOf(c: real, v: real)
    requires c >= 0.0 && (v * c == MICROS || v * c == -MICROS)
    ensures WholeMicros(Trunc(c), v)
  {
    var i := c.Floor;
    assert Abs(v) * c == MICROS;
    MulMono(i as real, c, Abs(v));
    ProductPositive((i + 1) as real - c, Abs(v), ((i + 1) as real - c) * Abs(v));
  }

  /** Interval, speed and direction tell one story; a nonzero counter comes with an interval. */
  ghost predicate Coherent(m: Motor) {
    && m.Valid() && m.Paced() && m.maxSpeed <= MICROS
    && (m.speed == 0.0 <==> m.stepInterval == 0)
    && (m.speed > 0.0 ==> m.direction == CW)
    && (m.speed < 0.0 ==> m.direction == CCW)
    && (m.speed != 0.0 ==> WholeMicros(m.stepInterval, m.speed))
    && m.stepInterval >= 0
    && (m.n != 0 ==> m.cn > 0.0)
  }

  /** The speed computeNewSpeed sets never exceeds the larger of the clamp speed and the first-step speed. */
  lemma SpeedCap(m: Motor)
    requires m.Valid()
    ensures Abs(m.ComputeNewSpeed().speed) <= Max(MICROS / m.cmin, MICROS / m.c0)
  {
    hide Energy, NextInterval, Trunc;
    var m' := m.ComputeNewSpeed();
    if !m.Stops() {
      InverseOrder(m'.cn, m.cmin);
      InverseOrder(m'.cn, m.c0);
    } else {
      InverseOrder(m.cmin, m.cmin);
    }
  }

  lemma InverseOrder(c: real, d: real)
    requires c > 0.0 && d > 0.0
    ensures MICROS / c > 0.0 && MICROS / d > 0.0
    ensures c >= d ==> MICROS / c <= MICROS / d
  {
    var x, y := MICROS / c, MICROS / d;
    assert x * c == MICROS && y * d == MICROS;
    if c >= d {
      assert x > 0.0;
      MulMono(d, c, x);
      MulCancel(x, y, d);
    }
  }

  lemma InversePositive(c: real)
    requires c > 0.0
    ensures MICROS / c > 0.0 && (MICROS / c) * c == MICROS
  {
    var v := MICROS / c;
    assert v * c == MICROS;
    assert v > 0.0;
  }

  lemma ComputeCoherent(m: Motor)
    requires m.Valid() && m.Paced() && m.maxSpeed <= MICROS && (m.n != 0 ==> m.cn > 0.0)
    ensures Coherent(m.ComputeNewSpeed())
  {
    var m' := m.ComputeNewSpeed();
    if !m.Stops() {
      InversePositive(m'.cn);
      WholeMicrosOf(m'.cn, m'.speed);
      TruncAtLeastOne(m'.cn);
    }
    hide Energy, NextInterval, Trunc, WholeMicros, StepRate, Motor.PlannedCount;
  }

  lemma SetSpeedCoherent(m: Motor, v: real)
    requires Coherent(m)
    ensures Coherent(m.SetSpeed(v))
  {
    var u := Constrain(v, -m.maxSpeed, m.maxSpeed);
    if u != 0.0 {
      IntervalOfSpeed(u);
    }
    hide WholeMicros, Trunc, Motor.Valid;
  }

  /** The interval setSpeed computes is at least one microsecond, and is the one that belongs to the speed. */
  lemma IntervalOfSpeed(u: real)
    requires 0.0 < Abs(u) <= MICROS
    ensures Trunc(Abs(MICROS / u)) >= 1 && WholeMicros(Trunc(Abs(MICROS / u)), u)
  {
    var q := MICROS / u;
    assert q * u == MICROS;
    hide Trunc, WholeMicros;
    QuotientAtLeastOne(q, u);
    WholeMicrosOf(Abs(q), u);
    TruncAtLeastOne(Abs(q));
  }

  lemma QuotientAtLeastOne(q: real, u: real)
    requires q * u == MICROS && 0.0 < Abs(u) <= MICROS
    ensures Abs(q) >= 1.0 && Abs(q) * Abs(u) == MICROS
    ensures u * Abs(q) == MICROS || u * Abs(q) == -MICROS
  {
    if u > 0.0 {
      MulCancel(1.0, q, u);
    } else {
      assert (-q) * (-u) == MICROS;
      MulCancel(1.0, -q, -u);
    }
  }

  /** setSpeed sets the speed asked for or, beyond the maximum speed, that speed the same way, with its direction and its interval. */
  lemma SetSpeedLaw(m: Motor, v: real)
    requires m.Valid() && m.maxSpeed <= MICROS && v != m.speed
    ensures var m' := m.SetSpeed(v);
      && (Abs(v) <= m.maxSpeed ==> m'.speed == v)
      && (v > m.maxSpeed ==> m'.speed == m.maxSpeed)
      && (v < -m.maxSpeed ==> m'.speed == -m.maxSpeed)
      && (v > 0.0 ==> m'.direction == CW) && (v < 0.0 ==> m'.direction == CCW)
      && (v != 0.0 ==> WholeMicros(m'.stepInterval, m'.speed))
      && (v == 0.0 ==> m' == m.(speed := 0.0, stepInterval := 0))
      && m' == m.(speed := m'.speed, stepInterval := m'.stepInterval, direction := m'.direction)
  {
    var u := if v > m.maxSpeed then m.maxSpeed else if v < -m.maxSpeed then -m.maxSpeed else v;
    PositiveParameters(m);
    if u != 0.0 {
      IntervalOfSpeed(u);
    }
    hide WholeMicros, Trunc, Motor.Valid;
  }

  /** There is only one such interval. */
  lemma CoherentInterval(m: Motor)
    requires Coherent(m)
    ensures m.Valid() && m.maxSpeed <= MICROS && (m.speed == 0.0 ==> m.stepInterval == 0)
    ensures m.speed != 0.0 ==> (m.speed > 0.0 <==> m.direction == CW) && m.stepInterval == Trunc(Abs(MICROS / m.speed))
  {
    if m.speed != 0.0 {
      WholeMicrosUnique(m.stepInterval, m.speed);
    }
    hide Motor.Valid, WholeMicros, Trunc;
  }

  lemma WholeMicrosUnique(i: int, v: real)
    requires v != 0.0 && i >= 0 && WholeMicros(i, v)
    ensures i == Trunc(Abs(MICROS / v))
  {
    var q := MICROS / v;
    assert q * v == MICROS;
    assert Abs(q) * Abs(v) == MICROS;
    MulCancel(i as real, Abs(q), Abs(v));
    MulCancelStrict(Abs(q), (i + 1) as real, Abs(v));
  }

  lemma TruncAtLeastOne(c: real)
    requires c >= 1.0
    ensures Trunc(c) >= 1
  {}

  lemma SpeedInterval(u: real)
    requires 0.0 < u <= MICROS
    ensures MICROS / u >= 1.0 && Trunc(MICROS / u) >= 1
  {
    InverseOrder(MICROS, u);
    assert MICROS / MICROS == 1.0;
  }

  lemma MaxSpeedCoherent(m: Motor, newSpeed: real)
    requires Coherent(m) && 0.0 < Abs(newSpeed) <= MICROS
    ensures Coherent(m.SetMaxSpeed(newSpeed))
  {
    var v := Abs(newSpeed);
    SpeedInterval(v);
    hide Energy, NextInterval, Trunc, Motor.ComputeNewSpeed;
    if m.maxSpeed != v && m.n > 0 {
      ComputeCoherent(m.(maxSpeed := v, cmin := MICROS / v, n := m.StepsToStop()));
    }
  }

  lemma AccelerationCoherent(m: Motor, newAcceleration: real, root: real)
    requires Coherent(m)
    requires newAcceleration != 0.0 ==> IsRoot(root, Abs(newAcceleration)) && 0.676 * root * 1000000.0 >= 1.0
    ensures Coherent(m.SetAcceleration(newAcceleration, root))
  {
    var a := Abs(newAcceleration);
    if newAcceleration != 0.0 && m.acceleration != a {
      RescaledCounter(m, a, root);
      hide Energy, NextInterval, Trunc, Motor.ComputeNewSpeed, Motor.WithAcceleration, IsRoot;
      ComputeCoherent(m.WithAcceleration(a, root));
    }
  }

  lemma RescaledCounter(m: Motor, a: real, root: real)
    requires m.Valid() && a > 0.0 && IsRoot(root, a)
    ensures var m' := m.WithAcceleration(a, root);
      m'.c0 == 0.676 * root * 1000000.0 && m'.cmin == m.cmin && m'.maxSpeed == m.maxSpeed && m'.cn == m.cn
      && (m.n == 0 ==> m'.n == 0)
  {
    assert RescaledCount(0, m.acceleration, a) == 0;
  }

  lemma ApplyCoherent(m: Motor, op: Op)
    requires Coherent(m) && Allowed(op)
    ensures Coherent(Apply(m, op))
  {
    hide Energy, NextInterval, Motor.ComputeNewSpeed;
    match op
    case MoveTo(p) => ComputeCoherent(m.(targetPos := p));
    case Move(r) => ComputeCoherent(m.(targetPos := m.currentPos + r));
    case Stop =>
      ComputeCoherent(m.(targetPos := m.currentPos + (m.StepsToStop() + 1)));
      ComputeCoherent(m.(targetPos := m.currentPos + -(m.StepsToStop() + 1)));
    case SetMaxSpeed(v) => MaxSpeedCoherent(m, v);
    case SetAcceleration(a, root) => AccelerationCoherent(m, a, root);
    case SetSpeed(v) => SetSpeedCoherent(m, v);
    case SetCurrentPosition(_) =>
    case RunSpeed(_) =>
    case Run(_) => ComputeCoherent(m.Stepped());
  }

  /** Every run of operations leaves speed, interval and direction coherent. */
  lemma {:induction false} AlwaysCoherent(m: Motor, ops: seq<Op>)
    requires Coherent(m) && forall i | 0 <= i < |ops| :: Allowed(ops[i])
    ensures Coherent(ApplyAll(m, ops))
  {
    if ops != [] {
      AlwaysCoherent(m, ops[..|ops| - 1]);
      hide Coherent, Apply, Allowed;
      ApplyCoherent(ApplyAll(m, ops[..|ops| - 1]), ops[|ops| - 1]);
    }
  }

  /**
    runSpeedToPosition is the exception: it turns the direction towards the target without touching the
    speed.  It keeps a coherent motor coherent exactly when the motor stands still, stands on its
    target, or already moves towards it.
   */
  lemma FacingTargetCoherent(m: Motor)
    requires Coherent(m)
    ensures Coherent(m.FacingTarget()) <==>
      m.speed == 0.0 || m.targetPos == m.currentPos || (m.speed > 0.0 <==> m.targetPos > m.currentPos)
  {}

  /** For an acceleration between 1 and 2^31 the first interval is between one microsecond and one second. */
  lemma RootBounds(r: real, a: real)
    requires IsRoot(r, a) && 1.0 <= a <= 2147483648.0
    ensures 1.0 <= 0.676 * r * 1000000.0 <= 1000000.0
  {
    var c := 0.676 * r * 1000000.0;
    assert c == 676000.0 * r;
    var rr := SquareOf(r);
    RootNotLarge(r, rr, a);
    RootNotSmall(r, rr, a);
  }

  lemma RootNotLarge(r: real, rr: real, a: real)
    requires r > 0.0 && rr == r * r && rr * a == 2.0 && a >= 1.0
    ensures 676000.0 * r <= 1000000.0
  {
    assert rr <= 2.0;
    if r > 1.45 {
      SquareMono(1.45, r);
    }
  }

  lemma RootNotSmall(r: real, rr: real, a: real)
    requires r > 0.0 && rr == r * r && rr * a == 2.0 && 1.0 <= a <= 2147483648.0
    ensures 676000.0 * r >= 1.0
  {
    MulMono(a, 2147483648.0, rr);
    if r < 0.0000015 {
      SquareMono(r, 0.0000015);
    }
  }

  /** A motor as the constructor leaves it. */
  function New(root: real): (m: Motor)
    requires IsRoot(root, 1.0)
    ensures m.Valid()
  {
    BLANK.SetAcceleration(1.0, root)
  }

  lemma NewState(root: real)
    requires IsRoot(root, 1.0)
    ensures New(root) == BLANK.(c0 := 0.676 * root * 1000000.0, acceleration := 1.0)
    ensures Coherent(New(root))
  {
    RootBounds(root, 1.0);
    var s := BLANK.WithAcceleration(1.0, root);
    StepsToStopIsFloor(s);
    hide IsRoot, Energy;
  }

  /** moveTo(-5) and setSpeed(1) on a new motor: runSpeedToPosition then turns it against its speed. */
  lemma TurnedAgainstSpeed(root: real)
    requires IsRoot(root, 1.0)
    ensures var ops := [MoveTo(-5), SetSpeed(1.0)];
      && Coherent(ApplyAll(New(root), ops))
      && !Coherent(ApplyAll(New(root), ops).FacingTarget())
      && ApplyAll(New(root), ops).FacingTarget().direction == CCW && ApplyAll(New(root), ops).FacingTarget().speed == 1.0
  {
    var m := New(root);
    var s := m.MoveTo(-5);
    NewState(root);
    hide *;
    NewParameters(root);
    MoveToKeepsParameters(m, -5);
    TwoOperations(m, MoveTo(-5), SetSpeed(1.0));
    SetSpeedOne(s);
    AlwaysCoherent(m, [MoveTo(-5), SetSpeed(1.0)]);
    FacingTargetCoherent(s.SetSpeed(1.0));
    FacingBack(s.SetSpeed(1.0));
  }

  lemma NewParameters(root: real)
    requires IsRoot(root, 1.0)
    ensures Allowed(MoveTo(-5)) && Allowed(SetSpeed(1.0)) && Allowed(SetMaxSpeed(1.0)) && Allowed(MoveTo(5)) && Allowed(Run(true))
    ensures New(root).currentPos == 0 && New(root).maxSpeed == 1.0
  {
    NewState(root);
  }

  lemma OneMore(m: Motor, ops: seq<Op>, op: Op)
    requires m.Valid() && Allowed(op) && forall i | 0 <= i < |ops| :: Allowed(ops[i])
    ensures ApplyAll(m, ops + [op]) == Apply(ApplyAll(m, ops), op)
  {
    hide Motor.Valid, Apply, Allowed;
    assert (ops + [op])[..|ops|] == ops;
  }

  lemma TwoOperations(m: Motor, a: Op, b: Op)
    requires m.Valid() && Allowed(a) && Allowed(b)
    ensures ApplyAll(m, [a, b]) == Apply(Apply(m, a), b)
    ensures a.MoveTo? && b.SetSpeed? ==> ApplyAll(m, [a, b]) == m.MoveTo(a.absolute).SetSpeed(b.speed)
  {
    hide Motor.Valid, Motor.MoveTo, Motor.SetSpeed, Allowed;
    OneMore(m, [], a);
    OneMore(m, [a], b);
    assert [] + [a] == [a] && [a] + [b] == [a, b];
  }

  lemma SetSpeedOne(s: Motor)
    requires s.Valid() && s.maxSpeed == 1.0
    ensures var m := s.SetSpeed(1.0); m.speed == 1.0 && m.currentPos == s.currentPos && m.targetPos == s.targetPos
  {
    hide Motor.Valid, Trunc;
  }

  lemma FacingBack(m: Motor)
    requires m.targetPos < m.currentPos
    ensures m.FacingTarget().direction == CCW && m.FacingTarget().speed == m.speed
  {
    hide Motor.Valid;
  }

  // ---------------------------------------------------------------- reversal

  /** Operations of accelerated motion that leave the acceleration alone. */
  predicate Gentle(op: Op) {
    !op.SetAcceleration? && !op.SetSpeed?
  }

  /** At rest on the target, or in stride; and with the counter at or below zero the motor can stop within 1 - n steps. */
  ghost predicate Safe(m: Motor) {
    && m.Valid()
    && (m.speed == 0.0 ==> AtRest(m))
    && (m.speed != 0.0 ==> InStride(m))
    && (m.n <= 0 ==> m.E() < 1.0 - m.n as real)
  }

  /** The heart of reversal safety: computeNewSpeed keeps it, and turns around only when v^2 < 2a. */
  lemma ComputeSafe(m: Motor)
    requires m.Valid() && (m.speed == 0.0 ==> m.n == 0) && (m.speed != 0.0 ==> InStride(m))
    requires m.n <= 0 ==> m.E() < 1.0 - m.n as real
    ensures Safe(m.ComputeNewSpeed())
    ensures m.ComputeNewSpeed().direction != m.direction ==> m.E() < 1.0
  {
    hide Energy, NextInterval, Trunc;
    var m' := m.ComputeNewSpeed();
    StepsToStopIsFloor(m);
    StepsToStopIsFloor(m');
    if !m.Stops() {
      ComputeInStride(m);
      InStrideEnergy(m');
      var p := m.PlannedCount();
      if p < 0 {
        DeceleratingUpdate(m, -p);
      }
    }
  }

  lemma ApplySafe(m: Motor, op: Op)
    requires Safe(m) && Allowed(op) && Gentle(op)
    ensures Safe(Apply(m, op))
    ensures Apply(m, op).direction != m.direction ==> m.E() < 1.0
  {
    hide Energy, NextInterval, Trunc, Motor.ComputeNewSpeed;
    StepsToStopIsFloor(m);
    match op
    case MoveTo(p) => RetargetSafe(m, p);
    case Move(r) => RetargetSafe(m, m.currentPos + r);
    case Stop =>
      RetargetSafe(m, m.currentPos + (m.StepsToStop() + 1));
      RetargetSafe(m, m.currentPos + -(m.StepsToStop() + 1));
    case SetMaxSpeed(v) => MaxSpeedSafe(m, v);
    case SetCurrentPosition(p) => StepsToStopIsFloor(m.SetCurrentPosition(p));
    case RunSpeed(_) => assert m.Stepped().E() == m.E();
    case Run(_) =>
      assert m.Stepped().E() == m.E();
      ComputeSafe(m.Stepped());
  }

  lemma RetargetSafe(m: Motor, p: int)
    requires Safe(m)
    ensures Safe(m.MoveTo(p)) && (m.MoveTo(p).direction != m.direction ==> m.E() < 1.0)
  {
    hide Energy, NextInterval, Trunc, Motor.ComputeNewSpeed;
    assert m.(targetPos := p).E() == m.E();
    ComputeSafe(m.(targetPos := p));
  }

  lemma MaxSpeedSafe(m: Motor, v: real)
    requires Safe(m) && v != 0.0
    ensures Safe(m.SetMaxSpeed(v)) && (m.SetMaxSpeed(v).direction != m.direction ==> m.E() < 1.0)
  {
    hide Energy, NextInterval, Trunc, Motor.ComputeNewSpeed;
    InverseOrder(Abs(v), Abs(v));
    StepsToStopIsFloor(m);
    var s := m.(maxSpeed := Abs(v), cmin := MICROS / Abs(v));
    assert s.E() == m.E();
    if m.maxSpeed != Abs(v) && m.n > 0 {
      var t := s.(n := m.StepsToStop());
      assert t.E() == m.E();
      ComputeSafe(t);
    }
  }

  /** The direction changes between two consecutive states of a run only if v^2 < 2a in the first. */
  ghost predicate TurnsSafely(m: Motor, m': Motor)
    requires m.acceleration > 0.0
  {
    m'.direction != m.direction ==> m.speed * m.speed < 2.0 * m.acceleration
  }

  /**
    Reversal safety over whole runs at constant acceleration: with the step counter at or below
    zero the motor can stop within 1 - n steps, and no operation ever turns it around unless v^2 < 2a.
   */
  lemma {:induction false} NeverReversesAtSpeed(m: Motor, ops: seq<Op>)
    requires Safe(m) && forall i | 0 <= i < |ops| :: Allowed(ops[i]) && Gentle(ops[i])
    ensures Safe(ApplyAll(m, ops))
    ensures forall i | 0 <= i < |ops| :: TurnsSafely(ApplyAll(m, ops[..i]), ApplyAll(m, ops[..i + 1]))
  {
    if ops != [] {
      var last := |ops| - 1;
      var front := ops[..last];
      NeverReversesAtSpeed(m, front);
      hide Safe, Allowed, Gentle, TurnsSafely, Apply;
      forall i | 0 <= i < |ops| ensures TurnsSafely(ApplyAll(m, ops[..i]), ApplyAll(m, ops[..i + 1])) {
        if i < last {
          assert front[..i] == ops[..i] && front[..i + 1] == ops[..i + 1];
          assert TurnsSafely(ApplyAll(m, front[..i]), ApplyAll(m, front[..i + 1]));
        } else {
          assert ops[..i + 1] == ops;
          ApplyTurnsSafely(ApplyAll(m, front), ops[last]);
        }
      }
      ApplyTurnsSafely(ApplyAll(m, front), ops[last]);
    }
  }

  lemma ApplyTurnsSafely(m: Motor, op: Op)
    requires Safe(m) && Allowed(op) && Gentle(op)
    ensures Safe(Apply(m, op)) && TurnsSafely(m, Apply(m, op))
  {
    hide Energy, Apply, Gentle, Allowed, InStride;
    ApplySafe(m, op);
    if m.E() < 1.0 {
      BelowOneStep(m.speed, m.acceleration);
    }
  }

  lemma BelowOneStep(v: real, a: real)
    requires a > 0.0 && Energy(v, a) < 1.0
    ensures v * v < 2.0 * a
  {
    assert Energy(v, a) * (2.0 * a) == v * v;
  }

  // ---------------------------------------------------------------- the default maximum speed

  /** The clamp interval is the one that belongs to the maximum speed. */
  predicate Tuned(m: Motor) {
    m.cmin * m.maxSpeed == MICROS
  }

  predicate RealSetting(op: Op) {
    op.SetMaxSpeed? && Abs(op.maxSpeed) != 1.0
  }

  /** A motor fresh from the constructor. */
  ghost predicate Fresh(m: Motor) {
    m.Valid() && m.maxSpeed == 1.0 && m.cmin == 1.0
  }

  /**
    The documentation gives a default maximum speed of one step per second; the constructor instead
    leaves the clamp at one microsecond, and setMaxSpeed(1) changes nothing.  A maximum speed is in
    force after a run of operations exactly when some call set one other than 1.
   */
  lemma {:induction false} MaxSpeedInForce(m: Motor, ops: seq<Op>)
    requires Fresh(m) && forall i | 0 <= i < |ops| :: Allowed(ops[i])
    ensures Tuned(ApplyAll(m, ops)) <==> exists i | 0 <= i < |ops| :: RealSetting(ops[i])
    ensures !Tuned(ApplyAll(m, ops)) ==> Fresh(ApplyAll(m, ops))
  {
    if ops != [] {
      var last := |ops| - 1;
      MaxSpeedInForce(m, ops[..last]);
      hide Tuned, Fresh, RealSetting, Apply, Allowed;
      SettingStep(ApplyAll(m, ops[..last]), ops[last]);
      assert forall i | 0 <= i < last :: ops[..last][i] == ops[i];
      if i :| 0 <= i < last && RealSetting(ops[i]) {
        assert RealSetting(ops[..last][i]);
      }
    }
  }

  /** setMaxSpeed(1) on a new motor: two steps into a move it is going faster than one step a second. */
  lemma DefaultExceeded(root: real)
    requires IsRoot(root, 1.0)
    ensures var ops := [SetMaxSpeed(1.0), MoveTo(5), Run(true)];
      !Tuned(ApplyAll(New(root), ops)) && ApplyAll(New(root), ops).speed > ApplyAll(New(root), ops).maxSpeed == 1.0
  {
    var m := New(root);
    NewState(root);
    RootBounds(root, 1.0);
    FirstSteps(m);
    hide *;
    NewParameters(root);
    ThreeOperations(m, SetMaxSpeed(1.0), MoveTo(5), Run(true));
  }

  lemma ThreeOperations(m: Motor, a: Op, b: Op, c: Op)
    requires m.Valid() && Allowed(a) && Allowed(b) && Allowed(c)
    ensures ApplyAll(m, [a, b, c]) == Apply(Apply(Apply(m, a), b), c)
  {
    TwoOperations(m, a, b);
    hide *;
    OneMore(m, [a, b], c);
    assert [a, b] + [c] == [a, b, c];
  }

  lemma FirstSteps(m: Motor)
    requires m.Valid() && AtRest(m) && m.currentPos == 0 && m.maxSpeed == 1.0 && m.cmin == 1.0 && 1.0 <= m.c0 <= MICROS
    ensures Allowed(SetMaxSpeed(1.0)) && Allowed(MoveTo(5)) && Allowed(Run(true))
    ensures var m' := Apply(Apply(Apply(m, SetMaxSpeed(1.0)), MoveTo(5)), Run(true));
      m'.speed > 1.0 == m'.maxSpeed && m'.cmin == 1.0
  {
    StartMove(m, 5);
    var s := m.MoveTo(5);
    MoveToKeepsParameters(m, 5);
    StartInterval(s);
    hide Motor.MoveTo, Motor.RunDue, Motor.Valid, Energy, InStride, RampEnergy;
    SecondStep(s);
  }

  lemma StartInterval(s: Motor)
    requires Accelerating(s) && s.cn >= 1.0
    ensures s.stepInterval != 0
  {
    TruncAtLeastOne(s.cn);
  }

  /** The second step of a move, on a motor with no effective clamp. */
  lemma SecondStep(s: Motor)
    requires Accelerating(s) && s.n == 1 && s.cn == s.c0 <= MICROS && s.cmin == 1.0 && s.E() == RampEnergy(1)
    requires s.direction == CW && s.Ahead() == 5
    ensures s.Valid() && s.RunDue().speed > 1.0 && s.RunDue().maxSpeed == s.maxSpeed && s.RunDue().cmin == s.cmin
  {
    hide Energy, NextInterval, Trunc, RampEnergy;
    var p := s.Stepped();
    StepsAhead(s);
    RampStart();
    StepsToStopIsFloor(p);
    PlannedTowards(p);
    ComputeKeepsParameters(p);
    ComputeInStride(p);
    AcceleratingShortens(p.cn, 1);
    InverseBelow(p.ComputeNewSpeed().cn);
  }

  lemma InverseBelow(c: real)
    requires 0.0 < c
    ensures c < MICROS ==> MICROS / c > 1.0
  {
    var x := MICROS / c;
    assert x * c == MICROS;
  }

  lemma SettingStep(m: Motor, op: Op)
    requires m.Valid() && Allowed(op) && (Tuned(m) || Fresh(m))
    ensures Tuned(Apply(m, op)) <==> Tuned(m) || RealSetting(op)
    ensures !Tuned(Apply(m, op)) ==> Fresh(Apply(m, op))
  {
    if op.SetMaxSpeed? {
      var v := Abs(op.maxSpeed);
      MaxSpeedSets(m, op.maxSpeed);
      assert (MICROS / v) * v == MICROS;
    } else {
      OthersKeepMaxSpeed(m, op);
    }
    hide Motor.Valid, Motor.SetMaxSpeed;
  }

  lemma MaxSpeedSets(m: Motor, v: real)
    requires m.Valid() && v != 0.0
    ensures var m' := m.SetMaxSpeed(v);
      if m.maxSpeed == Abs(v) then m' == m else m'.maxSpeed == Abs(v) && m'.cmin == MICROS / Abs(v)
  {
    hide Energy, NextInterval, Trunc, StepRate, Motor.PlannedCount;
  }

  lemma OthersKeepMaxSpeed(m: Motor, op: Op)
    requires m.Valid() && Allowed(op) && !op.SetMaxSpeed?
    ensures Apply(m, op).maxSpeed == m.maxSpeed && Apply(m, op).cmin == m.cmin
  {
    hide Energy, NextInterval, Trunc, StepRate, RescaledCount, Motor.PlannedCount;
  }
}
