/**
  Coordinated constant-speed motion of several motors (MultiStepper.cpp).
 */
module MultiSteppers {
  import opened Integers
  import opened Ramp
  import opened Motion
  import opened Profile
  import opened Reachable
  import opened Pulses
  import opened AccelSteppers

  const MULTISTEPPER_MAX_STEPPERS := 10

  // ---------------------------------------------------------------- one motor's part

  /** The time in seconds motor m needs to cover d steps at its maximum speed. */
  function TimeFor(d: int, maxSpeed: real): real
    requires maxSpeed > 0.0
  {
    Abs(d as real) / maxSpeed
  }

  /** The time it needs to get to a target. */
  function TimeOf(m: Motor, target: int): real
    requires m.Valid()
  {
    TimeFor(target - m.currentPos, m.maxSpeed)
  }

  /** What moveTo does to one motor when the longest of all times is t. */
  function Aimed(m: Motor, target: int, t: real): Motor
    requires m.Valid() && t >= 0.0
  {
    if t > 0.0 then m.MoveTo(target).SetSpeed((target - m.currentPos) as real / t) else m
  }

  /** The interval of a motor that covers d steps in t seconds. */
  function PacedInterval(d: int, t: real): int
    requires d != 0
  {
    Trunc(MICROS * t / Abs(d as real))
  }

  /** A motor set to cover the distance to its target in t seconds, at constant speed. */
  ghost predicate OnPace(m: Motor, t: real) {
    && Coherent(m)
    && (m.DistanceToGo() == 0 ==> m.speed == 0.0 && m.stepInterval == 0)
    && (m.DistanceToGo() != 0 ==>
          && t > 0.0
          && m.speed == m.DistanceToGo() as real / t
          && m.Ahead() >= 1
          && m.stepInterval == PacedInterval(m.DistanceToGo(), t) >= 1)
  }

  /**
    Within its maximum speed no motor is asked for more than it can do: the speed moveTo computes is not
    changed by the constrain in setSpeed, points at the target, and sets the interval that goes with it.
   */
  lemma AimedOnPace(m: Motor, target: int, t: real)
    requires Coherent(m) && t > 0.0 && TimeFor(target - m.currentPos, m.maxSpeed) <= t
    ensures var m' := Aimed(m, target, t);
      && m'.currentPos == m.currentPos && m'.targetPos == target && OnPace(m', t)
  {
    CoherentInterval(m);
    var d := target - m.currentPos;
    var s := m.MoveTo(target);
    MoveToKeepsParameters(m, target);
    ApplyCoherent(m, MoveTo(target));
    CoherentInterval(s);
    WithinMaxSpeed(d, m.maxSpeed, t);
    if d != 0 {
      PaceInterval(d, m.maxSpeed, t);
    }
    SetSpeedCoherent(s, d as real / t);
    hide Motor.MoveTo, Energy, TimeFor, Motor.Valid, Coherent, PacedInterval, Trunc;
    AimedSpeed(s, d, t);
  }

  /** A motor set by moveTo is fit for runSpeedToPosition, with no interval above the time of the whole move. */
  lemma AimedUnderway(m: Motor, target: int, t: real, limit: nat)
    requires Coherent(m) && t > 0.0 && TimeFor(target - m.currentPos, m.maxSpeed) <= t && MICROS * t <= limit as real
    ensures Underway(Aimed(m, target, t), limit) && Aimed(m, target, t).targetPos == target
  {
    AimedOnPace(m, target, t);
    var m' := Aimed(m, target, t);
    hide Aimed, TimeFor, Coherent;
    if m'.DistanceToGo() != 0 {
      IntervalBelow(m'.DistanceToGo(), t);
    }
  }

  lemma IntervalBelow(d: int, t: real)
    requires d != 0 && t > 0.0
    ensures PacedInterval(d, t) as real <= MICROS * t
  {
    var x, a := MICROS * t, Abs(d as real);
    var q := QuotientOf(x, a);
    BelowProduct(q, a, x);
  }

  lemma BelowProduct(q: real, a: real, x: real)
    requires a >= 1.0 && q * a == x && x > 0.0
    ensures 0.0 < q <= x
  {
    if q <= 0.0 { MulMono(q, 0.0, a); }
    MulMono(1.0, a, q);
  }

  /** t is the time of the slowest of the motors, 0 if there is none. */
  ghost predicate IsLongest(t: real, ms: seq<Motor>, absolute: seq<int>)
    requires |absolute| == |ms| && forall i | 0 <= i < |ms| :: ms[i].Valid()
  {
    && t >= 0.0
    && (forall i | 0 <= i < |ms| :: TimeOf(ms[i], absolute[i]) <= t)
    && (t == 0.0 || exists i | 0 <= i < |ms| :: t == TimeOf(ms[i], absolute[i]))
  }

  /** What moveTo does to all the motors when the longest of their times is t. */
  ghost function AimedAll(ms: seq<Motor>, absolute: seq<int>, t: real): (ms': seq<Motor>)
    requires |absolute| == |ms| && t >= 0.0 && forall i | 0 <= i < |ms| :: ms[i].Valid()
    ensures |ms'| == |ms| && forall i | 0 <= i < |ms| :: ms'[i].Valid()
  {
    seq(|ms|, i requires 0 <= i < |ms| => Aimed(ms[i], absolute[i], t))
  }

  /** Is some motor asked to move at all? */
  ghost predicate Asked(ms: seq<Motor>, absolute: seq<int>)
    requires |absolute| == |ms|
  {
    exists i | 0 <= i < |ms| :: absolute[i] != ms[i].currentPos
  }

  /** Every motor has got the target it was asked for. */
  ghost predicate AllAimed(ms: seq<Motor>, absolute: seq<int>)
    requires |absolute| == |ms|
  {
    forall i | 0 <= i < |ms| :: ms[i].targetPos == absolute[i]
  }

  ghost predicate NowhereToGo(ms: seq<Motor>) {
    forall i | 0 <= i < |ms| :: ms[i].DistanceToGo() == 0
  }

  /**
    What moveTo does to all motors does not always give them their targets: when every motor
    already stands where it is asked to be, nothing changes, and a motor under way to an older target
    keeps it.  The targets are those asked for if and only if some motor is asked to move or none had
    anywhere left to go.
   */
  lemma NothingToAim(ms: seq<Motor>, absolute: seq<int>, t: real)
    requires |absolute| == |ms| && forall i | 0 <= i < |ms| :: ms[i].Valid()
    requires IsLongest(t, ms, absolute)
    ensures t > 0.0 <==> Asked(ms, absolute)
    ensures !Asked(ms, absolute) ==> AimedAll(ms, absolute, t) == ms
    ensures AllAimed(AimedAll(ms, absolute, t), absolute) <==>
      Asked(ms, absolute) || NowhereToGo(ms)
  {
    LongestAsked(ms, absolute, t);
    hide Motor.Valid, Motor.MoveTo, Motor.SetSpeed, TimeFor;
    var ms' := AimedAll(ms, absolute, t);
    forall i | 0 <= i < |ms| && t > 0.0 ensures ms'[i].targetPos == absolute[i] {
      AimedTarget(ms[i], absolute[i], t);
    }
    if !Asked(ms, absolute) {
      assert forall i | 0 <= i < |ms| :: ms'[i] == ms[i] && ms[i].currentPos == absolute[i];
    }
  }

  lemma LongestAsked(ms: seq<Motor>, absolute: seq<int>, t: real)
    requires |absolute| == |ms| && forall i | 0 <= i < |ms| :: ms[i].Valid()
    requires IsLongest(t, ms, absolute)
    ensures t > 0.0 <==> Asked(ms, absolute)
  {
    if t == 0.0 {
      forall i | 0 <= i < |ms| ensures absolute[i] == ms[i].currentPos {
        NoTimeNoDistance(ms[i], absolute[i]);
      }
    } else {
      var i :| 0 <= i < |ms| && t == TimeOf(ms[i], absolute[i]);
      if absolute[i] == ms[i].currentPos { NoDistanceNoTime(ms[i].maxSpeed); }
    }
  }

  lemma NoDistanceNoTime(maxSpeed: real)
    requires maxSpeed > 0.0
    ensures TimeFor(0, maxSpeed) == 0.0
  {}

  lemma AimedTarget(m: Motor, target: int, t: real)
    requires m.Valid() && t > 0.0
    ensures Aimed(m, target, t).targetPos == target
  {
    MoveToKeepsParameters(m, target);
    hide Motor.MoveTo, Trunc;
  }

  /** The longest time is enough for every motor at its maximum speed, and just enough for one of them. */
  lemma LongestMeans(ms: seq<Motor>, absolute: seq<int>, t: real)
    requires |absolute| == |ms| && forall i | 0 <= i < |ms| :: ms[i].Valid()
    requires IsLongest(t, ms, absolute)
    ensures forall i | 0 <= i < |ms| :: Suffices(ms[i], absolute[i], t)
    ensures Asked(ms, absolute) ==> exists i | 0 <= i < |ms| :: JustEnough(ms[i], absolute[i], t)
  {
    LongestAsked(ms, absolute, t);
    forall i | 0 <= i < |ms| ensures Suffices(ms[i], absolute[i], t) {
      LongestCovers(ms, absolute, t, i);
      TimeEnough(ms[i], absolute[i], t);
    }
    if Asked(ms, absolute) {
      var i :| 0 <= i < |ms| && t == TimeOf(ms[i], absolute[i]);
      TimeEnough(ms[i], absolute[i], t);
      assert JustEnough(ms[i], absolute[i], t);
    }
  }

  /** At its maximum speed the motor gets there in t seconds. */
  predicate Suffices(m: Motor, target: int, t: real) {
    Abs((target - m.currentPos) as real) <= m.maxSpeed * t
  }

  /** At its maximum speed the motor gets there in exactly t seconds. */
  predicate JustEnough(m: Motor, target: int, t: real) {
    Abs((target - m.currentPos) as real) == m.maxSpeed * t
  }

  lemma TimeEnough(m: Motor, target: int, t: real)
    requires m.Valid()
    ensures TimeOf(m, target) <= t ==> Abs((target - m.currentPos) as real) <= m.maxSpeed * t
    ensures t == TimeOf(m, target) ==> JustEnough(m, target, t)
  {
    PositiveParameters(m);
    var x := TimeOf(m, target);
    assert x * m.maxSpeed == Abs((target - m.currentPos) as real);
    hide *;
    if x <= t { MulMono(x, t, m.maxSpeed); }
  }

  /** The motor is set to cover its distance in exactly t seconds, within its maximum speed. */
  predicate Covers(m: Motor, d: int, t: real) {
    m.speed * t == d as real && Abs(m.speed) <= m.maxSpeed
  }

  predicate FullSpeed(m: Motor) {
    Abs(m.speed) == m.maxSpeed
  }

  /**
    A coordinated move is as fast as it can be: every motor is set to cover its distance in the
    same time, within its maximum speed, and one of them at its maximum speed.
   */
  lemma FastestTogether(ms: seq<Motor>, absolute: seq<int>, t: real)
    requires |absolute| == |ms| && forall i | 0 <= i < |ms| :: Coherent(ms[i]) && ms[i].Valid()
    requires IsLongest(t, ms, absolute) && Asked(ms, absolute)
    ensures t > 0.0
    ensures forall i | 0 <= i < |ms| :: Covers(AimedAll(ms, absolute, t)[i], absolute[i] - ms[i].currentPos, t)
    ensures exists i | 0 <= i < |ms| :: FullSpeed(AimedAll(ms, absolute, t)[i])
  {
    LongestAsked(ms, absolute, t);
    LongestMeans(ms, absolute, t);
    hide IsLongest, Motor.Valid, Coherent, Aimed, TimeOf, Covers, FullSpeed, JustEnough;
    var ms' := AimedAll(ms, absolute, t);
    forall i | 0 <= i < |ms|
      ensures Covers(ms'[i], absolute[i] - ms[i].currentPos, t)
      ensures JustEnough(ms[i], absolute[i], t) ==> FullSpeed(ms'[i])
    {
      LongestCovers(ms, absolute, t, i);
      AimedCovers(ms[i], absolute[i], t);
    }
    var i :| 0 <= i < |ms| && JustEnough(ms[i], absolute[i], t);
    assert FullSpeed(ms'[i]);
  }

  lemma AimedCovers(m: Motor, target: int, t: real)
    requires Coherent(m) && m.Valid() && t > 0.0 && TimeOf(m, target) <= t
    ensures Covers(Aimed(m, target, t), target - m.currentPos, t)
    ensures JustEnough(m, target, t) ==> FullSpeed(Aimed(m, target, t))
  {
    hide *;
    var m' := PacedAim(m, target, t);
    TimeEnough(m, target, t);
    Enough(m, target, t, m');
    CoversFrom(m', target - m.currentPos, t);
    if JustEnough(m, target, t) { FullFrom(m, target, t, m'); }
  }

  lemma PacedAim(m: Motor, target: int, t: real) returns (m': Motor)
    requires Coherent(m) && m.Valid() && t > 0.0 && TimeOf(m, target) <= t
    ensures m' == Aimed(m, target, t) && m'.maxSpeed == m.maxSpeed > 0.0 && m'.speed * t == (target - m.currentPos) as real
  {
    m' := Aimed(m, target, t);
    TimeOfMeans(m, target);
    PositiveParameters(m);
    hide *;
    AimedOnPace(m, target, t);
    AimedMaxSpeed(m, target, t);
    PaceTimes(m', t);
  }

  lemma TimeOfMeans(m: Motor, target: int)
    requires m.Valid()
    ensures m.maxSpeed > 0.0 && TimeOf(m, target) == TimeFor(target - m.currentPos, m.maxSpeed)
  {}

  lemma Enough(m: Motor, target: int, t: real, m': Motor)
    requires m'.maxSpeed == m.maxSpeed && Abs((target - m.currentPos) as real) <= m.maxSpeed * t
    ensures Abs((target - m.currentPos) as real) <= m'.maxSpeed * t
  {}

  lemma AimedMaxSpeed(m: Motor, target: int, t: real)
    requires m.Valid() && t > 0.0
    ensures Aimed(m, target, t).maxSpeed == m.maxSpeed
  {
    MoveToKeepsParameters(m, target);
    hide Motor.MoveTo, Trunc;
  }

  lemma PaceTimes(m: Motor, t: real)
    requires OnPace(m, t) && t > 0.0
    ensures m.speed * t == m.DistanceToGo() as real && m.DistanceToGo() == m.targetPos - m.currentPos
  {}

  lemma CoversFrom(m: Motor, d: int, t: real)
    requires t > 0.0 && m.speed * t == d as real && Abs(d as real) <= m.maxSpeed * t
    ensures Covers(m, d, t)
  {
    QuotientBounds(m.speed, t, m.maxSpeed);
  }

  lemma FullFrom(m: Motor, target: int, t: real, m': Motor)
    requires t > 0.0 && JustEnough(m, target, t) && m'.maxSpeed == m.maxSpeed > 0.0
    requires m'.speed * t == (target - m.currentPos) as real
    ensures FullSpeed(m')
  {
    if m'.speed >= 0.0 {
      MulCancelSame(m'.speed, m.maxSpeed, t);
    } else {
      assert (-m'.speed) * t == -(m'.speed * t);
      MulCancelSame(-m'.speed, m.maxSpeed, t);
    }
  }

  /**
    So a coordinated move cannot be called off by asking every motor to stay where it is: each
    goes on towards the target it had.
   */
  lemma StayIsIgnored(ms: seq<Motor>, absolute: seq<int>, t: real, stay: seq<int>, t': real, i: nat)
    requires |stay| == |absolute| == |ms| && i < |ms| && absolute[i] != ms[i].currentPos
    requires forall j | 0 <= j < |ms| :: Coherent(ms[j]) && ms[j].Valid() && stay[j] == ms[j].currentPos
    requires IsLongest(t, ms, absolute) && IsLongest(t', AimedAll(ms, absolute, t), stay)
    ensures var m := AimedAll(AimedAll(ms, absolute, t), stay, t')[i];
      m.targetPos == absolute[i] != stay[i] && m.speed != 0.0 && m.Ahead() >= 1
  {
    var aimed := AimedAll(ms, absolute, t);
    LongestAsked(ms, absolute, t);
    hide IsLongest, Coherent, Motor.Valid, Motor.MoveTo, Motor.SetSpeed, Aimed;
    forall j | 0 <= j < |ms| ensures aimed[j].currentPos == stay[j] {
      LongestCovers(ms, absolute, t, j);
      AimedOnPace(ms[j], absolute[j], t);
    }
    LongestCovers(ms, absolute, t, i);
    AimedOnPace(ms[i], absolute[i], t);
    NothingToAim(aimed, stay, t');
    assert !Asked(aimed, stay);
    PacedSpeed(aimed[i], t);
  }

  /** One motor, on its way from 0 to 5 at one step a second: asked to be at 0, it still has target 5. */
  lemma OldTargetKept(m: Motor)
    requires m == Motor(0, 5, 1.0, 1.0, 2.0, 1000000, CW, 2, 676000.0, 676000.0, 1000000.0)
    ensures Coherent(m) && m.Valid() && IsLongest(0.0, [m], [0])
    ensures AimedAll([m], [0], 0.0)[0].targetPos == 5 && !AllAimed(AimedAll([m], [0], 0.0), [0])
  {
    NoDistanceNoTime(m.maxSpeed);
    var ms' := AimedAll([m], [0], 0.0);
    assert ms'[0].targetPos != [0][0];
  }

  lemma LongestNotNegative(t: real, ms: seq<Motor>, absolute: seq<int>)
    requires |absolute| == |ms| && (forall j | 0 <= j < |ms| :: ms[j].Valid()) && IsLongest(t, ms, absolute)
    ensures t >= 0.0
  {}

  lemma LongestCovers(ms: seq<Motor>, absolute: seq<int>, t: real, i: nat)
    requires |absolute| == |ms| && i < |ms| && forall j | 0 <= j < |ms| :: ms[j].Valid()
    requires IsLongest(t, ms, absolute)
    ensures TimeOf(ms[i], absolute[i]) <= t
  {}

  lemma PacedSpeed(m: Motor, t: real)
    requires OnPace(m, t) && m.DistanceToGo() != 0
    ensures m.speed != 0.0 && m.Ahead() >= 1
  {}

  lemma NoTimeNoDistance(m: Motor, target: int)
    requires m.Valid() && TimeFor(target - m.currentPos, m.maxSpeed) <= 0.0
    ensures target == m.currentPos
  {
    var x := TimeFor(target - m.currentPos, m.maxSpeed);
    assert x * m.maxSpeed == Abs((target - m.currentPos) as real);
    MulMono(x, 0.0, m.maxSpeed);
  }

  lemma AimedSpeed(s: Motor, d: int, t: real)
    requires s.Valid() && (s.speed == 0.0 ==> s.stepInterval == 0) && t > 0.0
    requires s.speed != 0.0 ==> (s.speed > 0.0 <==> s.direction == CW) && s.stepInterval == Trunc(Abs(MICROS / s.speed))
    requires -s.maxSpeed <= d as real / t <= s.maxSpeed
    requires d != 0 ==> PacedInterval(d, t) >= 1 && PacedInterval(d, t) == Trunc(Abs(MICROS / (d as real / t)))
    requires d > 0 ==> d as real / t > 0.0
    requires d < 0 ==> d as real / t < 0.0
    requires d == 0 ==> d as real / t == 0.0
    ensures var m' := s.SetSpeed(d as real / t);
      && m'.speed == d as real / t && m'.currentPos == s.currentPos && m'.targetPos == s.targetPos
      && (d == 0 ==> m'.stepInterval == 0)
      && (d > 0 ==> m'.direction == CW && m'.stepInterval == PacedInterval(d, t))
      && (d < 0 ==> m'.direction == CCW && m'.stepInterval == PacedInterval(d, t))
  {
    hide PacedInterval, Energy, Coherent, Motor.Valid;
  }

  lemma NegatedQuotient(v: real)
    requires v != 0.0
    ensures MICROS / -v == -(MICROS / v)
    ensures v > 0.0 ==> MICROS / v > 0.0
    ensures v < 0.0 ==> MICROS / v < 0.0
  {
    var q := MICROS / v;
    assert q * v == MICROS;
    assert (-q) * -v == MICROS;
  }

  /** d/t is within the maximum speed exactly because t is at least d's time. */
  lemma WithinMaxSpeed(d: int, maxSpeed: real, t: real)
    requires maxSpeed > 0.0 && t > 0.0 && TimeFor(d, maxSpeed) <= t
    ensures -maxSpeed <= d as real / t <= maxSpeed
    ensures d > 0 ==> d as real / t > 0.0
    ensures d < 0 ==> d as real / t < 0.0
    ensures d == 0 ==> d as real / t == 0.0
  {
    TimeCovers(d, maxSpeed, t);
    var v := d as real / t;
    assert v * t == d as real;
    hide TimeFor;
    QuotientBounds(v, t, maxSpeed);
  }

  /** In time t, at least d's time at maximum speed, the motor could cover d steps. */
  lemma TimeCovers(d: int, maxSpeed: real, t: real)
    requires maxSpeed > 0.0 && t > 0.0 && TimeFor(d, maxSpeed) <= t
    ensures Abs(d as real) <= maxSpeed * t
  {
    var x := TimeFor(d, maxSpeed);
    assert x * maxSpeed == Abs(d as real);
    hide TimeFor;
    MulMono(x, t, maxSpeed);
  }

  lemma QuotientBounds(v: real, t: real, bound: real)
    requires t > 0.0 && Abs(v * t) <= bound * t
    ensures -bound <= v <= bound
  {
    assert (-v) * t == -(v * t);
    MulCancel(v, bound, t);
    MulCancel(-v, bound, t);
  }

  lemma PaceInterval(d: int, maxSpeed: real, t: real)
    requires d != 0 && 0.0 < maxSpeed <= MICROS && t > 0.0 && TimeFor(d, maxSpeed) <= t
    ensures PacedInterval(d, t) >= 1
    ensures d as real / t != 0.0 && PacedInterval(d, t) == Trunc(Abs(MICROS / (d as real / t)))
  {
    TimeCovers(d, maxSpeed, t);
    hide TimeFor;
    var a := Abs(d as real);
    var q := PaceQuotient(a, maxSpeed, t);
    var v := QuotientOf(d as real, t);
    QuotientOfQuotient(d as real, v, t, a, q);
  }

  lemma PaceQuotient(a: real, maxSpeed: real, t: real) returns (q: real)
    requires a > 0.0 && 0.0 < maxSpeed <= MICROS && t > 0.0 && a <= maxSpeed * t
    ensures q == MICROS * t / a && q * a == MICROS * t && q >= 1.0
  {
    var x := MICROS * t;
    assert a <= x by { MulMono(maxSpeed, MICROS, t); }
    q := QuotientOf(x, a);
    AtLeastOne(q, a, x);
  }

  lemma AtLeastOne(q: real, a: real, x: real)
    requires 0.0 < a <= x && q * a == x
    ensures q >= 1.0
  {}

  lemma QuotientOf(x: real, a: real) returns (q: real)
    requires a > 0.0
    ensures q == x / a && q * a == x
  {
    q := x / a;
  }

  lemma QuotientOfQuotient(d: real, v: real, t: real, a: real, q: real)
    requires t > 0.0 && v * t == d && d != 0.0 && a == Abs(d) && q * a == MICROS * t
    ensures v != 0.0 && q == Abs(MICROS / v)
  {
    assert v != 0.0;
    var u := Abs(MICROS / v);
    NegatedQuotient(v);
    assert u * Abs(v) == MICROS;
    assert Abs(v) * t == a;
    assert u * a == MICROS * t by {
      assert u * (Abs(v) * t) == (u * Abs(v)) * t;
    }
    MulCancelSame(u, q, a);
  }

  // ---------------------------------------------------------------- arriving together

  /** The time, in microseconds, a motor takes that is stepped exactly at its interval. */
  function ArrivalTime(d: int, t: real): int
    requires d != 0
  {
    Distance(0, d) * PacedInterval(d, t)
  }

  /** Rounding the interval down costs less than one microsecond a step. */
  lemma ArrivalWindow(d: int, t: real)
    requires d != 0 && t > 0.0
    ensures MICROS * t - Distance(0, d) as real < ArrivalTime(d, t) as real <= MICROS * t
  {
    var a := Distance(0, d) as real;
    assert a == Abs(d as real);
    var q := MICROS * t / a;
    assert q * a == MICROS * t;
    assert q > 0.0 by { if q <= 0.0 { MulMono(q, 0.0, a); } }
    var k := q.Floor as real;
    MulMono(k, q, a);
    ProductPositive(k + 1.0 - q, a, (k + 1.0 - q) * a);
    assert ArrivalTime(d, t) as real == a * k;
  }

  /** All motors of one coordinated move arrive within as many microseconds of each other as the longest of them has steps. */
  lemma ArrivalSkew(d: int, e: int, t: real)
    requires d != 0 && e != 0 && t > 0.0
    ensures Distance(ArrivalTime(d, t), ArrivalTime(e, t)) < if Distance(0, d) < Distance(0, e) then Distance(0, e) else Distance(0, d)
  {
    ArrivalWindow(d, t);
    ArrivalWindow(e, t);
  }

  /** A motor at constant speed polled every microsecond from time 0: where it is after u microseconds, and when it last stepped. */
  ghost function Polled(m: Motor, u: nat): (Motor, nat) {
    if u == 0 then (m, 0)
    else
      var (before, last) := Polled(m, u - 1);
      if before.DistanceToGo() != 0 && before.stepInterval != 0 && u - last >= before.stepInterval
      then (before.Stepped(), u) else (before, last)
  }

  /** Polled every microsecond, a motor on pace makes a step at each multiple of its interval until it stands on the target. */
  lemma {:induction false} PolledSteps(m: Motor, u: nat)
    requires m.Ahead() >= 1 && m.stepInterval >= 1
    ensures var (m', last) := Polled(m, u);
      var k := Least(u / m.stepInterval, m.Ahead());
      && m' == m.(currentPos := m.currentPos + k * Sign(m.direction))
      && last == k * m.stepInterval
  {
    if u == 0 {
      assert 0 / m.stepInterval == 0;
    } else {
      PolledSteps(m, u - 1);
      hide Motor.Stepped, Motor.Valid;
      var i, a := m.stepInterval, m.Ahead();
      var k := Least((u - 1) / i, a);
      StepsAlong(m, k);
      DueAt(u, i, k, a);
    }
  }

  function Least(x: int, y: int): int {
    if x < y then x else y
  }

  /** k steps along, the target is that much nearer. */
  lemma StepsAlong(m: Motor, k: int)
    ensures var s := m.(currentPos := m.currentPos + k * Sign(m.direction));
      && s.Ahead() == m.Ahead() - k && (s.DistanceToGo() == 0 <==> m.Ahead() == k)
      && s.Stepped() == m.(currentPos := m.currentPos + (k + 1) * Sign(m.direction))
  {}

  lemma QuotientStep(u: nat, i: int)
    requires u >= 1 && i >= 1
    ensures u / i == (u - 1) / i + if u - (u - 1) / i * i >= i then 1 else 0
  {
    var q, r := (u - 1) / i, (u - 1) % i;
    assert u == q * i + (r + 1);
    if r + 1 == i {
      assert u == (q + 1) * i;
      DivModUnique(u, q + 1, 0, i);
    } else {
      DivModUnique(u, q, r + 1, i);
    }
  }

  lemma DueAt(u: nat, i: int, k: int, a: int)
    requires u >= 1 && i >= 1 && a >= 1
    requires k == Least((u - 1) / i, a)
    ensures k < a && u - k * i >= i ==> Least(u / i, a) == k + 1 && u == (k + 1) * i
    ensures k < a && u - k * i < i ==> Least(u / i, a) == k
    ensures k == a ==> Least(u / i, a) == a
  {
    QuotientStep(u, i);
  }

  /** So it arrives exactly at its arrival time. */
  lemma PolledArrival(m: Motor, t: real, u: nat)
    requires OnPace(m, t) && m.DistanceToGo() != 0
    ensures Polled(m, u).0.DistanceToGo() == 0 <==> u >= ArrivalTime(m.DistanceToGo(), t)
  {
    var i, a := m.stepInterval, m.Ahead();
    hide Coherent, PacedInterval;
    PolledSteps(m, u);
    assert Distance(0, m.DistanceToGo()) == a;
    QuotientReaches(u, i, a);
    StepsAlong(m, Least(u / i, a));
  }

  lemma QuotientReaches(u: nat, i: int, a: int)
    requires i >= 1 && a >= 1
    ensures u / i >= a <==> u >= a * i
  {
    var q, r := u / i, u % i;
    assert u == q * i + r;
    if q >= a { assert q * i >= a * i; }
    if q < a { assert (q + 1) * i <= a * i; }
  }

  // ---------------------------------------------------------------- the class

  /** d_i for each motor. */
  ghost function Sum(s: seq<int>): int {
    if s == [] then 0 else Sum(s[..|s| - 1]) + s[|s| - 1]
  }

  lemma {:induction false} SumLess(s: seq<int>, t: seq<int>)
    requires |s| == |t| && forall i | 0 <= i < |s| :: s[i] <= t[i]
    ensures Sum(s) <= Sum(t)
    ensures (exists i | 0 <= i < |s| :: s[i] < t[i]) ==> Sum(s) < Sum(t)
  {
    if s != [] {
      SumLess(s[..|s| - 1], t[..|t| - 1]);
      if i :| 0 <= i < |s| && s[i] < t[i] {
        if i < |s| - 1 {
          assert s[..|s| - 1][i] < t[..|t| - 1][i];
        }
      }
    }
  }

  lemma {:induction false} SumNotNegative(s: seq<int>)
    requires forall i | 0 <= i < |s| :: s[i] >= 0
    ensures Sum(s) >= 0
  {
    if s != [] {
      SumNotNegative(s[..|s| - 1]);
    }
  }

  class MultiStepper {
    const steppers: array<AccelStepper?>
    var numSteppers: nat

    constructor ()
      ensures Valid() && numSteppers == 0 && fresh(steppers)
    {
      steppers := new AccelStepper?[MULTISTEPPER_MAX_STEPPERS](_ => null);
      numSteppers := 0;
    }

    ghost predicate Valid()
      reads this, steppers
    {
      && steppers.Length == MULTISTEPPER_MAX_STEPPERS
      && numSteppers <= MULTISTEPPER_MAX_STEPPERS
      && (forall i | 0 <= i < numSteppers :: steppers[i] != null)
    }

    /** The managed motors are different ones. */
    ghost predicate Distinct()
      reads this, steppers
      requires Valid()
    {
      forall i, j | 0 <= i < j < numSteppers :: steppers[i] != steppers[j]
    }

    ghost function Fleet(): set<AccelStepper?>
      reads this, steppers
      requires Valid()
    {
      set i | 0 <= i < numSteppers :: steppers[i]
    }

    /** The states of the managed motors, in order. */
    ghost function States(): (ms: seq<Motor>)
      reads this, steppers, Fleet()
      requires Valid()
      ensures |ms| == numSteppers && forall i | 0 <= i < numSteppers :: ms[i] == steppers[i].State()
    {
      seq(numSteppers, i requires 0 <= i < numSteppers && Valid() reads this, steppers, set j | 0 <= j < numSteppers && j < steppers.Length :: steppers[j] => steppers[i].State())
    }

    method AddStepper(stepper: AccelStepper) returns (added: bool)
      requires Valid()
      modifies this`numSteppers, steppers
      ensures Valid()
      ensures added <==> old(numSteppers) < MULTISTEPPER_MAX_STEPPERS
      ensures steppers[..numSteppers] == if added then old(steppers[..numSteppers]) + [stepper] else old(steppers[..numSteppers])
    {
      if numSteppers >= MULTISTEPPER_MAX_STEPPERS {
        return false;
      }
      steppers[numSteppers] := stepper;
      numSteppers := numSteppers + 1;
      return true;
    }

    ghost predicate AllCoherent()
      reads this, steppers, Fleet()
      requires Valid()
    {
      forall i | 0 <= i < numSteppers :: steppers[i].Valid() && Coherent(steppers[i].State())
    }

    ghost predicate AllValid()
      reads this, steppers, Fleet()
      requires Valid()
    {
      forall i | 0 <= i < numSteppers :: steppers[i].Valid() && steppers[i].State().Valid()
    }

    lemma StatesValid()
      requires Valid() && AllCoherent()
      ensures AllValid() && forall i | 0 <= i < |States()| :: States()[i].Valid() && Coherent(States()[i])
    {}

    lemma SpeedsPositive()
      requires Valid() && forall i | 0 <= i < |States()| :: States()[i].Valid()
      ensures forall i | 0 <= i < numSteppers :: States()[i].maxSpeed > 0.0
    {
      forall i | 0 <= i < numSteppers ensures States()[i].maxSpeed > 0.0 {
        PositiveParameters(States()[i]);
      }
    }

    lemma StatesPlaces()
      requires Valid()
      ensures forall i | 0 <= i < numSteppers :: States()[i].currentPos == steppers[i].currentPos
    {
      forall i | 0 <= i < numSteppers ensures States()[i].currentPos == steppers[i].currentPos {
        steppers[i].StateFields();
      }
    }

    /** From where they were each motor covers its distance in exactly t seconds, within its maximum speed, and some motor at its maximum speed. */
    ghost predicate Together(was: seq<Motor>, absolute: array<int>, t: real)
      reads this, steppers, Fleet(), absolute
      requires Valid() && absolute.Length >= numSteppers == |was|
    {
      && (forall i | 0 <= i < numSteppers :: steppers[i].speed * t == (absolute[i] - was[i].currentPos) as real)
      && (forall i | 0 <= i < numSteppers :: Abs(steppers[i].speed) <= steppers[i].maxSpeed)
      && (exists i | 0 <= i < numSteppers :: Abs(steppers[i].speed) == steppers[i].maxSpeed)
    }

    /** FastestTogether, of the motors themselves. */
    lemma FastestMotors(was: seq<Motor>, absolute: array<int>, t: real)
      requires Valid() && absolute.Length >= numSteppers == |was|
      requires forall i | 0 <= i < numSteppers :: Covers(States()[i], absolute[..numSteppers][i] - was[i].currentPos, t)
      requires exists i | 0 <= i < numSteppers :: FullSpeed(States()[i])
      ensures Together(was, absolute, t)
    {
      hide AccelStepper.State;
      forall i | 0 <= i < numSteppers
        ensures steppers[i].speed * t == (absolute[i] - was[i].currentPos) as real && Abs(steppers[i].speed) <= steppers[i].maxSpeed
        ensures FullSpeed(States()[i]) ==> Abs(steppers[i].speed) == steppers[i].maxSpeed
      {
        steppers[i].StateFields();
        assert Covers(States()[i], absolute[..numSteppers][i] - was[i].currentPos, t);
      }
    }

    /** At their maximum speeds all motors get there in time t, and unless that is zero one of them in no less. */
    ghost predicate SlowestTakes(absolute: array<int>, t: real)
      reads this, steppers, Fleet(), absolute
      requires Valid() && absolute.Length >= numSteppers
    {
      && (forall i | 0 <= i < numSteppers :: GetsThere(steppers[i], absolute[i], t))
      && (t == 0.0 || exists i | 0 <= i < numSteppers :: JustGetsThere(steppers[i], absolute[i], t))
    }

    /** The time of the slowest motor: just enough, at its maximum speed, for that motor's distance, and enough for every other. */
    method LongestTime(absolute: array<int>) returns (longestTime: real)
      requires Valid() && AllCoherent() && absolute.Length >= numSteppers
      ensures AllValid() && (forall i | 0 <= i < |States()| :: States()[i].Valid())
      ensures IsLongest(longestTime, States(), absolute[..numSteppers])
      ensures SlowestTakes(absolute, longestTime)
    {
      longestTime := FindLongest(absolute);
      hide *;
      StatesValid();
      LongestMeans(States(), absolute[..numSteppers], longestTime);
      LongestAsked(States(), absolute[..numSteppers], longestTime);
      LongestNotNegative(longestTime, States(), absolute[..numSteppers]);
      SpeedsPositive();
      LongestOfMotors(absolute, longestTime);
    }

    /** The same of the motors themselves. */
    lemma LongestOfMotors(absolute: array<int>, t: real)
      requires Valid() && absolute.Length >= numSteppers && t >= 0.0
      requires forall i | 0 <= i < numSteppers :: States()[i].maxSpeed > 0.0 && Suffices(States()[i], absolute[..numSteppers][i], t)
      requires t > 0.0 ==> exists i | 0 <= i < numSteppers :: JustEnough(States()[i], absolute[..numSteppers][i], t)
      ensures SlowestTakes(absolute, t)
    {
      hide Suffices, JustEnough, GetsThere, JustGetsThere, AccelStepper.State;
      forall i | 0 <= i < numSteppers
        ensures GetsThere(steppers[i], absolute[i], t)
        ensures t > 0.0 && JustEnough(States()[i], absolute[..numSteppers][i], t) ==> JustGetsThere(steppers[i], absolute[i], t)
      {
        EnoughFor(steppers[i], States()[i], absolute[i], t);
        assert absolute[..numSteppers][i] == absolute[i];
      }
    }

    method FindLongest(absolute: array<int>) returns (longestTime: real)
      requires Valid() && AllCoherent() && absolute.Length >= numSteppers
      ensures AllValid() && (forall i | 0 <= i < |States()| :: States()[i].Valid())
      ensures IsLongest(longestTime, States(), absolute[..numSteppers])
    {
      hide TimeFor, AccelStepper.Balanced;
      longestTime := 0.0;
      var i := 0;
      while i < numSteppers
        invariant 0 <= i <= numSteppers && longestTime >= 0.0
        invariant forall j | 0 <= j < i :: TimeFor(absolute[j] - steppers[j].currentPos, steppers[j].maxSpeed) <= longestTime
        invariant longestTime == 0.0 || exists j | 0 <= j < i ::
          longestTime == TimeFor(absolute[j] - steppers[j].currentPos, steppers[j].maxSpeed)
      {
        var thisDistance := absolute[i] - steppers[i].currentPos;
        var thisTime := TimeFor(thisDistance, steppers[i].maxSpeed);
        if thisTime > longestTime {
          longestTime := thisTime;
        }
        i := i + 1;
      }
    }
  
    /** What moveTo and the constant-speed run may change about a motor, apart from its position. */
    method Aim(stepper: AccelStepper, target: int, longestTime: real)
      requires stepper.Valid() && longestTime > 0.0
      modifies stepper`targetPos, stepper`stepInterval, stepper`speed, stepper`n, stepper`cn, stepper`direction
      ensures stepper.Valid() && stepper.State() == Aimed(old(stepper.State()), target, longestTime)
    {
      hide AccelStepper.Balanced, Motor.MoveTo, Motor.SetSpeed, Motor.Valid;
      var thisDistance := target - stepper.currentPos;
      var thisSpeed := thisDistance as real / longestTime;
      stepper.MoveTo(target);
      stepper.SetSpeed(thisSpeed);
    }

    /**
      The motors get their targets, and the constant speeds at which all arrive together: if and only
      if some motor is asked to move, or none had anywhere left to go.  Otherwise nothing changes at all.
     */
    method MoveTo(absolute: array<int>) returns (ghost t: real)
      requires Valid() && Distinct() && AllCoherent() && absolute.Length >= numSteppers
      modifies Fleet()
      ensures Valid() && Distinct() && AllValid() && forall i | 0 <= i < numSteppers :: old(States())[i].Valid()
      ensures IsLongest(t, old(States()), absolute[..numSteppers])
      ensures States() == AimedAll(old(States()), absolute[..numSteppers], t)
      ensures AllAimed(States(), absolute[..numSteppers]) <==>
        Asked(old(States()), absolute[..numSteppers]) || NowhereToGo(old(States()))
      ensures !Asked(old(States()), absolute[..numSteppers]) ==> States() == old(States())
      ensures Asked(old(States()), absolute[..numSteppers]) ==>
        t > 0.0 && Together(old(States()), absolute, t)
      ensures forall i | 0 <= i < numSteppers :: steppers[i].steps == old(steppers[i].steps) && steppers[i].lastStepTime == old(steppers[i].lastStepTime)
    {
      hide Asked, AllAimed, AimedAll, NowhereToGo, IsLongest, TimeOf, Coherent, SlowestTakes, Together, Motor.Valid, AccelStepper.Valid, AccelStepper.State;
      ghost var was := States();
      StatesValid();
      var longestTime := LongestTime(absolute);
      t := longestTime;
      LongestNotNegative(t, was, absolute[..numSteppers]);
      NothingToAim(was, absolute[..numSteppers], t);
      if longestTime > 0.0 {
        AimAll(absolute, longestTime);
      }
    }

    /** Aims the motors when some of them is asked to move. */
    method AimAll(absolute: array<int>, longestTime: real)
      requires Valid() && Distinct() && AllValid() && AllCoherent() && absolute.Length >= numSteppers && longestTime > 0.0
      requires forall i | 0 <= i < |States()| :: States()[i].Valid() && Coherent(States()[i])
      requires IsLongest(longestTime, States(), absolute[..numSteppers]) && Asked(States(), absolute[..numSteppers])
      modifies Fleet()
      ensures Valid() && Distinct() && AllValid() && forall i | 0 <= i < numSteppers :: old(States())[i].Valid()
      ensures States() == AimedAll(old(States()), absolute[..numSteppers], longestTime)
      ensures Together(old(States()), absolute, longestTime)
      ensures forall i | 0 <= i < numSteppers :: steppers[i].steps == old(steppers[i].steps) && steppers[i].lastStepTime == old(steppers[i].lastStepTime)
    {
      hide Asked, AimedAll, IsLongest, Coherent, Covers, FullSpeed, Motor.Valid, AccelStepper.Valid, AccelStepper.State;
      ghost var was := States();
      StatesPlaces();
      FastestTogether(was, absolute[..numSteppers], longestTime);
      AimEach(absolute, longestTime);
      FastestMotors(was, absolute, longestTime);
    }

    /** The second loop of moveTo. */
    method AimEach(absolute: array<int>, longestTime: real)
      requires Valid() && Distinct() && AllValid() && absolute.Length >= numSteppers && longestTime > 0.0
      modifies Fleet()
      ensures Valid() && Distinct() && AllValid() && forall i | 0 <= i < numSteppers :: old(States())[i].Valid()
      ensures States() == AimedAll(old(States()), absolute[..numSteppers], longestTime)
      ensures forall i | 0 <= i < numSteppers :: steppers[i].steps == old(steppers[i].steps) && steppers[i].lastStepTime == old(steppers[i].lastStepTime)
    {
      hide Aimed, AccelStepper.Balanced, Motor.Valid, AccelStepper.State;
      ghost var was := States();
      var i := 0;
      while i < numSteppers
        invariant 0 <= i <= numSteppers
        invariant forall j | 0 <= j < numSteppers :: steppers[j].Valid()
        invariant forall j | 0 <= j < i :: steppers[j].State() == Aimed(was[j], absolute[j], longestTime)
        invariant forall j | i <= j < numSteppers :: steppers[j].State() == was[j]
        invariant forall j | 0 <= j < numSteppers :: steppers[j].steps == old(steppers[j].steps) && steppers[j].lastStepTime == old(steppers[j].lastStepTime)
      {
        Aim(steppers[i], absolute[i], longestTime);
        i := i + 1;
      }
      assert States() == AimedAll(was, absolute[..numSteppers], longestTime);
    }

    /** What run does about one motor. */
    method RunOne(stepper: AccelStepper, now: Micros) returns (running: bool)
      requires stepper.Valid()
      modifies stepper`currentPos, stepper`port, stepper`lastStepTime, stepper`steps
      ensures PolledOnce(stepper, now)
      ensures running <==> old(stepper.targetPos != stepper.currentPos)
    {
      hide AccelStepper.Balanced, Motor.Valid, Motor.Stepped;
      running := stepper.targetPos - stepper.currentPos != 0;
      if running {
        var _ := stepper.RunSpeed(now);
      }
    }

    /** One round of run: readings(i) is micros() as motor i reads it. left is how far each motor still is from its target. */
    method Run(readings: nat -> Micros) returns (ret: bool, ghost left: seq<int>)
      requires Valid() && Distinct() && forall i | 0 <= i < numSteppers :: steppers[i].Valid()
      modifies Fleet()
      ensures Valid() && Distinct()
      ensures ret <==> exists i | 0 <= i < numSteppers :: old(steppers[i].targetPos != steppers[i].currentPos)
      ensures forall i | 0 <= i < numSteppers :: PolledOnce(steppers[i], readings(i))
      ensures |left| == numSteppers && forall i | 0 <= i < numSteppers :: left[i] == steppers[i].State().Ahead()
    {
      hide Stepping, AccelStepper.Valid, Motor.Ahead, Motor.Stepped, AccelStepper.State;
      ret, left := false, [];
      var i := 0;
      while i < numSteppers
        invariant 0 <= i <= numSteppers && |left| == i
        invariant ret <==> exists j | 0 <= j < i :: old(steppers[j].targetPos != steppers[j].currentPos)
        invariant forall j | i <= j < numSteppers :: Untouched(steppers[j])
        invariant forall j | 0 <= j < i :: PolledOnce(steppers[j], readings(j))
        invariant forall j | 0 <= j < i :: left[j] == steppers[j].State().Ahead()
      {
        assert Untouched(steppers[i]);
        var running := RunOne(steppers[i], readings(i));
        assert PolledOnce(steppers[i], readings(i));
        ret := ret || running;
        left := left + [steppers[i].State().Ahead()];
        i := i + 1;
      }
    }

    /** A motor still short of its target, with the round in which its next step will be due. */
    lemma NextStepper(clock: (nat, nat) -> Micros, round: nat, limit: nat, left: seq<int>) returns (w: nat, due: nat)
      requires Valid() && LiveAll(clock, numSteppers, limit) && |left| == numSteppers
      ensures Short(left) ==> w < numSteppers && Awaited(clock, round, limit, left, w, due, steppers[w].lastStepTime)
    {
      w, due := 0, 0;
      if exists i | 0 <= i < numSteppers :: left[i] > 0 {
        w :| w < numSteppers && left[w] > 0;
        assert SeenBy(clock, w, round, steppers[w].lastStepTime, limit);
        due :| due >= round && Elapsed(clock(due, w), steppers[w].lastStepTime) >= limit;
      }
    }

    ghost method Remaining() returns (left: seq<int>)
      requires Valid()
      ensures |left| == numSteppers && forall i | 0 <= i < numSteppers :: left[i] == steppers[i].State().Ahead()
    {
      left := [];
      while |left| < numSteppers
        invariant |left| <= numSteppers && forall i | 0 <= i < |left| :: left[i] == steppers[i].State().Ahead()
      {
        left := left + [steppers[|left|].State().Ahead()];
      }
    }

    /** One round of runSpeedToPosition: no motor gets further away, one whose step is due gets nearer. */
    method Round(readings: nat -> Micros, ghost before: seq<int>) returns (running: bool, ghost left: seq<int>)
      requires Valid() && Distinct() && forall i | 0 <= i < numSteppers :: steppers[i].Valid()
      requires |before| == numSteppers && forall i | 0 <= i < numSteppers :: before[i] == steppers[i].State().Ahead() >= 0
      modifies Fleet()
      ensures Valid() && Distinct() && |left| == numSteppers
      ensures running <==> exists i | 0 <= i < numSteppers :: before[i] > 0
      ensures forall i | 0 <= i < numSteppers :: steppers[i].Valid() && left[i] == steppers[i].State().Ahead() >= 0
      ensures forall i | 0 <= i < numSteppers :: left[i] <= before[i]
      ensures forall i | 0 <= i < numSteppers :: Along(old(steppers[i].State()), old(steppers[i].steps), steppers[i].State(), steppers[i].steps)
      ensures forall i | 0 <= i < numSteppers :: left[i] == before[i] ==> steppers[i].lastStepTime == old(steppers[i].lastStepTime)
      ensures forall i | 0 <= i < numSteppers :: before[i] > 0 && old(steppers[i].Due(readings(i))) ==> left[i] < before[i]
    {
      hide AccelStepper.Valid, Along, Motor.Ahead, Motor.Stepped, AccelStepper.Due;
      forall i | 0 <= i < numSteppers ensures before[i] > 0 <==> steppers[i].targetPos != steppers[i].currentPos {
        AheadOffTarget(steppers[i].State());
        steppers[i].StateFields();
      }
      running, left := Run(readings);
      forall i | 0 <= i < numSteppers
        ensures steppers[i].Valid() && 0 <= left[i] <= before[i]
        ensures Along(old(steppers[i].State()), old(steppers[i].steps), steppers[i].State(), steppers[i].steps)
        ensures left[i] == before[i] ==> steppers[i].lastStepTime == old(steppers[i].lastStepTime)
        ensures before[i] > 0 && old(steppers[i].Due(readings(i))) ==> left[i] < before[i]
      {
        assert PolledOnce(steppers[i], readings(i));
        OneRound(old(steppers[i].State()), old(steppers[i].steps));
      }
    }

    /** A round, with what makes the rounds come to an end: a step, or one round less to wait for it. */
    method Turn(clock: (nat, nat) -> Micros, round: nat, ghost limit: nat, ghost before: seq<int>, ghost w: nat, ghost due: nat)
      returns (running: bool, ghost left: seq<int>, ghost w': nat, ghost due': nat)
      requires Valid() && Distinct() && LiveAll(clock, numSteppers, limit)
      requires forall i | 0 <= i < numSteppers :: steppers[i].Valid() && Underway(steppers[i].State(), limit)
      requires |before| == numSteppers && forall i | 0 <= i < numSteppers :: before[i] == steppers[i].State().Ahead() >= 0
      requires Short(before) ==> w < numSteppers && Awaited(clock, round, limit, before, w, due, steppers[w].lastStepTime)
      modifies Fleet()
      ensures Valid() && Distinct() && |left| == numSteppers
      ensures running <==> Short(before)
      ensures forall i | 0 <= i < numSteppers :: steppers[i].Valid() && left[i] == steppers[i].State().Ahead() >= 0
      ensures forall i | 0 <= i < numSteppers :: Along(old(steppers[i].State()), old(steppers[i].steps), steppers[i].State(), steppers[i].steps)
      ensures 0 <= Sum(left) <= Sum(before)
      ensures running && Sum(left) == Sum(before) ==> due' == due && round < due
      ensures Short(left) ==> running && w' < numSteppers && Awaited(clock, round + 1, limit, left, w', due', steppers[w'].lastStepTime)
    {
      hide AccelStepper.Valid, Along, Motor.Ahead, LiveAll, Awaited, Underway, AccelStepper.Due, AccelStepper.State;
      ghost var mustStep := Short(before) && due == round;
      if Short(before) {
        StillAwaited(clock, round, limit, before, w, due, steppers[w].lastStepTime);
        DueNow(steppers[w], clock(due, w), limit);
      }
      running, left := Round(i => clock(round, i), before);
      SumLess(left, before);
      SumNotNegative(left);
      if Sum(left) == Sum(before) {
        w', due' := w, due;
        assert left == before;
        assert !mustStep;
      } else {
        w', due' := NextStepper(clock, round + 1, limit, left);
      }
    }

    /**
      Blocks until every motor is on its target: each makes exactly as many steps as it was away, all
      in one direction.  clock(r, i) is micros() as motor i reads it in round r.
     */
    method RunSpeedToPosition(clock: (nat, nat) -> Micros, ghost limit: nat)
      requires Valid() && Distinct() && LiveAll(clock, numSteppers, limit)
      requires forall i | 0 <= i < numSteppers :: steppers[i].Valid() && Underway(steppers[i].State(), limit)
      modifies Fleet()
      ensures Valid() && Distinct() && forall i | 0 <= i < numSteppers :: steppers[i].Valid()
      ensures forall i | 0 <= i < numSteppers ::
        Arrived(old(steppers[i].State()), old(steppers[i].steps), steppers[i].State(), steppers[i].steps)
    {
      hide AccelStepper.Valid, Along, Arrived, Motor.Ahead, LiveAll, Awaited, Underway, AccelStepper.Due, AccelStepper.State, Short, Sum;
      var running := true;
      var round: nat := 0;
      forall i | 0 <= i < numSteppers
        ensures steppers[i].State().Ahead() >= 0
        ensures Along(steppers[i].State(), steppers[i].steps, steppers[i].State(), steppers[i].steps)
      {
        UnderwayAhead(steppers[i].State(), limit);
        OneRound(steppers[i].State(), steppers[i].steps);
      }
      ghost var left := Remaining();
      SumNotNegative(left);
      ghost var w: nat, due: nat := NextStepper(clock, 0, limit, left);
      ghost var wait: int := due;
      while running
        invariant forall i | 0 <= i < numSteppers :: steppers[i].Valid() && Underway(steppers[i].State(), limit)
        invariant forall i | 0 <= i < numSteppers :: Along(old(steppers[i].State()), old(steppers[i].steps), steppers[i].State(), steppers[i].steps)
        invariant |left| == numSteppers && forall i | 0 <= i < numSteppers :: left[i] == steppers[i].State().Ahead() >= 0
        invariant Sum(left) >= 0 && wait + round == due
        invariant Short(left) ==> running && w < numSteppers && Awaited(clock, round, limit, left, w, due, steppers[w].lastStepTime)
        decreases Sum(left) + if running then 1 else 0, wait
      {
        label Polling:
        running, left, w, due := Turn(clock, round, limit, left, w, due);
        round := round + 1;
        wait := due - round;
        forall i | 0 <= i < numSteppers
          ensures Along(old(steppers[i].State()), old(steppers[i].steps), steppers[i].State(), steppers[i].steps)
          ensures Underway(steppers[i].State(), limit)
        {
          AlongTransitive(old(steppers[i].State()), old(steppers[i].steps), old@Polling(steppers[i].State()), old@Polling(steppers[i].steps),
                          steppers[i].State(), steppers[i].steps);
          AlongUnderway(old@Polling(steppers[i].State()), old@Polling(steppers[i].steps), steppers[i].State(), steppers[i].steps, limit);
        }
      }
      forall i | 0 <= i < numSteppers
        ensures Arrived(old(steppers[i].State()), old(steppers[i].steps), steppers[i].State(), steppers[i].steps)
      {
        NotShort(left, i);
        AlongArrived(old(steppers[i].State()), old(steppers[i].steps), steppers[i].State(), steppers[i].steps);
      }
    }
  }

  /** At its maximum speed the motor covers the distance to the target in time t. */
  ghost predicate GetsThere(s: AccelStepper, target: int, t: real)
    reads s
  {
    Abs((target - s.currentPos) as real) <= s.maxSpeed * t
  }

  /** It has a distance to cover, and cannot in less. */
  ghost predicate JustGetsThere(s: AccelStepper, target: int, t: real)
    reads s
  {
    target != s.currentPos && Abs((target - s.currentPos) as real) == s.maxSpeed * t
  }

  lemma EnoughFor(s: AccelStepper, m: Motor, target: int, t: real)
    requires m == s.State() && m.maxSpeed > 0.0 && Suffices(m, target, t)
    ensures GetsThere(s, target, t)
    ensures t > 0.0 && JustEnough(m, target, t) ==> JustGetsThere(s, target, t)
  {
    if t > 0.0 { ProductPositive(m.maxSpeed, t, m.maxSpeed * t); }
  }

  lemma AlongUnderway(m: Motor, s: seq<Direction>, m': Motor, s': seq<Direction>, limit: nat)
    requires Along(m, s, m', s') && Underway(m, limit)
    ensures Underway(m', limit)
  {}

  lemma AlongArrived(m: Motor, s: seq<Direction>, m': Motor, s': seq<Direction>)
    requires Along(m, s, m', s') && m'.Ahead() == 0
    ensures Arrived(m, s, m', s')
  {}

  /** A motor on its way is due when limit has passed since its last step. */
  lemma DueNow(s: AccelStepper, now: Micros, limit: nat)
    requires Underway(s.State(), limit)
    ensures s.State().Ahead() > 0 && Elapsed(now, s.lastStepTime) >= limit ==> s.Due(now)
  {
    hide AccelStepper.Valid;
  }

  lemma AheadOffTarget(m: Motor)
    requires m.Ahead() >= 0
    ensures m.Ahead() > 0 <==> m.targetPos != m.currentPos
  {}

  lemma OneRound(m: Motor, s: seq<Direction>)
    requires m.Ahead() >= 0
    ensures Along(m, s, m, s)
    ensures m.Ahead() > 0 ==> m.Stepped().Ahead() == m.Ahead() - 1 && Along(m, s, m.Stepped(), s + [m.direction])
  {}

  /** Motor w, which made its last step at last, is short of its target, and its next step is due by round due. */
  ghost predicate Awaited(clock: (nat, nat) -> Micros, round: nat, limit: nat, left: seq<int>, w: nat, due: nat, last: Micros) {
    w < |left| && left[w] > 0 && due >= round && Elapsed(clock(due, w), last) >= limit
  }

  /** Can any motor still move? */
  ghost predicate Short(left: seq<int>) {
    exists i | 0 <= i < |left| :: left[i] > 0
  }

  lemma NotShort(left: seq<int>, i: nat)
    requires !Short(left) && i < |left|
    ensures left[i] <= 0
  {}

  lemma StillAwaited(clock: (nat, nat) -> Micros, round: nat, limit: nat, left: seq<int>, w: nat, due: nat, last: Micros)
    requires Awaited(clock, round, limit, left, w, due, last)
    ensures w < |left| && left[w] > 0 && due >= round && Elapsed(clock(due, w), last) >= limit
    ensures due > round ==> Awaited(clock, round + 1, limit, left, w, due, last)
  {}

  /** Every motor's clock is polled often enough. */
  ghost predicate LiveAll(clock: (nat, nat) -> Micros, count: nat, limit: nat) {
    forall i: nat, r: nat, last: Micros | i < count :: SeenBy(clock, i, r, last, limit)
  }

  ghost predicate SeenBy(clock: (nat, nat) -> Micros, i: nat, r: nat, last: Micros, limit: nat) {
    exists r': nat :: r' >= r && Elapsed(clock(r', i), last) >= limit
  }

  /** Rounds that come often enough are enough for every motor. */
  lemma RoundsAreLive(time: nat -> nat, gap: nat, clock: (nat, nat) -> Micros, count: nat, limit: nat)
    requires Polls(time, gap) && limit + gap <= 0x1_0000_0000
    requires forall r: nat, i: nat :: clock(r, i) == Reading(time(r))
    ensures LiveAll(clock, count, limit)
  {
    forall i: nat, r: nat, last: Micros | i < count ensures SeenBy(clock, i, r, last, limit) {
      var own: nat -> Micros := r => clock(r, i);
      PollingIsLive(time, gap, own, limit);
      assert SeenLater(own, r, last, limit);
      var r': nat :| r' >= r && Elapsed(own(r'), last) >= limit;
      assert Elapsed(clock(r', i), last) >= limit;
    }
  }

  /** On the target, or set to move towards it at an interval of at most limit. */
  ghost predicate Underway(m: Motor, limit: nat) {
    m.Ahead() >= 0 && (m.Ahead() > 0 ==> 0 < m.stepInterval <= limit)
  }

  /** From motor state m and step record s to m' and s': only moves towards the target, each recorded. */
  ghost predicate Along(m: Motor, s: seq<Direction>, m': Motor, s': seq<Direction>) {
    && m' == m.(currentPos := m'.currentPos)
    && 0 <= m'.Ahead() <= m.Ahead()
    && s' == s + Repeated(m.direction, m.Ahead() - m'.Ahead())
  }

  /** From m and s to m' and s': all the steps, and the motor stands on its target. */
  ghost predicate Arrived(m: Motor, s: seq<Direction>, m': Motor, s': seq<Direction>) {
    && m.Ahead() >= 0
    && m' == m.(currentPos := m.targetPos)
    && s' == s + Repeated(m.direction, m.Ahead())
  }

  lemma UnderwayAhead(m: Motor, limit: nat)
    requires Underway(m, limit)
    ensures m.Ahead() >= 0
  {}

  function Repeated(d: Direction, k: nat): seq<Direction> {
    seq(k, _ => d)
  }

  lemma AlongTransitive(m: Motor, s: seq<Direction>, m': Motor, s': seq<Direction>, m'': Motor, s'': seq<Direction>)
    requires Along(m, s, m', s') && Along(m', s', m'', s'')
    ensures Along(m, s, m'', s'')
  {}

  /** A motor steps in a round if it is off its target and its interval is over. */
  ghost predicate Stepping(s: AccelStepper, now: Micros)
    reads s
  {
    s.targetPos != s.currentPos && s.Due(now)
  }

  /** Since the old state the motor has been polled once: it has made the step that was due, or nothing. */
  twostate predicate PolledOnce(s: AccelStepper, now: Micros)
    reads s
  {
    && s.Valid()
    && if old(Stepping(s, now))
       then s.State() == old(s.State()).Stepped() && s.steps == old(s.steps) + [old(s.direction)]
       else s.State() == old(s.State()) && s.steps == old(s.steps) && s.lastStepTime == old(s.lastStepTime)
  }

  twostate predicate Untouched(s: AccelStepper)
    reads s
  {
    unchanged(s)
  }
}
