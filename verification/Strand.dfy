/**
  The strand: the task that turns queued commands into motion (strand.cpp) on top of the motor
  of module AccelSteppers, and the sine task that feeds it (net.c).
 */
module Strands {
  import opened Ramp
  import opened Motion
  import opened Profile
  import opened Reachable
  import opened Settling
  import opened Pulses
  import opened AccelSteppers
  import opened Commands

  /** The longest interval of any command below, in microseconds: two seconds. */
  const LONGEST: nat := 2_000_000

  /** root(a) is the value of sqrt(2 / a). */
  ghost predicate Roots(root: real -> real) {
    forall a: real :: a > 0.0 ==> IsRoot(root(a), a)
  }

  /** The speed scaled by how far the command of kind 2 has to go in the time it is given. */
  function TimedRate(c: Command, steps: int): real
    requires c.time != 0
  {
    c.speed as real * Abs(steps as real / c.time as real)
  }

  /** The maximum speed of a command of kind 2; only speeds set at 10000 or more are capped. */
  function TimedSpeed(c: Command, steps: int): (v: int)
    requires c.time != 0
    ensures v >= 100
  {
    var rate := TimedRate(c, steps);
    if c.speed < 10000 && rate >= 100.0 then Trunc(rate)
    else if rate < 100.0 then 100
    else 10000
  }

  /**
    The command's settings are usable: acceleration within the C int, maximum speed not zero and
    not above the one step a microsecond the library can time.
   */
  predicate Feasible(c: Command, steps: int) {
    && c.kind >= 0
    && (c.kind <= 2 ==> -0x8000_0000 <= c.accel < 0x8000_0000)
    && (c.kind <= 1 ==> c.speed != 0 && -1_000_000 <= c.speed <= 1_000_000)
    && (c.kind == 2 ==> c.time != 0 && TimedSpeed(c, steps) <= 1_000_000)
  }

  /**
    v is the maximum speed for a command of kind 2 of so many steps: its speed in proportion to the steps
    for each unit of its time, in whole steps a second, but at least 100, and 10000 in place of any proportion for
    a speed of 10000 or more.
   */
  predicate SpeedInTime(c: Command, steps: int, v: real) {
    var asked, time := c.speed * Apart(steps, 0), Apart(c.time, 0);
    && (asked < 100 * time ==> v == 100.0)
    && (asked >= 100 * time && c.speed >= 10000 ==> v == 10000.0)
    && (asked >= 100 * time && c.speed < 10000 ==> v == v.Floor as real && v * time as real <= asked as real < (v + 1.0) * time as real)
  }

  lemma TimedSpeedLaw(c: Command, steps: int)
    requires c.time != 0
    ensures SpeedInTime(c, steps, TimedSpeed(c, steps) as real)
  {
    var rate := TimedRate(c, steps);
    var asked, time := (c.speed * Apart(steps, 0)) as real, Apart(c.time, 0) as real;
    RateTimes(c, steps);
    hide *;
    RateBelow(rate, time, asked);
    WholeRate(rate, time, asked);
    SpeedChosen(c, steps);
  }

  lemma TimedParts(c: Command, steps: int)
    requires c.kind == 2 && Feasible(c, steps)
    ensures c.time != 0 && -0x8000_0000 <= c.accel < 0x8000_0000 && 100 <= TimedSpeed(c, steps) <= 1_000_000
    ensures Abs(TimedSpeed(c, steps) as real) == TimedSpeed(c, steps) as real
    ensures var rate := TimedRate(c, steps);
      TimedSpeed(c, steps) == if c.speed < 10000 && rate >= 100.0 then Trunc(rate) else if rate < 100.0 then 100 else 10000
  {}

  lemma TimedSettings(c: Command, steps: int, m: Motor, m': Motor)
    requires c.kind == 2 && c.time != 0 && Tuned(m') && m'.maxSpeed == TimedSpeed(c, steps) as real
    requires m'.acceleration == if c.accel != 0 then Abs(c.accel as real) else m.acceleration
    ensures SetFor(c, steps, m, m')
  {
    TimedSpeedLaw(c, steps);
    hide SpeedInTime, Tuned, TimedSpeed;
  }

  lemma RateTimes(c: Command, steps: int)
    requires c.time != 0
    ensures Apart(c.time, 0) > 0
    ensures TimedRate(c, steps) * Apart(c.time, 0) as real == (c.speed * Apart(steps, 0)) as real
  {
    var q := steps as real / c.time as real;
    assert q * c.time as real == steps as real;
    var a, t := Abs(q), Apart(c.time, 0) as real;
    assert a * t == Apart(steps, 0) as real by { AbsTimes(q, c.time as real, steps as real); }
    assert (c.speed as real * a) * t == c.speed as real * (a * t);
  }

  lemma AbsTimes(q: real, t: real, s: real)
    requires q * t == s
    ensures Abs(q) * Abs(t) == Abs(s)
  {
    assert (-q) * t == -s && q * -t == -s && (-q) * -t == s;
    if q >= 0.0 && t >= 0.0 { MulMono(0.0, q, t); }
    if q >= 0.0 && t < 0.0 { MulMono(0.0, q, -t); }
    if q < 0.0 && t >= 0.0 { MulMono(0.0, -q, t); }
    if q < 0.0 && t < 0.0 { MulMono(0.0, -q, -t); }
  }

  lemma RateBelow(rate: real, time: real, asked: real)
    requires time > 0.0 && rate * time == asked
    ensures rate < 100.0 <==> asked < 100.0 * time
  {
    if asked < 100.0 * time { MulCancelStrict(rate, 100.0, time); }
    if rate < 100.0 { ProductPositive(100.0 - rate, time, (100.0 - rate) * time); }
  }

  lemma WholeRate(rate: real, time: real, asked: real)
    requires time > 0.0 && rate * time == asked
    ensures rate >= 100.0 ==> Trunc(rate) as real * time <= asked < (Trunc(rate) as real + 1.0) * time
  {
    TruncTimes(rate, time, asked, Trunc(rate));
  }

  lemma SpeedChosen(c: Command, steps: int)
    requires c.time != 0
    requires var rate, asked, time := TimedRate(c, steps), (c.speed * Apart(steps, 0)) as real, Apart(c.time, 0) as real;
      && (rate < 100.0 <==> asked < 100.0 * time)
      && (rate >= 100.0 ==> Trunc(rate) as real * time <= asked < (Trunc(rate) as real + 1.0) * time)
    ensures SpeedInTime(c, steps, TimedSpeed(c, steps) as real)
  {
    hide TimedRate, Trunc, Apart;
  }

  /**
    Before and after a command of so many steps: its maximum speed and its acceleration are set, and the
    clamp is that of the speed.  An acceleration of zero leaves the one before, and kinds the task does not
    know leave both.
   */
  ghost predicate SetFor(c: Command, steps: int, m: Motor, m': Motor) {
    && (c.kind == 0 || c.kind == 1 ==> m'.maxSpeed == Abs(c.speed as real))
    && (c.kind == 2 ==> SpeedInTime(c, steps, m'.maxSpeed))
    && (c.kind > 2 ==> m'.maxSpeed == m.maxSpeed)
    && (c.kind <= 2 && c.accel != 0 ==> m'.acceleration == Abs(c.accel as real))
    && (c.kind > 2 || c.accel == 0 ==> m'.acceleration == m.acceleration)
    && Tuned(m')
  }

  predicate SameSettings(m: Motor, m': Motor) {
    m'.maxSpeed == m.maxSpeed && m'.cmin == m.cmin && m'.acceleration == m.acceleration && m'.c0 == m.c0
  }

  lemma SettingsStay(c: Command, steps: int, m: Motor, s: Motor, m': Motor)
    requires SetFor(c, steps, m, s) && SameSettings(s, m')
    ensures SetFor(c, steps, m, m')
  {}

  lemma SetTuned(c: Command, steps: int, m: Motor, m': Motor)
    requires SetFor(c, steps, m, m')
    ensures Tuned(m')
  {}

  lemma RunKeepsSettings(m: Motor, k: nat)
    requires m.Valid()
    ensures SameSettings(m, After(m, k))
  {}

  predicate AllFeasible(cs: seq<Command>, position: int, previous: int) {
    cs == [] || (var steps := StepsFor(cs[0], position, previous);
                 Feasible(cs[0], steps) && AllFeasible(cs[1..], PositionAfter(cs[0], position), steps))
  }

  /** A motor standing still, with every interval its settings can call for below two seconds. */
  ghost predicate Ready(m: Motor) {
    Coherent(m) && AtRest(m) && 2.0 * Max(m.c0, m.cmin) <= LONGEST as real
  }

  lemma ReadyMaxSpeed(m: Motor, v: int)
    requires Ready(m) && v != 0 && -1_000_000 <= v <= 1_000_000
    ensures Ready(m.SetMaxSpeed(v as real)) && m.SetMaxSpeed(v as real).currentPos == m.currentPos
    ensures m.SetMaxSpeed(v as real).maxSpeed == Abs(v as real)
    ensures Tuned(m) || (Abs(v as real) != 1.0 && m.maxSpeed == 1.0) ==> Tuned(m.SetMaxSpeed(v as real))
  {
    MaxSpeedCoherent(m, v as real);
    InversePositive(Abs(v as real));
    InverseOrder(Abs(v as real), 1.0);
    hide Coherent, Energy;
  }

  lemma ReadyAcceleration(m: Motor, a: int, r: real)
    requires Ready(m) && -0x8000_0000 <= a < 0x8000_0000 && (a != 0 ==> IsRoot(r, Abs(a as real)))
    ensures Ready(m.SetAcceleration(a as real, r)) && m.SetAcceleration(a as real, r).currentPos == m.currentPos
    ensures m.SetAcceleration(a as real, r).acceleration == if a != 0 then Abs(a as real) else m.acceleration
    ensures Tuned(m) ==> Tuned(m.SetAcceleration(a as real, r))
  {
    if a == 0 { return; }
    RootBounds(r, Abs(a as real));
    AccelerationCoherent(m, a as real, r);
    var s := m.WithAcceleration(Abs(a as real), r);
    StepsToStopIsFloor(s);
    hide Coherent, Energy, IsRoot, RescaledCount, Trunc;
  }

  /** move() from readiness: nothing to do, or an approach of that many steps. */
  lemma ReadyMove(m: Motor, steps: int)
    requires Ready(m)
    ensures var m' := m.Move(steps);
      && m'.Valid() && Coherent(m') && Safe(m') && Timed(m', LONGEST)
      && m'.currentPos == m.currentPos && m'.targetPos == m.currentPos + steps
      && (steps != 0 ==> Approaching(m') && m'.Ahead() == Distance(0, steps))
      && (steps == 0 ==> m' == m)
  {
    ReadySafe(m);
    RetargetedState(m, m.currentPos + steps);
    hide Coherent, Energy, InStride, Accelerating, Braking, Motor.ComputeNewSpeed, Safe;
    if steps != 0 {
      StartMove(m, m.currentPos + steps);
      ApproachTimed(m.Move(steps), LONGEST);
    } else {
      RestTimed(m, LONGEST);
    }
  }

  lemma ReadySafe(m: Motor)
    requires Ready(m)
    ensures Safe(m)
  {
    StepsToStopIsFloor(m);
  }

  lemma RestTimed(m: Motor, limit: nat)
    requires m.Valid() && AtRest(m)
    ensures Timed(m, limit)
  {
    AfterNone(m);
    assert After(m, 0).speed == 0.0;
    hide After;
  }

  // ---------------------------------------------------------------- the queue and its senders

  class CommandQueue {
    var items: seq<Command>
    ghost var history: Fifo

    ghost predicate Valid()
      reads this
    {
      history.Valid() && history.items == items
    }

    constructor ()
      ensures Valid() && history == Fifo([], [], [], [])
    {
      items := [];
      history := Fifo([], [], [], []);
    }

    method SendToBack(c: Command) returns (sent: bool)
      requires Valid()
      modifies this
      ensures Valid() && history == old(history).Send(c)
      ensures sent <==> |old(items)| < 40
      ensures items == if sent then old(items) + [c] else old(items)
    {
      sent := |items| < CAPACITY;
      SendKeepsOrder(history, c);
      history := history.Send(c);
      if sent {
        items := items + [c];
      }
    }

    method Receive() returns (c: Command)
      requires Valid() && items != []
      modifies this
      ensures Valid() && history == old(history).Receive()
      ensures c == old(items)[0] && items == old(items)[1..]
    {
      ReceiveKeepsOrder(history);
      c := items[0];
      history := history.Receive();
      items := items[1..];
    }
  }

  /** The send is not waited for beyond the moment it is decided; a full queue loses the command. */
  method CommandMove(q: CommandQueue, kind: int, move: int, speed: int, accel: int, time: int, min: int, max: int)
    requires q.Valid() && kind >= 0
    modifies q
    ensures q.Valid() && q.history == old(q.history).Send(Order(kind, move, speed, accel, time, min, max))
    ensures |q.history.offered| == |old(q.history.offered)| + 1
    ensures var c := q.history.offered[|q.history.offered| - 1];
      && c == Command(kind, c.move, speed, accel, time, min, max)
      && (kind == 0 ==> c.move == move)
      && (kind >= 1 ==> WithinRange(c.move, move, min, max))
  {
    var target := move;
    if kind >= 1 {
      if move <= min {
        target := min;
      } else if move >= max {
        target := max;
      }
    }
    var _ := q.SendToBack(Command(kind, target, speed, accel, time, min, max));
  }

  /** The commands offered in a series of events, in order. */
  function Offers(events: seq<Event>): seq<Command> {
    if events == [] then []
    else Offers(events[..|events| - 1]) +
         match events[|events| - 1] case Offer(c) => [c] case Take => []
  }

  lemma OffersMore(events: seq<Event>, e: Event)
    ensures Offers(events + [e]) == Offers(events) + match e case Offer(c) => [c] case Take => []
  {
    assert (events + [e])[..|events|] == events;
  }

  lemma HappenMore(f: Fifo, events: seq<Event>, e: Event)
    ensures Happen(f, events + [e]) ==
      match e case Offer(c) => Happen(f, events).Send(c)
              case Take => if Happen(f, events).items != [] then Happen(f, events).Receive() else Happen(f, events)
  {
    assert (events + [e])[..|events|] == events;
  }

  /** The stepper task takes up to count commands off the queue while the sender waits. */
  method TakeSome(q: CommandQueue, count: nat) returns (ghost events: seq<Event>)
    requires q.Valid()
    modifies q
    ensures q.Valid() && q.history == Happen(old(q.history), events) && Offers(events) == []
  {
    events := [];
    var i := 0;
    while i < count && q.items != []
      invariant q.Valid() && q.history == Happen(old(q.history), events) && Offers(events) == []
    {
      HappenMore(old(q.history), events, Take);
      OffersMore(events, Take);
      var _ := q.Receive();
      events := events + [Take];
      i := i + 1;
    }
  }

  lemma {:induction false} HappenAppend(f: Fifo, a: seq<Event>, b: seq<Event>)
    ensures Happen(f, a + b) == Happen(Happen(f, a), b) && Offers(a + b) == Offers(a) + Offers(b)
  {
    if b == [] {
      assert a + b == a;
    } else {
      var last := |b| - 1;
      HappenAppend(f, a, b[..last]);
      assert a + b == (a + b[..last]) + [b[last]];
      HappenMore(f, a + b[..last], b[last]);
      OffersMore(a + b[..last], b[last]);
    }
  }

  lemma {:induction false} OfferedAre(f: Fifo, events: seq<Event>)
    ensures Happen(f, events).offered == f.offered + Offers(events)
  {
    if events != [] {
      OfferedAre(f, events[..|events| - 1]);
    }
  }

  lemma {:induction false} ReceivedGrows(f: Fifo, events: seq<Event>)
    ensures |f.received| <= |Happen(f, events).received| && Happen(f, events).received[..|f.received|] == f.received
  {
    if events != [] {
      ReceivedGrows(f, events[..|events| - 1]);
    }
  }

  /** The commands received in the course of the events. */
  function Taken(f: Fifo, events: seq<Event>): seq<Command> {
    ReceivedGrows(f, events);
    Happen(f, events).received[|f.received|..]
  }

  /** What happens first and what happens then. */
  lemma TakenFirst(f: Fifo, e: Event, rest: seq<Event>)
    ensures var g := Happen(f, [e]);
      && Happen(f, [e] + rest) == Happen(g, rest)
      && Taken(f, [e] + rest) == (if e.Take? && f.items != [] then [f.items[0]] else []) + Taken(g, rest)
      && g == match e case Offer(c) => f.Send(c) case Take => if f.items != [] then f.Receive() else f
  {
    HappenMore(f, [], e);
    hide Subsequence;
    assert [] + [e] == [e];
    HappenAppend(f, [e], rest);
    ReceivedGrows(Happen(f, [e]), rest);
  }

  lemma TakenNone(f: Fifo)
    ensures Happen(f, []) == f && Taken(f, []) == []
  {}

  lemma TakenMeans(f: Fifo, events: seq<Event>)
    ensures Happen(f, events).received == f.received + Taken(f, events)
  {
    ReceivedGrows(f, events);
  }

  /** On an empty queue the history before does not matter. */
  lemma {:induction false} TakenFresh(f: Fifo, events: seq<Event>)
    requires f.items == []
    ensures Happen(f, events).items == Happen(Fifo([], [], [], []), events).items
    ensures Taken(f, events) == Happen(Fifo([], [], [], []), events).received
  {
    if events != [] {
      var front := events[..|events| - 1];
      TakenFresh(f, front);
      ReceivedGrows(f, front);
      hide Subsequence, Taken;
      TakenMeans(f, front);
      TakenMeans(f, events);
    }
  }

  /** From an empty queue the commands received are some of those offered, in order. */
  lemma TakenInOrder(f: Fifo, events: seq<Event>)
    requires f.items == []
    ensures Subsequence(Taken(f, events), Offers(events))
  {
    TakenFresh(f, events);
    FifoOrder(Fifo([], [], [], []), events);
    OfferedAre(Fifo([], [], [], []), events);
    hide *;
    assert [] + Offers(events) == Offers(events);
  }

  /** The first of a series of commands, and the rest. */
  lemma FirstOfSeries(c: Command, rest: seq<Command>, position: int, previous: int)
    ensures var steps, position' := StepsFor(c, position, previous), PositionAfter(c, position);
      && (AllFeasible([c] + rest, position, previous) <==> Feasible(c, steps) && AllFeasible(rest, position', steps))
      && TotalSteps([c] + rest, position, previous) == steps + TotalSteps(rest, position', steps)
      && FinalPosition([c] + rest, position) == FinalPosition(rest, position')
  {
    assert ([c] + rest)[1..] == rest;
  }

  lemma {:induction false} SineFeasible(cs: seq<Command>, s: Sine, position: int, previous: int)
    requires (forall c | c in cs :: c in s.Commands()) && Feasible(s.To(s.move), 0)
    ensures AllFeasible(cs, position, previous)
  {
    if cs != [] {
      assert cs[0] in s.Commands();
      SineFeasible(cs[1..], s, PositionAfter(cs[0], position), StepsFor(cs[0], position, previous));
    }
  }

  /**
    A sine offered to an empty queue, however sending, dropping and receiving interleave: the
    commands the strand executes are all usable, and together drift by less than three steps.
   */
  lemma SineTaken(f: Fifo, events: seq<Event>, s: Sine, position: int, previous: int)
    requires f.items == [] && Offers(events) == s.Commands() && Feasible(s.To(s.move), 0)
    ensures AllFeasible(Taken(f, events), position, previous)
    ensures -12 <= 5 * TotalSteps(Taken(f, events), position, previous) - 113 * (FinalPosition(Taken(f, events), position) - position) <= 12
    ensures Taken(f, events) != [] && Taken(f, events)[|Taken(f, events)| - 1] == s.To(s.move) ==>
      WithinRange(FinalPosition(Taken(f, events), position), s.move, s.min, s.max)
  {
    var cs := Taken(f, events);
    TakenInOrder(f, events);
    hide *;
    SubsequenceMembers(cs, s.Commands());
    SineFeasible(cs, s, position, previous);
    SineDrift(cs, s, position, previous);
    if cs != [] && cs[|cs| - 1] == s.To(s.move) {
      SineEndsAtCentre(cs, s, position);
    }
  }

  /** One send of sine_task: the stepper task takes what it can, then the command is offered. */
  method SineSend(q: CommandQueue, s: Sine, target: int, count: nat, ghost was: Fifo, ghost before: seq<Event>)
    returns (ghost events: seq<Event>)
    requires q.Valid() && q.history == Happen(was, before)
    modifies q
    ensures q.Valid() && q.history == Happen(was, events)
    ensures Offers(events) == Offers(before) + [s.To(target)]
  {
    hide Fifo.Send, Fifo.Receive, Happen, Offers;
    ghost var waited := TakeSome(q, count);
    HappenAppend(was, before, waited);
    HappenMore(was, before + waited, Offer(s.To(target)));
    OffersMore(before + waited, Offer(s.To(target)));
    CommandMove(q, 1, target, s.speed, s.accel, 0, s.min, s.max);
    events := before + waited + [Offer(s.To(target))];
  }

  /**
    One sine of sine_task.  taken(i) is how many commands the stepper task manages to receive
    before the i-th send.  The events say how sending and receiving interleaved.
   */
  method SineTask(q: CommandQueue, s: Sine, taken: nat -> nat) returns (ghost events: seq<Event>)
    requires q.Valid()
    modifies q
    ensures q.Valid() && q.history == Happen(old(q.history), events)
    ensures Offers(events) == s.Commands() && SwingsAbout(Offers(events), s)
  {
    hide SwingsAbout;
    ghost var was := q.history;
    var top, bottom := s.move + s.offset, s.move - s.offset;
    events := [];
    var i := 0;
    while i < s.loops
      invariant 0 <= i && (i <= s.loops || i == 0)
      invariant q.Valid() && q.history == Happen(was, events)
      invariant Offers(events) == s.Swings(i)
    {
      if i % 2 == 0 {
        events := SineSend(q, s, top, taken(i), was, events);
      } else {
        events := SineSend(q, s, bottom, taken(i), was, events);
      }
      i := i + 1;
    }
    events := SineSend(q, s, s.move, taken(i), was, events);
    SineCommands(s);
  }

  // ---------------------------------------------------------------- the stepper task

  /** A motor, moving or not, with every interval of a move from rest below two seconds. */
  ghost predicate Tame(m: Motor) {
    Coherent(m) && 2.0 * Max(m.c0, m.cmin) <= LONGEST as real
  }

  /** Driving home starts from readiness at position 0. */
  lemma HomeReady(m: Motor)
    requires Tame(m)
    ensures m.Valid() && Ready(m.SetCurrentPosition(0)) && Safe(m.SetCurrentPosition(0))
    ensures m.SetCurrentPosition(0).currentPos == 0
    ensures Timed(m.SetCurrentPosition(0).MoveTo(4000), LONGEST)
  {
    var m' := m.SetCurrentPosition(0);
    hide Energy, Trunc;
    ReadySafe(m');
    ReadyMove(m', 4000);
    assert m'.Move(4000) == m'.MoveTo(4000);
  }

  lemma RestReady(m: Motor)
    requires Tame(m) && AtRest(m)
    ensures m.Valid() && Ready(m) && Safe(m) && SettlesIn(m, 0, 0) && Timed(m, LONGEST) && After(m, 0) == m
    ensures !Approaching(m)
  {
    ReadySafe(m);
    RestRun(m);
    RestTimed(m, LONGEST);
  }

  lemma TameAfter(m: Motor, t: nat, k: nat, i: nat)
    requires Tame(m) && SettlesIn(m, t, k) && i <= k
    ensures Tame(After(m, i))
  {
    AfterCoherent(m, t, k, i);
    hide Coherent;
  }

  /** A move as the motion loop sees it: k steps from rest on one target to rest on another, or none. */
  ghost predicate Trip(m: Motor, t: nat, k: nat) {
    && Tame(m) && Safe(m) && Timed(m, LONGEST)
    && SettlesIn(m, t, k)
    && (AtRest(m) || Approaching(m))
    && (Approaching(m) ==> k == m.Ahead())
  }

  lemma TripStart(m: Motor, t: nat, k: nat)
    requires Tame(m) && Safe(m) && Timed(m, LONGEST) && SettlesIn(m, t, k)
    requires AtRest(m) || Approaching(m)
    requires Approaching(m) ==> k == m.Ahead()
    ensures Trip(m, t, k)
  {}

  /** What the motion loop finds after i steps of a move: short of the target, or at rest on it. */
  lemma TravelFacts(m: Motor, t: nat, k: nat, i: nat)
    requires Trip(m, t, k) && i <= k
    ensures m.Valid() && Coherent(m) && Timed(m, LONGEST) && SettlesIn(m, t, k)
    ensures i < k <==> After(m, i).targetPos != After(m, i).currentPos
    ensures Tame(After(m, i))
    ensures i == k ==> Ready(After(m, i)) && After(m, i).currentPos == m.targetPos
    ensures k == Distance(m.currentPos, m.targetPos)
  {
    TameAfter(m, t, k, i);
    if Approaching(m) {
      ApproachingAhead(m);
      ApproachRuns(m, i);
      if i < k { ApproachingAhead(After(m, i)); }
    } else {
      assert After(m, 0).speed == 0.0;
    }
  }

  /** The motor as its constructor leaves it. */
  lemma FreshReady(r: real)
    requires IsRoot(r, 1.0)
    ensures Ready(BLANK.SetAcceleration(1.0, r)) && Fresh(BLANK.SetAcceleration(1.0, r))
    ensures BLANK.SetAcceleration(1.0, r).currentPos == 0
  {
    RootBounds(r, 1.0);
    var s := BLANK.WithAcceleration(1.0, r);
    assert s.Valid() && s.DistanceToGo() == 0 && s.speed == 0.0;
    StepsToStopIsFloor(s);
    hide IsRoot, Energy;
  }

  const STEP_PIN: nat := 19
  const DIR_PIN: nat := 18
  const MICROSTEPPING := 8

  class Strand {
    const stepper: AccelStepper
    const queue: CommandQueue
    /** In millimetres, where the last absolute command has sent the strand. */
    var currentPosition: int
    var stepperMove: int

    ghost predicate Valid()
      reads this, stepper, queue
    {
      stepper.Valid() && queue.Valid() && Ready(stepper.State()) && Tuned(stepper.State())
    }

    /** The task's state after init_strand. */
    constructor (root: real -> real, bootPosition: int)
      requires Roots(root)
      ensures Valid() && fresh(stepper) && fresh(queue) && currentPosition == bootPosition && stepperMove == 0
      ensures stepper.currentPos == 0 && queue.items == []
      ensures stepper.maxSpeed == 11200.0 && stepper.acceleration == 8000.0
    {
      hide Ready, Motor.SetMaxSpeed, Motor.SetAcceleration, Motor.Valid, IsRoot, Roots, AccelStepper.Balanced, AccelStepper.Valid;
      RootOf(root, 1.0);
      RootOf(root, (1000 * MICROSTEPPING) as real);
      FreshReady(root(1.0));
      var motor := new AccelStepper(STEP_PIN, DIR_PIN, root(1.0));
      ReadyMaxSpeed(motor.State(), 1400 * MICROSTEPPING);
      motor.SetMaxSpeed((1400 * MICROSTEPPING) as real);
      ReadyAcceleration(motor.State(), 1000 * MICROSTEPPING, root((1000 * MICROSTEPPING) as real));
      motor.SetAcceleration((1000 * MICROSTEPPING) as real, root((1000 * MICROSTEPPING) as real));
      stepper := motor;
      queue := new CommandQueue();
      currentPosition, stepperMove := bootPosition, 0;
    }

    /** The HOME_BIT handler of the motion loop. */
    method Home(clock: nat -> Micros, start: nat) returns (readings: nat)
      requires stepper.Valid() && Tame(stepper.State()) && Live(clock, LONGEST)
      modifies this`currentPosition, stepper
      ensures stepper.Valid() && Ready(stepper.State()) && stepper.currentPos == 4000 && currentPosition == 0
      ensures |stepper.steps| == 4000 && SameSettings(old(stepper.State()), stepper.State())
    {
      hide *;
      HomeReady(stepper.State());
      stepper.SetCurrentPosition(0);
      ghost var was := stepper.State();
      ghost var turn, k;
      ReadyParts(was);
      stepper.StateFields();
      readings, turn, k := stepper.RunToNewPosition(4000, clock, start, LONGEST);
      HomeReached(was, turn, k);
      HomeKeepsSettings(old(stepper.State()), k);
      currentPosition := 0;
    }

    /**
      The motion loop of one command.  home(i) tells whether HOME_BIT is pending at the i-th
      poll.  Without it the motor makes exactly the steps to its target and stands still on it; with it
      the strand is driven to step 4000, recorded as position 0, and the loop ends there.
     */
    method Travel(clock: nat -> Micros, start: nat, home: nat -> bool)
      returns (readings: nat, polls: nat, homed: bool)
      requires stepper.Valid() && Tame(stepper.State()) && Safe(stepper.State()) && Timed(stepper.State(), LONGEST)
      requires AtRest(stepper.State()) || Approaching(stepper.State())
      requires Live(clock, LONGEST)
      modifies this`currentPosition, stepper
      ensures stepper.Valid() && Ready(stepper.State())
      ensures homed <==> exists i: nat :: i < polls && home(i)
      ensures homed ==> stepper.currentPos == 4000 && currentPosition == 0
      ensures !homed ==> currentPosition == old(currentPosition) && stepper.currentPos == old(stepper.targetPos)
      ensures !homed ==> |stepper.steps| == |old(stepper.steps)| + Distance(old(stepper.currentPos), old(stepper.targetPos))
      ensures polls == 0 <==> old(stepper.targetPos == stepper.currentPos)
      ensures SameSettings(old(stepper.State()), stepper.State())
    {
      hide *;
      ghost var was := stepper.State();
      stepper.StateFields();
      ghost var turn: nat, k: nat := Settles(was);
      ghost var done: nat := 0;
      SafeStart(was);
      SettingsSame(was);
      TripStart(was, turn, k);
      TravelFacts(was, turn, k, 0);
      ghost var due: nat := NextDue(clock, start, stepper.lastStepTime, LONGEST);
      ghost var from := |stepper.steps|;
      readings, polls, homed := start, 0, false;
      while stepper.targetPos - stepper.currentPos != 0
        invariant stepper.Valid() && was.Valid() && Trip(was, turn, k)
        invariant done <= k && stepper.State() == After(was, done) && SameSettings(old(stepper.State()), was)
        invariant done < k ==> readings <= due && Elapsed(clock(due), stepper.lastStepTime) >= LONGEST
        invariant homed ==> k == 0 && was.targetPos == 4000 && currentPosition == 0
        invariant !homed ==> was == old(stepper.State()) && currentPosition == old(currentPosition) && |stepper.steps| == from + done
        invariant homed <==> exists i: nat :: i < polls && home(i)
        invariant polls == 0 ==> done == 0 && !homed
        invariant polls > 0 ==> old(stepper.targetPos != stepper.currentPos)
        decreases if homed then 0 else 1, k - done, due - readings
      {
        TravelFacts(was, turn, k, done);
        stepper.StateFields();
        if home(polls) {
          readings := Home(clock, readings);
          homed := true;
          SettingsThrough(old(stepper.State()), was, done, stepper.State());
          was := stepper.State();
          stepper.StateFields();
          ReadyTame(was);
          RestReady(was);
          TripStart(was, 0, 0);
          turn, k, done := 0, 0, 0;
          TravelFacts(was, turn, k, done);
        }
        ghost var before := done;
        ghost var running;
        running, done := stepper.Poll(clock(readings), was, turn, k, done, LONGEST);
        if done > before {
          due := NextDue(clock, readings + 1, stepper.lastStepTime, LONGEST);
        }
        readings, polls := readings + 1, polls + 1;
      }
      TravelFacts(was, turn, k, done);
      stepper.StateFields();
      SettingsAfter(old(stepper.State()), was, done);
    }

    method SetAcceleration(a: int, root: real -> real)
      requires stepper.Valid() && Ready(stepper.State()) && Roots(root) && -0x8000_0000 <= a < 0x8000_0000
      modifies stepper`c0, stepper`acceleration, stepper`stepInterval, stepper`speed, stepper`n, stepper`cn, stepper`direction
      ensures stepper.Valid() && Ready(stepper.State())
      ensures stepper.acceleration == if a != 0 then Abs(a as real) else old(stepper.acceleration)
      ensures old(Tuned(stepper.State())) ==> Tuned(stepper.State())
    {
      hide *;
      if a != 0 { RootOfInt(root, a); }
      stepper.StateFields();
      ReadyAcceleration(stepper.State(), a, root(Abs(a as real)));
      stepper.SetAcceleration(a as real, root(Abs(a as real)));
      stepper.StateFields();
    }

    method SetMaxSpeed(v: int)
      requires stepper.Valid() && Ready(stepper.State()) && v != 0 && -1_000_000 <= v <= 1_000_000
      modifies stepper`maxSpeed, stepper`cmin, stepper`stepInterval, stepper`speed, stepper`n, stepper`cn, stepper`direction
      ensures stepper.Valid() && Ready(stepper.State())
      ensures stepper.maxSpeed == Abs(v as real) && (old(Tuned(stepper.State())) ==> Tuned(stepper.State()))
    {
      hide *;
      stepper.StateFields();
      ReadyMaxSpeed(stepper.State(), v);
      stepper.SetMaxSpeed(v as real);
      stepper.StateFields();
    }

    /** The settings of a command of kind 2, from the time it is given. */
    method SetForTime(c: Command, root: real -> real)
      requires stepper.Valid() && Ready(stepper.State()) && Roots(root) && Tuned(stepper.State()) && c.kind == 2 && Feasible(c, stepperMove)
      modifies stepper`c0, stepper`acceleration, stepper`maxSpeed, stepper`cmin, stepper`stepInterval, stepper`speed, stepper`n, stepper`cn, stepper`direction
      ensures stepper.Valid() && Ready(stepper.State()) && SetFor(c, stepperMove, old(stepper.State()), stepper.State())
    {
      TimedParts(c, stepperMove);
      hide *;
      ghost var was := stepper.State();
      stepper.StateFields();
      var rate := TimedRate(c, stepperMove);
      SetAcceleration(c.accel, root);
      if c.speed < 10000 && rate >= 100.0 {
        SetMaxSpeed(Trunc(rate));
      } else if rate < 100.0 {
        SetMaxSpeed(100);
      } else {
        SetMaxSpeed(10000);
      }
      stepper.StateFields();
      TimedSettings(c, stepperMove, was, stepper.State());
    }

    /** What the task does with a command before it starts the motor: note the move, record the position, set the motor. */
    method Prepare(c: Command, root: real -> real)
      requires Valid() && Roots(root) && Feasible(c, StepsFor(c, currentPosition, stepperMove))
      modifies this, stepper`c0, stepper`acceleration, stepper`maxSpeed, stepper`cmin, stepper`stepInterval, stepper`speed, stepper`n, stepper`cn, stepper`direction
      ensures Valid()
      ensures stepperMove == StepsFor(c, old(currentPosition), old(stepperMove))
      ensures currentPosition == PositionAfter(c, old(currentPosition))
      ensures SetFor(c, stepperMove, old(stepper.State()), stepper.State())
    {
      hide Ready, Roots, AccelStepper.Valid, CommandQueue.Valid, Trunc, ToSteps, TimedSpeed;
      if c.kind == 2 {
        stepperMove := ToSteps(c.move - currentPosition);
        currentPosition := c.move;
        SetForTime(c, root);
      }
      if c.kind == 1 {
        stepperMove := ToSteps(c.move - currentPosition);
        currentPosition := c.move;
        SetMaxSpeed(c.speed);
        SetAcceleration(c.accel, root);
      }
      if c.kind == 0 {
        stepperMove := c.move;
        SetMaxSpeed(c.speed);
        SetAcceleration(c.accel, root);
      }
    }

    /**
      One command of stepper_task.  Undisturbed, the motor makes exactly stepper_move steps and stands
      still; a HOME_BIT seen on the way leaves it at step 4000 and position 0 instead.
     */
    method Execute(c: Command, root: real -> real, clock: nat -> Micros, start: nat, home: nat -> bool)
      returns (readings: nat, polls: nat, homed: bool)
      requires Valid() && Roots(root) && Live(clock, LONGEST) && Feasible(c, StepsFor(c, currentPosition, stepperMove))
      modifies this, stepper
      ensures Valid() && queue.items == old(queue.items)
      ensures stepperMove == StepsFor(c, old(currentPosition), old(stepperMove))
      ensures homed <==> exists i: nat :: i < polls && home(i)
      ensures homed ==> stepper.currentPos == 4000 && currentPosition == 0
      ensures !homed ==> stepper.currentPos == old(stepper.currentPos) + stepperMove
      ensures !homed ==> currentPosition == PositionAfter(c, old(currentPosition))
      ensures !homed && c.kind == 0 ==> stepper.currentPos == old(stepper.currentPos) + c.move && currentPosition == old(currentPosition)
      ensures !homed && (c.kind == 1 || c.kind == 2) ==>
        WholeSteps(stepper.currentPos - old(stepper.currentPos), c.move - old(currentPosition)) && currentPosition == c.move
      ensures !homed ==> |stepper.steps| == |old(stepper.steps)| + Distance(0, stepperMove)
      ensures SetFor(c, stepperMove, old(stepper.State()), stepper.State())
    {
      ghost var before := stepper.State();
      StepsOfKind(c, currentPosition, stepperMove);
      stepper.StateFields();
      hide AccelStepper.State, Ready, Roots, Motor.Move, AccelStepper.Valid, CommandQueue.Valid, SetFor, SameSettings, Tuned, Tame, Timed, Safe, AtRest, Approaching, StepsFor, PositionAfter, Feasible, Live, WholeSteps;
      Prepare(c, root);
      ghost var was := stepper.State();
      stepper.StateFields();
      ReadyMove(was, stepperMove);
      ReadyMoveTame(was, stepperMove);
      stepper.Move(stepperMove);
      stepper.StateFields();
      ghost var aimed := stepper.State();
      readings, polls, homed := Travel(clock, start, home);
      SettingsStay(c, stepperMove, before, was, aimed);
      SettingsStay(c, stepperMove, before, aimed, stepper.State());
      SetTuned(c, stepperMove, before, stepper.State());
    }

    /** One thing that happens to the strand: a command is offered, or its task takes and executes the next one if there is one. */
    method Happens(e: Event, root: real -> real, clock: nat -> Micros, start: nat) returns (readings: nat)
      requires Valid() && Roots(root) && Live(clock, LONGEST)
      requires e.Take? && queue.items != [] ==> Feasible(queue.items[0], StepsFor(queue.items[0], currentPosition, stepperMove))
      modifies this, stepper, queue
      ensures Valid()
      ensures queue.history == match e
        case Offer(c) => old(queue.history).Send(c)
        case Take => if old(queue.items) != [] then old(queue.history).Receive() else old(queue.history)
      ensures if e.Take? && old(queue.items) != [] then
          && stepperMove == StepsFor(old(queue.items)[0], old(currentPosition), old(stepperMove))
          && stepper.currentPos == old(stepper.currentPos) + stepperMove
          && currentPosition == PositionAfter(old(queue.items)[0], old(currentPosition))
        else
          stepperMove == old(stepperMove) && stepper.currentPos == old(stepper.currentPos) && currentPosition == old(currentPosition)
    {
      hide Ready, Tuned, Roots, AccelStepper.Valid, Feasible, StepsFor, PositionAfter, CommandQueue.Valid, Fifo.Send, Fifo.Receive, SetFor, AccelStepper.State;
      readings := start;
      match e
      case Offer(c) =>
        var _ := queue.SendToBack(c);
      case Take =>
        if queue.items != [] {
          var c := queue.Receive();
          var polls, homed;
          readings, polls, homed := Execute(c, root, clock, readings, i => false);
        }
    }

    /**
      The stepper task among the tasks that send to it, without notifications: however sending and
      executing interleave, the motor is at rest after each command, the step position is where it
      started plus the moves of the commands received, and the recorded position is the last absolute
      target received.
     */
    method Work(events: seq<Event>, root: real -> real, clock: nat -> Micros, start: nat) returns (readings: nat)
      requires Valid() && Roots(root) && Live(clock, LONGEST)
      requires AllFeasible(Taken(queue.history, events), currentPosition, stepperMove)
      modifies this, stepper, queue
      ensures Valid() && AtRest(stepper.State()) && queue.history == Happen(old(queue.history), events)
      ensures stepper.currentPos == old(stepper.currentPos) + TotalSteps(Taken(old(queue.history), events), old(currentPosition), old(stepperMove))
      ensures currentPosition == FinalPosition(Taken(old(queue.history), events), old(currentPosition))
    {
      hide Ready, Tuned, Roots, AccelStepper.Valid, Feasible, StepsFor, PositionAfter, CommandQueue.Valid, Taken, Happen, Fifo.Send, Fifo.Receive;
      readings := start;
      var i := 0;
      assert events[0..] == events;
      while i < |events|
        invariant 0 <= i <= |events| && Valid()
        invariant AllFeasible(Taken(queue.history, events[i..]), currentPosition, stepperMove)
        invariant Happen(queue.history, events[i..]) == Happen(old(queue.history), events)
        invariant stepper.currentPos + TotalSteps(Taken(queue.history, events[i..]), currentPosition, stepperMove)
               == old(stepper.currentPos) + TotalSteps(Taken(old(queue.history), events), old(currentPosition), old(stepperMove))
        invariant FinalPosition(Taken(queue.history, events[i..]), currentPosition)
               == FinalPosition(Taken(old(queue.history), events), old(currentPosition))
      {
        QueueIsHistory();
        TakenFirst(queue.history, events[i], events[i + 1..]);
        if queue.items != [] {
          FirstOfSeries(queue.items[0], Taken(Happen(queue.history, [events[i]]), events[i + 1..]), currentPosition, stepperMove);
        }
        assert [] + Taken(Happen(queue.history, [events[i]]), events[i + 1..]) == Taken(Happen(queue.history, [events[i]]), events[i + 1..]);
        assert [events[i]] + events[i + 1..] == events[i..];
        readings := Happens(events[i], root, clock, readings);
        i := i + 1;
      }
      assert events[i..] == [];
      TakenNone(queue.history);
      ReadyTame(stepper.State());
    }

    /**
      A sine as the motor makes it: offered to an empty queue while the strand works, it moves the
      motor by less than three steps more or less than the change of position calls for.
     */
    method Oscillate(s: Sine, events: seq<Event>, root: real -> real, clock: nat -> Micros, start: nat) returns (readings: nat)
      requires Valid() && Roots(root) && Live(clock, LONGEST)
      requires queue.items == [] && Offers(events) == s.Commands() && Feasible(s.To(s.move), 0)
      modifies this, stepper, queue
      ensures Valid() && AtRest(stepper.State()) && queue.history == Happen(old(queue.history), events)
      ensures -12 <= 5 * (stepper.currentPos - old(stepper.currentPos)) - 113 * (currentPosition - old(currentPosition)) <= 12
      ensures var cs := Taken(old(queue.history), events);
        cs != [] && cs[|cs| - 1] == s.To(s.move) ==> WithinRange(currentPosition, s.move, s.min, s.max)
    {
      hide *;
      QueueIsHistory();
      SineTaken(queue.history, events, s, currentPosition, stepperMove);
      readings := Work(events, root, clock, start);
    }

    lemma QueueIsHistory()
      requires Valid()
      ensures queue.history.items == queue.items
    {}

    /**
      The task working through its queue without notifications: whatever the commands, the step
      position ends where it started plus the sum of their moves, and the recorded position is the last
      absolute target.
     */
    method Drain(root: real -> real, clock: nat -> Micros, start: nat) returns (readings: nat)
      requires Valid() && Roots(root) && Live(clock, LONGEST)
      requires AllFeasible(queue.items, currentPosition, stepperMove)
      modifies this, stepper, queue
      ensures Valid() && AtRest(stepper.State()) && queue.items == [] && queue.history.received == old(queue.history.received) + old(queue.items)
      ensures stepper.currentPos == old(stepper.currentPos) + TotalSteps(old(queue.items), old(currentPosition), old(stepperMove))
      ensures currentPosition == FinalPosition(old(queue.items), old(currentPosition))
    {
      readings := start;
      while queue.items != []
        invariant Valid() && AllFeasible(queue.items, currentPosition, stepperMove)
        invariant queue.history.received + queue.items == old(queue.history.received) + old(queue.items)
        invariant stepper.currentPos + TotalSteps(queue.items, currentPosition, stepperMove)
               == old(stepper.currentPos) + TotalSteps(old(queue.items), old(currentPosition), old(stepperMove))
        invariant FinalPosition(queue.items, currentPosition) == FinalPosition(old(queue.items), old(currentPosition))
        decreases |queue.items|
      {
        hide Ready, Roots, AccelStepper.Valid, Feasible, StepsFor, PositionAfter, CommandQueue.Valid;
        var c := queue.Receive();
        var polls, homed;
        readings, polls, homed := Execute(c, root, clock, readings, i => false);
      }
    }
  }

  lemma HomeKeepsSettings(m: Motor, k: nat)
    requires m.Valid()
    ensures SameSettings(m, After(m.SetCurrentPosition(0).MoveTo(4000), k))
  {
    MoveToKeepsParameters(m.SetCurrentPosition(0), 4000);
    hide Motor.MoveTo;
  }

  lemma SettingsSame(m: Motor)
    ensures SameSettings(m, m)
  {}

  /** Nothing that run does changes the settings. */
  lemma SettingsAfter(m: Motor, was: Motor, k: nat)
    requires was.Valid() && SameSettings(m, was)
    ensures SameSettings(m, After(was, k))
  {
    RunKeepsSettings(was, k);
  }

  lemma SettingsThrough(m: Motor, was: Motor, k: nat, m': Motor)
    requires was.Valid() && SameSettings(m, was) && SameSettings(After(was, k), m')
    ensures SameSettings(m, m')
  {
    RunKeepsSettings(was, k);
  }

  lemma ReadyMoveTame(m: Motor, steps: int)
    requires Ready(m)
    ensures m.Valid() && SameSettings(m, m.Move(steps)) && Tame(m.Move(steps)) && (AtRest(m.Move(steps)) || Approaching(m.Move(steps)))
  {
    ReadyMove(m, steps);
    MoveToKeepsParameters(m, m.currentPos + steps);
    hide Coherent, Motor.MoveTo;
  }

  lemma RootOfInt(root: real -> real, a: int)
    requires Roots(root) && a != 0
    ensures IsRoot(root(Abs(a as real)), Abs(a as real))
  {}

  lemma RootOf(root: real -> real, a: real)
    requires Roots(root) && a > 0.0
    ensures IsRoot(root(a), a) && IsRoot(root(a), Abs(a))
  {}

  lemma SettledAtRest(m: Motor, t: nat, k: nat)
    requires m.Valid() && SettlesIn(m, t, k)
    ensures AtRest(After(m, k))
  {}

  lemma ReadyTame(m: Motor)
    requires Ready(m)
    ensures Tame(m) && AtRest(m)
  {}

  lemma ReadyParts(m: Motor)
    requires Ready(m)
    ensures m.Valid() && Coherent(m) && AtRest(m)
  {}

  lemma HomeReached(m: Motor, t: nat, k: nat)
    requires Ready(m) && SettlesIn(m.MoveTo(4000), t, k) && Coherent(After(m.MoveTo(4000), k))
    ensures Ready(After(m.MoveTo(4000), k))
    ensures m.currentPos == 0 ==> Distance(m.currentPos, 4000) == 4000
  {
    ReadyParts(m);
    MoveToKeepsParameters(m, 4000);
    hide Coherent, Motor.MoveTo, SettlesIn, Motor.Valid, Directions;
    SettledAtRest(m.MoveTo(4000), t, k);
  }
}
