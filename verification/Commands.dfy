/**
  Motion commands: how they are clamped and queued (command_move), which way the sine generator
  expands them, and what executing them does to the position in millimetres and to the number of
  motor steps (strand.cpp and net.c).
 */
module Commands {
  import opened Ramp

  datatype Command = Command(kind: int, move: int, speed: int, accel: int, time: int, min: int, max: int)

  /** The clamp of command_move; relative moves (kind 0) are not clamped. */
  function Clamped(kind: int, move: int, min: int, max: int): int {
    if kind >= 1 then
      if move <= min then min
      else if move >= max then max
      else move
    else move
  }

  function Order(kind: int, move: int, speed: int, accel: int, time: int, min: int, max: int): Command {
    Command(kind, Clamped(kind, move, min, max), speed, accel, time, min, max)
  }

  // ---------------------------------------------------------------- millimetres to steps

  /** Steps for a distance in millimetres: 22.6 steps per millimetre, truncated by the conversion to int. */
  function ToSteps(mm: int): int {
    Trunc(mm as real * 22.6)
  }

  /** Truncation towards zero is antisymmetric and loses less than one step, that is at most four fifths. */
  lemma ToStepsError(mm: int)
    ensures -4 <= 5 * ToSteps(mm) - 113 * mm <= 4
    ensures ToSteps(-mm) == -ToSteps(mm)
    ensures mm == 0 ==> ToSteps(mm) == 0
  {
    if mm >= 0 {
      FloorError(mm);
    } else {
      FloorError(-mm);
    }
    assert (-mm) as real == -(mm as real);
  }

  lemma FloorError(mm: int)
    requires mm >= 0
    ensures 0 <= 113 * mm - 5 * (mm as real * 22.6).Floor <= 4
  {
    var x := mm as real * 22.6;
    assert 5.0 * x == (113 * mm) as real;
    assert (5 * x.Floor) as real <= 5.0 * x < (5 * x.Floor + 5) as real;
  }

  /** The absolute kinds, which move to a position and record it. */
  predicate Absolute(c: Command) {
    c.kind == 1 || c.kind == 2
  }

  /** stepper_move: kinds the task does not know repeat the previous move. */
  function StepsFor(c: Command, position: int, previous: int): int {
    if Absolute(c) then ToSteps(c.move - position)
    else if c.kind == 0 then c.move
    else previous
  }

  /** currentPosition after the command. */
  function PositionAfter(c: Command, position: int): int {
    if Absolute(c) then c.move else position
  }

  /** k is the number of whole steps in mm millimetres, rounded towards zero: never more than 22.6 a millimetre, and less than one short of it. */
  predicate WholeSteps(k: int, mm: int) {
    && (mm >= 0 ==> k >= 0 && 5 * k <= 113 * mm < 5 * (k + 1))
    && (mm <= 0 ==> k <= 0 && 5 * (k - 1) < 113 * mm <= 5 * k)
  }

  /** What each kind of command asks for, in steps and in position. */
  lemma StepsOfKind(c: Command, position: int, previous: int)
    ensures var k, p := StepsFor(c, position, previous), PositionAfter(c, position);
      && (c.kind == 1 || c.kind == 2 ==> WholeSteps(k, c.move - position) && p == c.move)
      && (c.kind == 0 ==> k == c.move && p == position)
      && (c.kind < 0 || c.kind > 2 ==> k == previous && p == position)
  {
    ToStepsWhole(c.move - position);
    hide ToSteps;
  }

  lemma ToStepsWhole(mm: int)
    ensures WholeSteps(ToSteps(mm), mm)
  {
    if mm >= 0 {
      FloorError(mm);
      assert ToSteps(mm) == (mm as real * 22.6).Floor;
    }
    if mm <= 0 {
      FloorError(-mm);
      assert (-mm) as real == -(mm as real);
      ToStepsError(-mm);
    }
  }

  // ---------------------------------------------------------------- executing a series

  /** currentPosition after a series of commands. */
  function FinalPosition(cs: seq<Command>, position: int): int {
    if cs == [] then position else FinalPosition(cs[1..], PositionAfter(cs[0], position))
  }

  /** The steps of a series of commands, added up. */
  function TotalSteps(cs: seq<Command>, position: int, previous: int): int {
    if cs == [] then 0
    else StepsFor(cs[0], position, previous) + TotalSteps(cs[1..], PositionAfter(cs[0], position), StepsFor(cs[0], position, previous))
  }

  /** The part of the steps that does not come from absolute commands. */
  function RelativeSteps(cs: seq<Command>, position: int, previous: int): int {
    if cs == [] then 0
    else
      (if Absolute(cs[0]) then 0 else StepsFor(cs[0], position, previous))
      + RelativeSteps(cs[1..], PositionAfter(cs[0], position), StepsFor(cs[0], position, previous))
  }

  function AbsoluteCount(cs: seq<Command>): nat {
    if cs == [] then 0 else (if Absolute(cs[0]) then 1 else 0) + AbsoluteCount(cs[1..])
  }

  /**
    The drift of the position ledger: apart from the relative moves, the steps differ from 22.6 times
    the change of position by at most four fifths of a step for each absolute command.
   */
  lemma {:induction false} LedgerDrift(cs: seq<Command>, position: int, previous: int)
    ensures var error := 5 * (TotalSteps(cs, position, previous) - RelativeSteps(cs, position, previous))
                         - 113 * (FinalPosition(cs, position) - position);
      -4 * AbsoluteCount(cs) <= error <= 4 * AbsoluteCount(cs)
  {
    if cs != [] {
      LedgerDrift(cs[1..], PositionAfter(cs[0], position), StepsFor(cs[0], position, previous));
      ToStepsError(cs[0].move - position);
    }
  }

  lemma {:induction false} SeriesSplit(a: seq<Command>, b: seq<Command>, position: int, previous: int) returns (last: int)
    ensures FinalPosition(a + b, position) == FinalPosition(b, FinalPosition(a, position))
    ensures TotalSteps(a + b, position, previous) == TotalSteps(a, position, previous) + TotalSteps(b, FinalPosition(a, position), last)
    ensures a == [] ==> last == previous
  {
    if a == [] {
      assert a + b == b;
      last := previous;
    } else {
      assert (a + b)[0] == a[0] && (a + b)[1..] == a[1..] + b;
      last := SeriesSplit(a[1..], b, PositionAfter(a[0], position), StepsFor(a[0], position, previous));
    }
  }

  // ---------------------------------------------------------------- the queue

  const CAPACITY := 40

  /** The command queue with its history: what was offered, what was accepted, and what has been received. */
  datatype Fifo = Fifo(items: seq<Command>, offered: seq<Command>, accepted: seq<Command>, received: seq<Command>)
  {
    /** xQueueSendToBack, at the moment it is decided: into a free slot or, with none, dropped. */
    function Send(c: Command): Fifo {
      if |items| < CAPACITY then Fifo(items + [c], offered + [c], accepted + [c], received)
      else this.(offered := offered + [c])
    }

    /** xQueueReceive on a queue that is not empty. */
    function Receive(): Fifo
      requires items != []
    {
      this.(items := items[1..], received := received + [items[0]])
    }

    predicate Valid() {
      |items| <= CAPACITY && accepted == received + items && Subsequence(accepted, offered)
    }
  }

  /** xs is ys with some elements left out, in the same order. */
  predicate Subsequence(xs: seq<Command>, ys: seq<Command>) {
    if xs == [] then true
    else if ys == [] then false
    else if xs[|xs| - 1] == ys[|ys| - 1] && Subsequence(xs[..|xs| - 1], ys[..|ys| - 1]) then true
    else Subsequence(xs, ys[..|ys| - 1])
  }

  lemma {:induction false} SubsequenceGrows(xs: seq<Command>, ys: seq<Command>, c: Command)
    requires Subsequence(xs, ys)
    ensures Subsequence(xs, ys + [c]) && Subsequence(xs + [c], ys + [c])
  {
    assert (xs + [c])[..|xs|] == xs && (ys + [c])[..|ys|] == ys;
  }

  lemma {:induction false} SubsequenceMembers(xs: seq<Command>, ys: seq<Command>)
    requires Subsequence(xs, ys)
    ensures |xs| <= |ys| && forall c :: c in xs ==> c in ys
    decreases |ys|
  {
    if xs != [] {
      var front := ys[..|ys| - 1];
      if xs[|xs| - 1] == ys[|ys| - 1] && Subsequence(xs[..|xs| - 1], front) {
        SubsequenceMembers(xs[..|xs| - 1], front);
        assert xs == xs[..|xs| - 1] + [xs[|xs| - 1]];
      } else {
        SubsequenceMembers(xs, front);
      }
      assert ys == front + [ys[|ys| - 1]];
    }
  }

  /** Dropping the tail of a subsequence leaves a subsequence. */
  lemma {:induction false} SubsequencePrefix(xs: seq<Command>, rest: seq<Command>, ys: seq<Command>)
    requires Subsequence(xs + rest, ys)
    ensures Subsequence(xs, ys)
    decreases |ys|
  {
    var all := xs + rest;
    if rest == [] {
      assert all == xs;
    } else {
      var front := ys[..|ys| - 1];
      if all[|all| - 1] == ys[|ys| - 1] && Subsequence(all[..|all| - 1], front) {
        assert all[..|all| - 1] == xs + rest[..|rest| - 1];
        SubsequencePrefix(xs, rest[..|rest| - 1], front);
      } else {
        SubsequencePrefix(xs, rest, front);
      }
      SubsequenceGrows(xs, front, ys[|ys| - 1]);
      assert ys == front + [ys[|ys| - 1]];
    }
  }

  datatype Event = Offer(c: Command) | Take

  /** Any interleaving of the tasks that send commands with the stepper task that receives them. */
  function Happen(f: Fifo, events: seq<Event>): Fifo {
    if events == [] then f
    else
      var g := Happen(f, events[..|events| - 1]);
      match events[|events| - 1]
      case Offer(c) => g.Send(c)
      case Take => if g.items != [] then g.Receive() else g
  }

  /**
    However senders and receiver interleave, commands come out in the order they went in: a full queue
    drops commands but never reorders or duplicates them.
   */
  lemma {:induction false} FifoOrder(f: Fifo, events: seq<Event>)
    requires f.Valid()
    ensures Happen(f, events).Valid()
    ensures Subsequence(Happen(f, events).received, Happen(f, events).offered)
  {
    if events != [] {
      FifoOrder(f, events[..|events| - 1]);
      var g := Happen(f, events[..|events| - 1]);
      match events[|events| - 1]
      case Offer(c) => SendKeepsOrder(g, c);
      case Take => if g.items != [] { ReceiveKeepsOrder(g); }
    }
    ReceivedInOrder(Happen(f, events));
  }

  /** How many of the events offer a command to a queue that holds 40 already. */
  ghost function FullOffers(f: Fifo, events: seq<Event>): nat {
    if events == [] then 0
    else
      var front := events[..|events| - 1];
      FullOffers(f, front) + if events[|events| - 1].Offer? && |Happen(f, front).items| >= 40 then 1 else 0
  }

  /** Over any interleaving exactly the commands that meet a full queue are dropped, and with room every command offered last is queued last. */
  lemma {:induction false} DroppedWhenFull(f: Fifo, events: seq<Event>)
    ensures var g := Happen(f, events);
      (|g.offered| - |g.accepted|) - (|f.offered| - |f.accepted|) == FullOffers(f, events)
    ensures events != [] && events[|events| - 1].Offer? ==>
      var before, g := Happen(f, events[..|events| - 1]), Happen(f, events);
      if |before.items| < 40 then g.items == before.items + [events[|events| - 1].c] else g.items == before.items
  {
    if events != [] {
      DroppedWhenFull(f, events[..|events| - 1]);
    }
  }

  lemma SendKeepsOrder(f: Fifo, c: Command)
    requires f.Valid()
    ensures f.Send(c).Valid()
  {
    hide Subsequence;
    SubsequenceGrows(f.accepted, f.offered, c);
    assert f.received + (f.items + [c]) == (f.received + f.items) + [c];
  }

  lemma ReceiveKeepsOrder(f: Fifo)
    requires f.Valid() && f.items != []
    ensures f.Receive().Valid()
  {
    hide Subsequence;
    assert f.received + [f.items[0]] + f.items[1..] == f.received + f.items;
  }

  lemma ReceivedInOrder(f: Fifo)
    requires f.Valid()
    ensures Subsequence(f.received, f.offered)
  {
    hide Subsequence;
    SubsequencePrefix(f.received, f.items, f.offered);
  }

  // ---------------------------------------------------------------- the allowed range

  /** A command that command_move can put on the queue when the range is min..max. */
  ghost predicate Issued(c: Command, min: int, max: int) {
    exists move :: c == Order(c.kind, move, c.speed, c.accel, c.time, min, max)
  }

  /** The clamp of command_move puts every absolute target in range, for exactly the ranges that have one. */
  lemma ClampInRange(kind: int, min: int, max: int)
    requires kind >= 1
    ensures (forall move :: min <= Clamped(kind, move, min, max) <= max) <==> min <= max
  {
    if min > max {
      assert !(min <= Clamped(kind, min, min, max) <= max);
    }
  }

  /** c is the move asked for, or the end of the range it is beyond. */
  predicate WithinRange(c: int, move: int, min: int, max: int) {
    && (min < move < max ==> c == move)
    && (move <= min ==> c == min)
    && (min < move && move >= max ==> c == max)
  }

  /** The clamp takes an absolute move to the place in the range nearest to it, no place x of the range being nearer; a relative move is kept. */
  lemma ClampNearest(kind: int, move: int, min: int, max: int, x: int)
    ensures kind >= 1 ==> WithinRange(Clamped(kind, move, min, max), move, min, max)
    ensures kind >= 1 && min <= x <= max ==> Apart(Clamped(kind, move, min, max), move) <= Apart(x, move)
    ensures kind <= 0 ==> Clamped(kind, move, min, max) == move
  {}

  function Apart(a: int, b: int): nat {
    if a < b then b - a else a - b
  }

  /**
    Range safety: with a fixed range, whatever is offered through command_move and however the queue
    drops it, after every executed absolute command the recorded position is in the range.
   */
  lemma RangeSafety(events: seq<Event>, position: int, min: int, max: int, i: nat)
    requires min <= max
    requires forall e | e in events && e.Offer? :: Issued(e.c, min, max)
    requires var f := Happen(Fifo([], [], [], []), events); i < |f.received| && Absolute(f.received[i])
    ensures var f := Happen(Fifo([], [], [], []), events); min <= FinalPosition(f.received[..i + 1], position) <= max
  {
    var f := Happen(Fifo([], [], [], []), events);
    FifoOrder(Fifo([], [], [], []), events);
    OfferedIssued(events, min, max);
    SubsequenceMembers(f.received, f.offered);
    var last := SeriesSplit(f.received[..i], [f.received[i]], position, 0);
    assert f.received[..i + 1] == f.received[..i] + [f.received[i]];
    assert f.received[i] in f.offered;
  }

  lemma {:induction false} OfferedIssued(events: seq<Event>, min: int, max: int)
    requires forall e | e in events && e.Offer? :: Issued(e.c, min, max)
    ensures forall c | c in Happen(Fifo([], [], [], []), events).offered :: Issued(c, min, max)
  {
    hide Issued;
    if events != [] {
      var front := events[..|events| - 1];
      assert forall e | e in front :: e in events;
      OfferedIssued(front, min, max);
      assert events[|events| - 1] in events;
    }
  }

  // ---------------------------------------------------------------- the sine generator

  datatype Sine = Sine(move: int, speed: int, accel: int, min: int, max: int, loops: int, offset: int)
  {
    function To(target: int): Command {
      Order(1, target, speed, accel, 0, min, max)
    }

    function Top(): Command {
      To(move + offset)
    }

    function Bottom(): Command {
      To(move - offset)
    }

    /** The first k swings: up, down, up, ... */
    function Swings(k: nat): (cs: seq<Command>)
      ensures |cs| == k
      ensures forall i | 0 <= i < k :: cs[i] == if i % 2 == 0 then Top() else Bottom()
    {
      if k == 0 then [] else Swings(k - 1) + [if (k - 1) % 2 == 0 then Top() else Bottom()]
    }

    /** All that sine_task sends for one sine: the swings, and back to the centre. */
    function Commands(): seq<Command> {
      Swings(if loops < 0 then 0 else loops) + [To(move)]
    }
  }

  /** Commands that swing by the offset about the centre, up first, once for each loop and as far as the range goes, and end there. */
  predicate SwingsAbout(cs: seq<Command>, s: Sine) {
    && |cs| == 1 + (if s.loops < 0 then 0 else s.loops)
    && (forall i | 0 <= i < |cs| :: cs[i] == Command(1, cs[i].move, s.speed, s.accel, 0, s.min, s.max))
    && (forall i | 0 <= i < |cs| - 1 && i % 2 == 0 :: WithinRange(cs[i].move, s.move + s.offset, s.min, s.max))
    && (forall i | 0 <= i < |cs| - 1 && i % 2 == 1 :: WithinRange(cs[i].move, s.move - s.offset, s.min, s.max))
    && WithinRange(cs[|cs| - 1].move, s.move, s.min, s.max)
  }

  /** That is what a sine sends. */
  lemma SineCommands(s: Sine)
    ensures SwingsAbout(s.Commands(), s)
  {}

  predicate Swing(c: Command, s: Sine) {
    c == s.Top() || c == s.Bottom()
  }

  /** Between the two turning points truncation cancels: any series of swings costs exactly the steps from its start to its end. */
  lemma {:induction false} SwingsCancel(cs: seq<Command>, s: Sine, position: int, previous: int)
    requires forall i | 0 <= i < |cs| :: Swing(cs[i], s)
    requires position == s.Top().move || position == s.Bottom().move
    ensures TotalSteps(cs, position, previous) == ToSteps(FinalPosition(cs, position) - position)
    ensures FinalPosition(cs, position) == s.Top().move || FinalPosition(cs, position) == s.Bottom().move
  {
    ToStepsError(0);
    ToStepsError(s.Top().move - s.Bottom().move);
    if cs != [] {
      assert Swing(cs[0], s);
      SwingsCancel(cs[1..], s, cs[0].move, StepsFor(cs[0], position, previous));
    }
  }

  /** The whole of a sine, or what a full queue has left of it: some swings, and perhaps the centre. */
  lemma SineParts(cs: seq<Command>, s: Sine) returns (swings: seq<Command>, centre: seq<Command>)
    requires Subsequence(cs, s.Commands())
    ensures cs == swings + centre && (centre == [] || centre == [s.To(s.move)])
    ensures forall i | 0 <= i < |swings| :: Swing(swings[i], s)
  {
    var all := s.Commands();
    var k := |all| - 1;
    assert all[..k] == s.Swings(k);
    if cs != [] && cs[|cs| - 1] == all[k] && Subsequence(cs[..|cs| - 1], all[..k]) {
      swings, centre := cs[..|cs| - 1], [cs[|cs| - 1]];
    } else {
      swings, centre := cs, [];
    }
    SubsequenceMembers(swings, all[..k]);
    forall i | 0 <= i < |swings| ensures Swing(swings[i], s) {
      assert swings[i] in s.Swings(k);
    }
  }

  /**
    A sine does not wander: executed on its own, whatever its number of loops and whichever of its
    commands a full queue has dropped, its steps differ from 22.6 times the change of position by at
    most twelve fifths of a step, less than three steps.
   */
  lemma SineDrift(cs: seq<Command>, s: Sine, position: int, previous: int)
    requires Subsequence(cs, s.Commands())
    ensures -12 <= 5 * TotalSteps(cs, position, previous) - 113 * (FinalPosition(cs, position) - position) <= 12
  {
    var swings, centre := SineParts(cs, s);
    SwingsError(swings, s, position, previous);
    hide *;
    var last := SeriesSplit(swings, centre, position, previous);
    CentreError(centre, s, FinalPosition(swings, position), last);
  }

  lemma SwingsError(swings: seq<Command>, s: Sine, position: int, previous: int)
    requires forall i | 0 <= i < |swings| :: Swing(swings[i], s)
    ensures -8 <= 5 * TotalSteps(swings, position, previous) - 113 * (FinalPosition(swings, position) - position) <= 8
  {
    if swings != [] {
      var first := swings[0].move;
      assert Swing(swings[0], s);
      SwingsCancel(swings[1..], s, first, StepsFor(swings[0], position, previous));
      ToStepsError(first - position);
      ToStepsError(FinalPosition(swings, position) - first);
    }
  }

  lemma CentreError(centre: seq<Command>, s: Sine, position: int, previous: int)
    requires centre == [] || centre == [s.To(s.move)]
    ensures -4 <= 5 * TotalSteps(centre, position, previous) - 113 * (FinalPosition(centre, position) - position) <= 4
  {
    if centre != [] {
      ToStepsError(centre[0].move - position);
      assert centre[1..] == [];
    }
  }

  /** A sine whose centre command is executed last ends at its centre or, if that is out of range, at the nearer end of the range. */
  lemma SineEndsAtCentre(cs: seq<Command>, s: Sine, position: int)
    requires Subsequence(cs, s.Commands()) && cs != [] && cs[|cs| - 1] == s.To(s.move)
    ensures s.min <= s.move <= s.max ==> FinalPosition(cs, position) == s.move
    ensures WithinRange(FinalPosition(cs, position), s.move, s.min, s.max)
  {
    var front, last := cs[..|cs| - 1], [cs[|cs| - 1]];
    assert cs == front + last;
    var _ := SeriesSplit(front, last, position, 0);
  }
}
