/**
  The DRIVER interface: a step is a pulse on the step pin with the direction on the direction pin.
  This module says what a step writes to the port, and how a stepper driver reads the port:
  every logical rising edge of the step pin is one step, in the direction the direction pin
  has at that moment.
 */
module Pulses {
  import opened Motion

  datatype Write = Write(pin: nat, high: bool)

  /** The two pins of the DRIVER interface and whether each is inverted. */
  datatype Wiring = Wiring(stepPin: nat, dirPin: nat, stepInverted: bool, dirInverted: bool) {
    predicate Valid() {
      stepPin != dirPin
    }
  }

  function BitSet(mask: bv8, i: nat): bool
    requires i < 2
  {
    mask & (1 << i) != 0
  }

  /** What setOutputPins writes for bit i of the mask. */
  function PinWrite(w: Wiring, mask: bv8, i: nat): Write
    requires i < 2
  {
    if i == 0 then Write(w.stepPin, BitSet(mask, 0) != w.stepInverted)
    else Write(w.dirPin, BitSet(mask, 1) != w.dirInverted)
  }

  function OutputPins(w: Wiring, mask: bv8): seq<Write> {
    [PinWrite(w, mask, 0), PinWrite(w, mask, 1)]
  }

  /** What step1 writes for one step. */
  function StepPulse(w: Wiring, d: Direction): seq<Write> {
    OutputPins(w, if d == CW then 2 else 0) + OutputPins(w, if d == CW then 3 else 1) + OutputPins(w, if d == CW then 2 else 0)
  }

  /** Everything written for a series of steps. */
  function Train(w: Wiring, steps: seq<Direction>): seq<Write> {
    if steps == [] then [] else Train(w, steps[..|steps| - 1]) + StepPulse(w, steps[|steps| - 1])
  }

  // ---------------------------------------------------------------- the driver's side

  /** Logical levels of the two pins. */
  datatype Levels = Levels(step: bool, dir: bool)

  function Observe(w: Wiring, l: Levels, x: Write): Levels {
    if x.pin == w.stepPin then l.(step := x.high != w.stepInverted)
    else if x.pin == w.dirPin then l.(dir := x.high != w.dirInverted)
    else l
  }

  function LevelsAfter(w: Wiring, l: Levels, log: seq<Write>): Levels {
    if log == [] then l else Observe(w, LevelsAfter(w, l, log[..|log| - 1]), log[|log| - 1])
  }

  /** Rising edges of the step pin seen while the direction pin says d. */
  function Edges(w: Wiring, l: Levels, log: seq<Write>, d: Direction): nat {
    if log == [] then 0
    else
      var before := LevelsAfter(w, l, log[..|log| - 1]);
      var after := Observe(w, before, log[|log| - 1]);
      Edges(w, l, log[..|log| - 1], d) + if !before.step && after.step && after.dir == (d == CW) then 1 else 0
  }

  /** Steps in direction d. */
  function Count(steps: seq<Direction>, d: Direction): nat {
    if steps == [] then 0 else Count(steps[..|steps| - 1], d) + if steps[|steps| - 1] == d then 1 else 0
  }

  /** The change of position a series of steps makes. */
  function Net(steps: seq<Direction>): int {
    if steps == [] then 0 else Net(steps[..|steps| - 1]) + Sign(steps[|steps| - 1])
  }

  lemma {:induction false} NetCounts(steps: seq<Direction>)
    ensures Net(steps) == Count(steps, CW) - Count(steps, CCW)
    ensures |steps| == Count(steps, CW) + Count(steps, CCW)
  {
    if steps != [] {
      NetCounts(steps[..|steps| - 1]);
    }
  }

  /** The driver's reading of one more write. */
  lemma ObserveOne(w: Wiring, l: Levels, log: seq<Write>, x: Write, d: Direction)
    ensures LevelsAfter(w, l, log + [x]) == Observe(w, LevelsAfter(w, l, log), x)
    ensures Edges(w, l, log + [x], d) == Edges(w, l, log, d) +
      var before := LevelsAfter(w, l, log);
      var after := Observe(w, before, x);
      if !before.step && after.step && after.dir == (d == CW) then 1 else 0
  {
    assert (log + [x])[..|log|] == log;
  }

  /** One call of setOutputPins as the driver sees it: the step pin first, then the direction pin. */
  lemma ObserveOutput(w: Wiring, l: Levels, log: seq<Write>, mask: bv8, d: Direction)
    requires w.Valid()
    ensures var before := LevelsAfter(w, l, log);
      && LevelsAfter(w, l, log + OutputPins(w, mask)) == Levels(BitSet(mask, 0), BitSet(mask, 1))
      && Edges(w, l, log + OutputPins(w, mask), d) == Edges(w, l, log, d) +
         if !before.step && BitSet(mask, 0) && before.dir == (d == CW) then 1 else 0
  {
    var x, y := PinWrite(w, mask, 0), PinWrite(w, mask, 1);
    ObserveOne(w, l, log, x, d);
    ObserveOne(w, l, log + [x], y, d);
    assert log + OutputPins(w, mask) == log + [x] + [y];
  }

  lemma Bits()
    ensures !BitSet(0, 0) && !BitSet(0, 1) && BitSet(1, 0) && !BitSet(1, 1)
    ensures !BitSet(2, 0) && BitSet(2, 1) && BitSet(3, 0) && BitSet(3, 1)
  {}

  /** Whatever the levels before it, a step is exactly one rising edge, with the direction already set. */
  lemma OnePulse(w: Wiring, l: Levels, log: seq<Write>, step: Direction, d: Direction)
    requires w.Valid()
    ensures Edges(w, l, log + StepPulse(w, step), d) == Edges(w, l, log, d) + if d == step then 1 else 0
  {
    Bits();
    hide BitSet, OutputPins, Edges, LevelsAfter;
    var a, b := OutputPins(w, if step == CW then 2 else 0), OutputPins(w, if step == CW then 3 else 1);
    ObserveOutput(w, l, log, if step == CW then 2 else 0, d);
    ObserveOutput(w, l, log + a, if step == CW then 3 else 1, d);
    ObserveOutput(w, l, log + a + b, if step == CW then 2 else 0, d);
    assert log + StepPulse(w, step) == log + a + b + a;
  }

  /**
    The pulse ledger: the driver counts exactly the steps of the train, each in its direction, so the
    position changes by clockwise minus anticlockwise pulses.
   */
  lemma {:induction false} TrainPulses(w: Wiring, l: Levels, log: seq<Write>, steps: seq<Direction>)
    requires w.Valid()
    ensures forall d :: Edges(w, l, log + Train(w, steps), d) == Edges(w, l, log, d) + Count(steps, d)
    ensures Net(steps) ==
      (Edges(w, l, log + Train(w, steps), CW) - Edges(w, l, log, CW))
      - (Edges(w, l, log + Train(w, steps), CCW) - Edges(w, l, log, CCW))
  {
    NetCounts(steps);
    if steps == [] {
      assert log + [] == log;
    } else {
      TrainPulses(w, l, log, steps[..|steps| - 1]);
      forall d ensures Edges(w, l, log + Train(w, steps), d) == Edges(w, l, log, d) + Count(steps, d) {
        LastPulse(w, l, log, steps, d);
      }
    }
  }

  lemma LastPulse(w: Wiring, l: Levels, log: seq<Write>, steps: seq<Direction>, d: Direction)
    requires w.Valid() && steps != []
    requires Edges(w, l, log + Train(w, steps[..|steps| - 1]), d) == Edges(w, l, log, d) + Count(steps[..|steps| - 1], d)
    ensures Edges(w, l, log + Train(w, steps), d) == Edges(w, l, log, d) + Count(steps, d)
  {
    CountLast(steps, d);
    TrainLast(w, log, steps);
    hide *;
    OnePulse(w, l, log + Train(w, steps[..|steps| - 1]), steps[|steps| - 1], d);
  }

  lemma TrainLast(w: Wiring, log: seq<Write>, steps: seq<Direction>)
    requires steps != []
    ensures log + Train(w, steps) == log + Train(w, steps[..|steps| - 1]) + StepPulse(w, steps[|steps| - 1])
  {
    hide StepPulse;
  }

  lemma CountLast(steps: seq<Direction>, d: Direction)
    requires steps != []
    ensures Count(steps, d) == Count(steps[..|steps| - 1], d) + if d == steps[|steps| - 1] then 1 else 0
  {}

  lemma TrainOfNothing(w: Wiring)
    ensures Train(w, []) == [] && Net([]) == 0
  {}

  lemma TrainGrows(w: Wiring, steps: seq<Direction>, d: Direction)
    ensures Train(w, steps + [d]) == Train(w, steps) + StepPulse(w, d)
    ensures Net(steps + [d]) == Net(steps) + Sign(d)
  {
    assert (steps + [d])[..|steps|] == steps;
  }
}
