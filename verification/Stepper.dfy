/**
  The plain Stepper library (Stepper.cpp): a modular step counter that drives the coils of a motor
  with two, four or five wires.
 */
module Steppers {
  import opened Integers
  import opened AccelSteppers

  // ---------------------------------------------------------------- arithmetic modulo the steps of a turn

  /** One step back, modulo n. */
  lemma StepBack(x: int, n: int)
    requires n >= 1
    ensures (x - 1) % n == if x % n == 0 then n - 1 else x % n - 1
  {
    var q, r := x / n, x % n;
    assert x == q * n + r;
    if r == 0 {
      assert (q - 1) * n == q * n - n;
      RemainderUnique(x - 1, q - 1, n - 1, n);
    } else {
      RemainderUnique(x - 1, q, r - 1, n);
    }
  }

  /** One step forward, modulo n. */
  lemma StepForward(x: int, n: int)
    requires n >= 1
    ensures (x + 1) % n == if x % n == n - 1 then 0 else x % n + 1
  {
    StepBack(x + 1, n);
  }

  lemma Reduced(x: int, y: int, n: int)
    requires n >= 1
    ensures (x % n + y) % n == (x + y) % n
  {
    var q, s := x / n, x + y;
    var p, r := s / n, s % n;
    assert x == q * n + x % n && s == p * n + r;
    assert (p - q) * n == p * n - q * n;
    RemainderUnique(x % n + y, p - q, r, n);
  }

  // ---------------------------------------------------------------- positions and phases

  /** How many phases the coil pattern has. */
  function Phases(pinCount: int): int {
    if pinCount == 5 then 10 else 4
  }

  /** The step number reached from s by i steps of a move of k. */
  function Reached(s: int, k: int, i: nat, n: int): int
    requires n >= 1
  {
    if k > 0 then (s - i) % n else (s + i) % n
  }

  /** The phases a move of k steps emits. */
  function Emitted(s: int, k: int, i: nat, n: int, phases: int): seq<int>
    requires n >= 1 && phases >= 1
  {
    if i == 0 then [] else Emitted(s, k, i - 1, n, phases) + [Reached(s, k, i, n) % phases]
  }

  lemma ReachedMore(s: int, k: int, i: nat, n: int)
    requires n >= 1
    ensures Reached(s, k, i + 1, n) == if k > 0 then (Reached(s, k, i, n) - 1) % n else (Reached(s, k, i, n) + 1) % n
  {
    if k > 0 { Reduced(s - i, -1, n); } else { Reduced(s + i, 1, n); }
  }

  lemma EmittedMore(s: int, k: int, i: nat, n: int, phases: int)
    requires n >= 1 && phases >= 1
    ensures Emitted(s, k, i + 1, n, phases) == Emitted(s, k, i, n, phases) + [Reached(s, k, i + 1, n) % phases]
  {}

  /** Where the whole move ends. */
  lemma ReachedStart(s: int, k: int, n: int, phases: int)
    requires 0 <= s < n && phases >= 1
    ensures Reached(s, k, 0, n) == s && Emitted(s, k, 0, n, phases) == []
    ensures Reached(s, k, StepCount(k), n) == (s - k) % n
  {
    RemainderUnique(s, 0, s, n);
  }

  /** step(-k) undoes step(k), and on the way back passes through the same step numbers. */
  lemma MoveUndone(s: int, k: int, i: nat, n: int)
    requires n >= 1 && 0 <= s < n && i <= StepCount(k)
    ensures Reached(Reached(s, k, StepCount(k), n), -k, i, n) == Reached(s, k, StepCount(k) - i, n)
    ensures Reached(Reached(s, k, StepCount(k), n), -k, StepCount(k), n) == s
  {
    var c := StepCount(k);
    if k > 0 {
      Reduced(s - c, i, n);
      Reduced(s - c, c, n);
    } else {
      Reduced(s + c, 0 - i as int, n);
      Reduced(s + c, 0 - c as int, n);
    }
    RemainderUnique(s, 0, s, n);
  }

  function StepCount(k: int): nat {
    if k < 0 then -k else k
  }

  /** Every step to a neighbouring step number goes to the neighbouring phase. */
  ghost predicate NeverJumps(n: int, phases: int)
    requires n >= 1 && phases >= 1
  {
    forall s | 0 <= s < n :: ((s - 1) % n) % phases == (s % phases - 1) % phases
  }

  /** The phase never jumps, not even where the step number wraps, exactly if the steps of a turn are a multiple of the phases. */
  lemma PhaseLaw(n: int, phases: int)
    requires n >= 1 && phases >= 2
    ensures NeverJumps(n, phases) <==> n % phases == 0
  {
    StepBack(0, n);
    RemainderUnique(0, 0, 0, n);
    RemainderUnique(0, 0, 0, phases);
    StepBack(0, phases);
    StepBack(n, phases);
    if NeverJumps(n, phases) {
      assert ((0 - 1) % n) % phases == (0 % phases - 1) % phases;
    }
    if n % phases == 0 {
      forall s | 0 <= s < n ensures ((s - 1) % n) % phases == (s % phases - 1) % phases {
        RemainderUnique(s, 0, s, n);
        StepBack(s, n);
        Reduced(s, -1, phases);
      }
    }
  }

  /** With a multiple, the phase follows the same law as the step number over a whole move. */
  lemma PhaseFollows(s: int, k: int, i: nat, n: int, phases: int)
    requires n >= 1 && phases >= 1 && n % phases == 0
    ensures Reached(s, k, i, n) % phases == Reached(s, k, i, phases)
  {
    ModuloMultiple(if k > 0 then s - i else s + i, n, phases);
  }

  lemma ModuloMultiple(x: int, n: int, phases: int)
    requires n >= 1 && phases >= 1 && n % phases == 0
    ensures (x % n) % phases == x % phases
  {
    var q, m := x / n, n / phases;
    assert x == q * n + x % n && n == m * phases;
    assert q * (m * phases) == (q * m) * phases;
    var p, r := (x % n) / phases, (x % n) % phases;
    assert x % n == p * phases + r;
    assert (q * m + p) * phases == (q * m) * phases + p * phases;
    RemainderUnique(x, q * m + p, r, phases);
  }

  // ---------------------------------------------------------------- the coil patterns

  /** Levels of the wires, first to last, for a phase. */
  function Pattern(pinCount: int, phase: int): seq<bool> {
    if pinCount == 2 then
      match phase
      case 0 => [false, true]
      case 1 => [true, true]
      case 2 => [true, false]
      case 3 => [false, false]
      case _ => []
    else if pinCount == 4 then
      match phase
      case 0 => [true, false, true, false]
      case 1 => [false, true, true, false]
      case 2 => [false, true, false, true]
      case 3 => [true, false, false, true]
      case _ => []
    else if pinCount == 5 then
      match phase
      case 0 => [false, true, true, false, true]
      case 1 => [false, true, false, false, true]
      case 2 => [false, true, false, true, true]
      case 3 => [false, true, false, true, false]
      case 4 => [true, true, false, true, false]
      case 5 => [true, false, false, true, false]
      case 6 => [true, false, true, true, false]
      case 7 => [true, false, true, false, false]
      case 8 => [true, false, true, false, true]
      case 9 => [false, false, true, false, true]
      case _ => []
    else []
  }

  /** How many wires change between two patterns. */
  function Changes(a: seq<bool>, b: seq<bool>): nat
    requires |a| == |b|
  {
    if a == [] then 0 else (if a[0] != b[0] then 1 else 0) + Changes(a[1..], b[1..])
  }

  /** Between neighbouring phases one wire changes, or with four wires one goes low and one goes high. */
  lemma NeighbourPatterns(pinCount: int, phase: int)
    requires pinCount in {2, 4, 5} && 0 <= phase < Phases(pinCount)
    ensures |Pattern(pinCount, phase)| == pinCount == |Pattern(pinCount, (phase + 1) % Phases(pinCount))|
    ensures Changes(Pattern(pinCount, phase), Pattern(pinCount, (phase + 1) % Phases(pinCount))) == if pinCount == 4 then 2 else 1
  {
    if pinCount == 5 {
      FiveWires(phase);
    } else {
      FewWires(pinCount, phase);
    }
  }

  lemma FiveWires(phase: int)
    requires 0 <= phase < 10
    ensures |Pattern(5, phase)| == 5 == |Pattern(5, (phase + 1) % 10)|
    ensures Changes(Pattern(5, phase), Pattern(5, (phase + 1) % 10)) == 1
  {
    ChangesOpen(Pattern(5, phase), Pattern(5, (phase + 1) % 10));
    hide Changes;
  }

  lemma FewWires(pinCount: int, phase: int)
    requires pinCount in {2, 4} && 0 <= phase < 4
    ensures |Pattern(pinCount, phase)| == pinCount == |Pattern(pinCount, (phase + 1) % 4)|
    ensures Changes(Pattern(pinCount, phase), Pattern(pinCount, (phase + 1) % 4)) == pinCount / 2
  {
    ChangesOpen(Pattern(pinCount, phase), Pattern(pinCount, (phase + 1) % 4));
    hide Changes;
  }

  lemma ChangesOpen(a: seq<bool>, b: seq<bool>)
    requires |a| == |b| <= 5
    ensures Changes(a, b) ==
      (if |a| > 0 && a[0] != b[0] then 1 else 0) + (if |a| > 1 && a[1] != b[1] then 1 else 0)
      + (if |a| > 2 && a[2] != b[2] then 1 else 0) + (if |a| > 3 && a[3] != b[3] then 1 else 0)
      + (if |a| > 4 && a[4] != b[4] then 1 else 0)
  {
    if a != [] {
      ChangesOpen(a[1..], b[1..]);
    }
  }

  // ---------------------------------------------------------------- the class

  class Stepper {
    var stepNumber: int
    var direction: int
    var lastStepTime: Micros
    var stepDelay: nat
    const numberOfSteps: int
    const pinCount: int
    /** The phases sent to the coils so far. */
    var phases: seq<int>

    ghost predicate Valid()
      reads this
    {
      numberOfSteps >= 1 && 0 <= stepNumber < numberOfSteps
    }

    constructor (numberOfSteps: int, pinCount: int)
      requires numberOfSteps >= 1
      ensures Valid() && stepNumber == 0 && phases == [] && this.numberOfSteps == numberOfSteps && this.pinCount == pinCount
    {
      this.numberOfSteps, this.pinCount := numberOfSteps, pinCount;
      stepNumber, direction, lastStepTime, stepDelay, phases := 0, 0, 0, 0, [];
    }

    method StepMotor(thisStep: int)
      modifies this`phases
      ensures phases == old(phases) + [thisStep]
    {
      phases := phases + [thisStep];
    }

    /** The step taken when one is due. */
    method Advance()
      requires Valid()
      modifies this`stepNumber
      ensures Valid()
      ensures stepNumber == if direction == 1 then (old(stepNumber) + 1) % numberOfSteps else (old(stepNumber) - 1) % numberOfSteps
    {
      StepBack(stepNumber, numberOfSteps);
      StepForward(stepNumber, numberOfSteps);
      RemainderUnique(stepNumber, 0, stepNumber, numberOfSteps);
      if direction == 1 {
        stepNumber := stepNumber + 1;
        if stepNumber == numberOfSteps {
          stepNumber := 0;
        }
      } else {
        if stepNumber == 0 {
          stepNumber := numberOfSteps;
        }
        stepNumber := stepNumber - 1;
      }
    }

    /**
      Moves stepsToMove steps, the other way round if negative: a positive move counts the step number
      down.  clock gives the successive readings of micros(), the first of them number start.
     */
    method Step(stepsToMove: int, clock: nat -> Micros, start: nat) returns (readings: nat)
      requires Valid() && Live(clock, stepDelay)
      modifies this`stepNumber, this`direction, this`lastStepTime, this`phases
      ensures Valid() && stepNumber == (old(stepNumber) - stepsToMove) % numberOfSteps
      ensures stepNumber == Reached(old(stepNumber), stepsToMove, StepCount(stepsToMove), numberOfSteps)
      ensures phases == old(phases) + Emitted(old(stepNumber), stepsToMove, StepCount(stepsToMove), numberOfSteps, Phases(pinCount))
    {
      hide Reached, Emitted, Live;
      ghost var s := stepNumber;
      var stepsLeft := StepCount(stepsToMove);
      if stepsToMove > 0 {
        direction := 0;
      }
      if stepsToMove < 0 {
        direction := 1;
      }
      readings := start;
      ghost var done: nat := 0;
      ghost var due: nat := NextDue(clock, start, lastStepTime, stepDelay);
      ReachedStart(s, stepsToMove, numberOfSteps, Phases(pinCount));
      while stepsLeft > 0
        invariant Valid() && done + stepsLeft == StepCount(stepsToMove)
        invariant stepsLeft > 0 ==> direction == if stepsToMove < 0 then 1 else 0
        invariant stepNumber == Reached(s, stepsToMove, done, numberOfSteps)
        invariant phases == old(phases) + Emitted(s, stepsToMove, done, numberOfSteps, Phases(pinCount))
        invariant readings <= due && Elapsed(clock(due), lastStepTime) >= stepDelay
        decreases stepsLeft, due - readings
      {
        var now := clock(readings);
        if Elapsed(now, lastStepTime) >= stepDelay {
          lastStepTime := now;
          ReachedMore(s, stepsToMove, done, numberOfSteps);
          EmittedMore(s, stepsToMove, done, numberOfSteps, Phases(pinCount));
          Advance();
          stepsLeft := stepsLeft - 1;
          done := done + 1;
          if pinCount == 5 {
            StepMotor(stepNumber % 10);
          } else {
            StepMotor(stepNumber % 4);
          }
          due := NextDue(clock, readings + 1, lastStepTime, stepDelay);
        }
        readings := readings + 1;
      }
    }
  }
}
