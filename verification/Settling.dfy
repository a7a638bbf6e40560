/**
  Running to the target from any state accelerated motion can be in, not only on a move from
  rest: after retargeting, stopping or changing the maximum speed in mid-move the motor may overrun
  its target, but it always settles on it, and it turns around at most once on the way.
 */
module Settling {
  import opened Ramp
  import opened Motion
  import opened Profile
  import opened Reachable

  /** Moving, but not yet on an approach that ends exactly on the target. */
  ghost predicate Astray(m: Motor) {
    Safe(m) && m.speed != 0.0 && !Approaching(m)
  }

  /** Moving towards the target, past it with the counter still positive, and past it and braking. */
  function Stage(m: Motor): nat {
    if m.Ahead() >= 0 then 2 else if m.n > 0 then 1 else 0
  }

  function Countdown(m: Motor): nat {
    if m.Ahead() >= 0 then m.Ahead() else if m.n > 0 then 0 else -m.n
  }

  ghost predicate Closer(m: Motor, m': Motor) {
    Stage(m') < Stage(m) || (Stage(m') == Stage(m) && Countdown(m') < Countdown(m))
  }

  /** computeNewSpeed at count zero off the target starts an approach. */
  lemma RestartApproaches(m: Motor)
    requires m.Valid() && m.PlannedCount() == 0 && m.DistanceToGo() != 0
    ensures Accelerating(m.ComputeNewSpeed())
  {
    hide Energy, NextInterval, Trunc;
    StartingUpdate(m);
    ComputeInStride(m);
    ComputeKeepsParameters(m);
    RampStart();
  }

  /** A step of a motor astray ends at rest, begins an approach, or gets closer to one without turning. */
  lemma AstrayStep(m: Motor)
    requires Astray(m)
    ensures var m' := m.RunDue();
      || AtRest(m')
      || Approaching(m')
      || (Astray(m') && Closer(m, m') && m'.direction == m.direction)
  {
    hide Energy, NextInterval, Trunc, Accelerating, Braking;
    var s := m.Stepped();
    StepsAhead(m);
    ComputeSafe(s);
    StepsToStopIsFloor(s);
    ComputeKeepsParameters(s);
    ComputeInStride(s);
    if !s.Stops() {
      InStrideEnergy(s.ComputeNewSpeed());
      if s.PlannedCount() == 0 && s.DistanceToGo() != 0 {
        RestartApproaches(s);
      }
    }
  }

  /** A run of k steps: moving until its last step, at rest on the target after it, and turning at most once, at step t. */
  ghost predicate SettlesIn(m: Motor, t: nat, k: nat)
    requires m.Valid()
  {
    && (forall i: nat | i < k :: After(m, i).speed != 0.0)
    && AtRest(After(m, k))
    && (forall i: nat | i < t && i < k :: After(m, i).direction == m.direction)
    && (forall i: nat | t <= i < k :: After(m, i).direction == After(m, t).direction)
  }

  lemma ApproachRun(m: Motor)
    requires Approaching(m)
    ensures m.Valid() && m.Ahead() >= 1 && SettlesIn(m, 0, m.Ahead())
  {
    ApproachLands(m);
    forall i: nat | i < m.Ahead() ensures After(m, i).direction == m.direction {
      ApproachRuns(m, i);
    }
  }

  /** A run, one step earlier. */
  lemma RunLater(m: Motor, t: nat, k: nat)
    requires m.Valid() && m.speed != 0.0 && SettlesIn(m.RunDue(), t, k)
    ensures t == 0 ==> SettlesIn(m, 1, k + 1)
    ensures m.RunDue().direction == m.direction ==> SettlesIn(m, t + 1, k + 1)
  {
    hide AtRest, Motor.RunDue;
    forall i: nat ensures After(m, i + 1) == After(m.RunDue(), i) {
      AfterFirst(m, i);
    }
    forall i: nat | 0 < i < k + 1 ensures After(m, i).speed != 0.0 {
      assert After(m, (i - 1) + 1) == After(m.RunDue(), i - 1);
    }
    forall i: nat | t + 1 <= i < k + 1 ensures After(m, i).direction == After(m, t + 1).direction {
      assert After(m, (i - 1) + 1) == After(m.RunDue(), i - 1);
    }
    if m.RunDue().direction == m.direction {
      forall i: nat | 0 < i < t + 1 && i < k + 1 ensures After(m, i).direction == m.direction {
        assert After(m, (i - 1) + 1) == After(m.RunDue(), i - 1);
      }
    }
  }

  /** Running from any safe state comes to rest on the target, having turned around at most once. */
  lemma {:induction false} Settles(m: Motor) returns (t: nat, k: nat)
    requires Safe(m)
    ensures SettlesIn(m, t, k)
    ensures Approaching(m) ==> t == 0 && k == m.Ahead()
    decreases Stage(m), Countdown(m), 1
  {
    hide Energy, NextInterval, Trunc, Motor.RunDue, Motor.ComputeNewSpeed, Accelerating, Braking, InStride, SettlesIn;
    if Approaching(m) {
      ApproachRun(m);
      t, k := 0, m.Ahead();
    } else if m.speed == 0.0 {
      t, k := 0, 0;
      RestRun(m);
    } else {
      AstrayStep(m);
      var m' := m.RunDue();
      if AtRest(m') {
        RestRun(m');
        RunLater(m, 0, 0);
        t, k := 1, 1;
      } else if Approaching(m') {
        ApproachRun(m');
        RunLater(m, 0, m'.Ahead());
        t, k := 1, m'.Ahead() + 1;
      } else {
        t, k := Settles(m');
        RunLater(m, t, k);
        t, k := t + 1, k + 1;
      }
    }
  }

  lemma RestRun(m: Motor)
    requires m.Valid() && AtRest(m)
    ensures SettlesIn(m, 0, 0)
  {}

  /**
    Whatever operations of accelerated motion went before, runToPosition returns with the motor at
    rest on the target, and turns it around at most once.
   */
  lemma AlwaysSettles(m: Motor, ops: seq<Op>) returns (t: nat, k: nat)
    requires Safe(m) && forall i | 0 <= i < |ops| :: Allowed(ops[i]) && Gentle(ops[i])
    ensures SettlesIn(ApplyAll(m, ops), t, k)
    ensures After(ApplyAll(m, ops), k).currentPos == ApplyAll(m, ops).targetPos
  {
    NeverReversesAtSpeed(m, ops);
    hide Safe, Apply, ApplyAll, Allowed, Gentle, TurnsSafely;
    t, k := Settles(ApplyAll(m, ops));
  }

  /** The direction of each of the first k steps of a run. */
  ghost function Directions(m: Motor, k: nat): (s: seq<Direction>)
    requires m.Valid()
    ensures |s| == k
  {
    seq(k, i requires 0 <= i < k => After(m, i).direction)
  }

  lemma MoreDirections(m: Motor, k: nat)
    requires m.Valid()
    ensures Directions(m, k + 1) == Directions(m, k) + [After(m, k).direction]
  {
    hide After, Motor.Valid, Motor.RunDue;
  }

  /** No interval of the run from m is longer than limit. */
  ghost predicate Timed(m: Motor, limit: nat)
    requires m.Valid()
  {
    forall i: nat :: (forall j: nat | j <= i :: After(m, j).speed != 0.0) ==> After(m, i).stepInterval <= limit
  }

  lemma {:induction false} AfterCoherent(m: Motor, t: nat, k: nat, i: nat)
    requires Coherent(m) && SettlesIn(m, t, k) && i <= k
    ensures Coherent(After(m, i))
  {
    if i > 0 {
      AfterCoherent(m, t, k, i - 1);
      RunDueCoherent(After(m, i - 1));
    }
  }

  lemma RunDueCoherent(m: Motor)
    requires Coherent(m)
    ensures Coherent(m.RunDue())
  {
    ComputeCoherent(m.Stepped());
  }

  lemma SafeStart(m: Motor)
    requires Safe(m)
    ensures m.Valid() && After(m, 0) == m && Directions(m, 0) == []
  {}

  /** What the polling loop of runToPosition finds after i steps. */
  lemma RunFacts(m: Motor, t: nat, k: nat, i: nat, limit: nat)
    requires Coherent(m) && SettlesIn(m, t, k) && Timed(m, limit) && i <= k
    ensures i < k ==> After(m, i).speed != 0.0 && 0 < After(m, i).stepInterval <= limit
    ensures Coherent(After(m, i))
    ensures i == k ==> AtRest(After(m, i))
    ensures After(m, i + 1) == After(m, i).RunDue()
  {
    AfterCoherent(m, t, k, i);
    NextAfter(m, i);
  }

  /** An approach from below twice the slower of c0 and cmin never needs a longer interval than that. */
  lemma ApproachTimed(m: Motor, limit: nat)
    requires Approaching(m)
    requires 2.0 * Max(m.c0, m.cmin) <= limit as real
    ensures m.Valid() && Timed(m, limit)
  {
    ApproachingMoves(m);
    ApproachLands(m);
    assert After(m, m.Ahead()).speed == 0.0;
    hide Approaching, After;
    forall i: nat | forall j: nat | j <= i :: After(m, j).speed != 0.0
      ensures After(m, i).stepInterval <= limit
    {
      ApproachRuns(m, i);
      ApproachInterval(After(m, i), limit);
    }
  }

  /** Every run that settles has a longest interval, the run of a motor astray as well. */
  lemma SettlesTimed(m: Motor) returns (limit: nat)
    requires Safe(m)
    ensures m.Valid() && forall longer: nat | longer >= limit :: Timed(m, longer)
  {
    SafeStart(m);
    var t, k := Settles(m);
    hide *;
    RestAfter(m, t, k);
    limit := LongestInterval(m, k);
    forall longer: nat | longer >= limit ensures Timed(m, longer) {
      IntervalsWithin(m, k, longer);
    }
  }

  lemma RestAfter(m: Motor, t: nat, k: nat)
    requires m.Valid() && SettlesIn(m, t, k)
    ensures After(m, k).speed == 0.0
  {}

  lemma IntervalsWithin(m: Motor, k: nat, limit: nat)
    requires m.Valid() && After(m, k).speed == 0.0 && forall i: nat | i < k :: After(m, i).stepInterval <= limit
    ensures Timed(m, limit)
  {
    hide After;
  }

  lemma {:induction false} LongestInterval(m: Motor, k: nat) returns (limit: nat)
    requires m.Valid()
    ensures forall i: nat | i < k :: After(m, i).stepInterval <= limit
  {
    hide After;
    limit := 0;
    if k > 0 {
      limit := LongestInterval(m, k - 1);
      if After(m, k - 1).stepInterval > limit {
        limit := After(m, k - 1).stepInterval;
      }
    }
  }

  lemma ApproachInterval(m: Motor, limit: nat)
    requires Approaching(m) && 2.0 * Max(m.c0, m.cmin) <= limit as real
    ensures m.stepInterval <= limit
  {}

  lemma RetargetedState(m: Motor, position: int)
    requires Safe(m) && Coherent(m)
    ensures m.Valid() && Safe(m.MoveTo(position)) && Coherent(m.MoveTo(position))
  {
    ApplySafe(m, MoveTo(position));
    ApplyCoherent(m, MoveTo(position));
  }

  /** Where a run to a new target ends, and how long it is from rest. */
  lemma SettledOn(m: Motor, position: int, t: nat, k: nat)
    requires m.Valid() && SettlesIn(m.MoveTo(position), t, k)
    requires Approaching(m.MoveTo(position)) ==> k == m.MoveTo(position).Ahead()
    ensures After(m.MoveTo(position), k).currentPos == position
    ensures AtRest(m) ==> k == Distance(m.currentPos, position)
  {
    hide Energy, NextInterval, Trunc, StepRate, RampEnergy, Motor.ComputeNewSpeed, Braking;
    var start := m.MoveTo(position);
    assert start.targetPos == position by { ComputeKeepsParameters(m.(targetPos := position)); }
    assert After(start, k).targetPos == position;
    if AtRest(m) {
      if position != m.currentPos {
        StartMove(m, position);
      } else {
        assert After(start, 0).speed == 0.0;
      }
    }
  }
}
