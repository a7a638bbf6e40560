/**
  Exact arithmetic behind the speed profile.

  The stepper library decides everything from the kinetic quantity v^2/(2a), the number of
  steps the motor needs to stop (Equation 16 of David Austin's "Generate stepper-motor speed
  profiles in real time"), and moves along the ramp by rescaling the step interval
  (Equation 13).  This module relates the two: how one Equation 13 update moves v^2/(2a).
 */
module Ramp {

  /** Microseconds per second: the speed of a motor stepping every c microseconds is MICROS/c. */
  const MICROS: real := 1000000.0

  /** The C++ conversion of a float to an integer type: truncation towards zero. */
  function Trunc(x: real): (t: int) {
    if x >= 0.0 then x.Floor else -((-x).Floor)
  }

  function Abs(x: real): (y: real) {
    if x < 0.0 then -x else x
  }

  /** The number of steps, as a real, needed to stop from speed v at deceleration a. */
  function Energy(v: real, a: real): (e: real)
    requires a > 0.0
  {
    v * v / (2.0 * a)
  }

  /** Equation 13, which the library uses both to accelerate (n > 0) and to decelerate (n < 0). */
  function NextInterval(c: real, n: int): (c': real) {
    assert 4 * n + 1 != 0;
    c - (2.0 * c) / (4.0 * n as real + 1.0)
  }

  // ---------------------------------------------------------------- products and quotients

  lemma MulMono(a: real, b: real, c: real)
    requires a <= b && c >= 0.0
    ensures a * c <= b * c
  {}

  lemma MulCancel(a: real, b: real, c: real)
    requires c > 0.0 && a * c <= b * c
    ensures a <= b
  {}

  lemma MulCancelStrict(a: real, b: real, c: real)
    requires c > 0.0 && a * c < b * c
    ensures a < b
  {}

  lemma MulCancelSame(a: real, b: real, c: real)
    requires c != 0.0 && a * c == b * c
    ensures a == b
  {}

  lemma SquareMono(x: real, y: real)
    requires 0.0 <= x <= y
    ensures x * x <= y * y
  {
    MulMono(x, y, x);
    MulMono(x, y, y);
  }

  lemma SquarePositive(x: real)
    requires x > 0.0
    ensures x * x > 0.0
  {
    MulCancelStrict(0.0, x, x);
  }

  lemma EnergySign(v: real, a: real)
    requires a > 0.0
    ensures Energy(-v, a) == Energy(v, a) >= 0.0
    ensures v == 0.0 ==> Energy(v, a) == 0.0
  {
    assert (-v) * (-v) == v * v;
    assert v * v >= 0.0;
  }

  /** The energy of a motor stepping every c microseconds. */
  lemma EnergyOfInterval(c: real, a: real)
    requires a > 0.0 && c > 0.0
    ensures Energy(MICROS / c, a) * (2.0 * a) * (c * c) == MICROS * MICROS
  {
    var v := MICROS / c;
    assert v * c == MICROS;
    assert Energy(v, a) * (2.0 * a) == v * v;
    calc {
      (v * v) * (c * c);
      (v * c) * (v * c);
      MICROS * MICROS;
    }
  }

  /** Energy times interval squared does not depend on the interval. */
  lemma EnergyTradesInterval(c: real, c': real, a: real)
    requires a > 0.0 && c > 0.0 && c' > 0.0
    ensures Energy(MICROS / c, a) * (c * c) == Energy(MICROS / c', a) * (c' * c')
  {
    var e, e' := Energy(MICROS / c, a), Energy(MICROS / c', a);
    EnergyOfInterval(c, a);
    EnergyOfInterval(c', a);
    Reorder(e, 2.0 * a, c * c);
    Reorder(e', 2.0 * a, c' * c');
    TwiceCancel(e * (c * c), e' * (c' * c'), a, MICROS * MICROS);
  }

  lemma Reorder(x: real, y: real, z: real)
    ensures x * y * z == (x * z) * y
  {}

  lemma ScaledSquares(c: real, c': real, g: real, h: real) returns (x: real, y: real, gg: real, hh: real)
    requires c > 0.0 && c' > 0.0 && g > 0.0 && h > 0.0
    requires c' * h >= c * g
    ensures x == c * c && y == c' * c' && gg == g * g && hh == h * h
    ensures x > 0.0 && y > 0.0 && gg > 0.0 && hh > 0.0
    ensures x * gg <= y * hh
    ensures c' * h == c * g ==> x * gg == y * hh
  {
    x, y, gg, hh := c * c, c' * c', g * g, h * h;
    SquareMono(c * g, c' * h);
    assert (c * g) * (c * g) == x * gg;
    assert (c' * h) * (c' * h) == y * hh;
  }

  lemma Rescaled(e: real, e': real, c: real, c': real, g: real, h: real)
    requires e >= 0.0 && e' >= 0.0 && c > 0.0 && c' > 0.0 && g > 0.0 && h > 0.0
    requires e * (c * c) == e' * (c' * c')
    requires c' * h >= c * g
    ensures e' * (g * g) <= e * (h * h)
    ensures c' * h == c * g ==> e' * (g * g) == e * (h * h)
  {
    var x, y, gg, hh := ScaledSquares(c, c', g, h);
    CrossScale(e, e', x, y, gg, hh);
    if c' * h == c * g {
      CrossScale(e', e, y, x, hh, gg);
    }
  }

  /** Intervals in the ratio g:h or slower have energies in the ratio h^2:g^2 or smaller. */
  lemma EnergyRescaled(c: real, c': real, g: real, h: real, a: real)
    requires a > 0.0 && c > 0.0 && g > 0.0 && h > 0.0
    requires c' * h >= c * g
    ensures c' > 0.0
    ensures Energy(MICROS / c', a) * (g * g) <= Energy(MICROS / c, a) * (h * h)
    ensures c' * h == c * g ==> Energy(MICROS / c', a) * (g * g) == Energy(MICROS / c, a) * (h * h)
  {
    assert c * g > 0.0;
    assert c' > 0.0;
    EnergySign(MICROS / c, a);
    EnergySign(MICROS / c', a);
    EnergyTradesInterval(c, c', a);
    Rescaled(Energy(MICROS / c, a), Energy(MICROS / c', a), c, c', g, h);
  }

  lemma TwiceCancel(s: real, t: real, a: real, k: real)
    requires a > 0.0 && s * (2.0 * a) == k && t * (2.0 * a) == k
    ensures s == t
  {}

  lemma CrossScale(e: real, e': real, x: real, y: real, gg: real, hh: real)
    requires e >= 0.0 && e' >= 0.0
    requires x > 0.0
    requires y > 0.0
    requires gg > 0.0
    requires hh > 0.0
    requires e * x == e' * y
    requires x * gg <= y * hh
    ensures e' * gg <= e * hh
  {}

  // ---------------------------------------------------------------- one ramp update

  /** Equation 13 multiplies the interval by (4n-1)/(4n+1). */
  lemma NextIntervalRatio(c: real, n: int)
    ensures NextInterval(c, n) * (4.0 * n as real + 1.0) == c * (4.0 * n as real - 1.0)
  {
    assert 4 * n + 1 != 0;
    var m := 4.0 * n as real + 1.0;
    var x := (2.0 * c) / m;
    assert x * m == 2.0 * c;
    assert (c - x) * m == c * m - x * m;
  }

  /** Accelerating at n steps from rest multiplies the energy by ((4n+1)/(4n-1))^2, or less if the interval is clamped. */
  lemma EnergyAccelerating(c: real, c': real, n: int, a: real)
    requires a > 0.0 && c > 0.0 && n >= 1 && c' >= NextInterval(c, n)
    ensures c' > 0.0
    ensures var g, h := 4.0 * n as real - 1.0, 4.0 * n as real + 1.0;
      && Energy(MICROS / c', a) * (g * g) <= Energy(MICROS / c, a) * (h * h)
      && (c' == NextInterval(c, n) ==> Energy(MICROS / c', a) * (g * g) == Energy(MICROS / c, a) * (h * h))
  {
    var g, h := 4.0 * n as real - 1.0, 4.0 * n as real + 1.0;
    NextIntervalRatio(c, n);
    MulMono(NextInterval(c, n), c', h);
    EnergyRescaled(c, c', g, h, a);
  }

  /** Decelerating with k steps left multiplies the energy by ((4k-1)/(4k+1))^2, or less if the interval is clamped. */
  lemma EnergyDecelerating(c: real, c': real, k: int, a: real)
    requires a > 0.0 && c > 0.0 && k >= 1 && c' >= NextInterval(c, -k)
    ensures c' > 0.0
    ensures var g, h := 4.0 * k as real + 1.0, 4.0 * k as real - 1.0;
      && Energy(MICROS / c', a) * (g * g) <= Energy(MICROS / c, a) * (h * h)
      && (c' == NextInterval(c, -k) ==> Energy(MICROS / c', a) * (g * g) == Energy(MICROS / c, a) * (h * h))
  {
    var g, h := 4.0 * k as real + 1.0, 4.0 * k as real - 1.0;
    NextIntervalRatio(c, -k);
    assert NextInterval(c, -k) * h == c * g by {
      assert 4.0 * (-k) as real + 1.0 == -h;
      assert 4.0 * (-k) as real - 1.0 == -g;
    }
    MulMono(NextInterval(c, -k), c', h);
    EnergyRescaled(c, c', g, h, a);
  }

  /** The two polynomials of a decelerating update with k steps left. */
  lemma DecelerationPolynomials(r: real, gg: real, hh: real)
    requires r >= 1.0
    requires gg == (4.0 * r + 1.0) * (4.0 * r + 1.0) && hh == (4.0 * r - 1.0) * (4.0 * r - 1.0)
    ensures gg > 0.0 && hh > 0.0
    ensures (r + 1.0) * hh < r * gg
    ensures (r - 1.0) * gg <= r * hh
  {
    assert hh == 16.0 * (r * r) - 8.0 * r + 1.0;
    assert gg == 16.0 * (r * r) + 8.0 * r + 1.0;
    assert r * hh == 16.0 * (r * r * r) - 8.0 * (r * r) + r;
    assert r * gg == 16.0 * (r * r * r) + 8.0 * (r * r) + r;
  }

  /** A decelerating update takes the energy from below k+1 to below k. */
  lemma DecelerationUpper(k: int, e: real, e': real)
    requires k >= 1 && e < k as real + 1.0
    requires var r := k as real;
      e' * ((4.0 * r + 1.0) * (4.0 * r + 1.0)) <= e * ((4.0 * r - 1.0) * (4.0 * r - 1.0))
    ensures e' < k as real
  {
    var r := k as real;
    var gg, hh := (4.0 * r + 1.0) * (4.0 * r + 1.0), (4.0 * r - 1.0) * (4.0 * r - 1.0);
    DecelerationPolynomials(r, gg, hh);
    MulMono(e, r + 1.0, hh);
    MulCancelStrict(e', r, gg);
  }

  /** ... and, unclamped, from at least k to at least k-1. */
  lemma DecelerationLower(k: int, e: real, e': real)
    requires k >= 1 && k as real <= e
    requires var r := k as real;
      e' * ((4.0 * r + 1.0) * (4.0 * r + 1.0)) == e * ((4.0 * r - 1.0) * (4.0 * r - 1.0))
    ensures k as real - 1.0 <= e'
  {
    var r := k as real;
    var gg, hh := (4.0 * r + 1.0) * (4.0 * r + 1.0), (4.0 * r - 1.0) * (4.0 * r - 1.0);
    DecelerationPolynomials(r, gg, hh);
    assert e' * gg == e * hh;
    MulMono(r, e, hh);
    MulCancel(r - 1.0, e', gg);
  }

  // ---------------------------------------------------------------- the ramp from rest

  /**
    The energy after n steps of acceleration from rest: the first interval is shortened by the
    factor 0.676 (Equation 15), which makes the first energy 1/(4 * 0.676^2).
   */
  ghost function RampEnergy(n: int): (e: real)
    requires n >= 1
  {
    if n == 1 then 1.0 / (4.0 * 0.676 * 0.676) else Grown(RampEnergy(n - 1), (n - 1) as real)
  }

  /** The energy e after one accelerating update at count r. */
  ghost function Grown(e: real, r: real): real
    requires r >= 1.0
  {
    var gg := (4.0 * r - 1.0) * (4.0 * r - 1.0);
    SquarePositive(4.0 * r - 1.0);
    e * ((4.0 * r + 1.0) * (4.0 * r + 1.0)) / gg
  }

  lemma GrownTimes(e: real, r: real)
    requires r >= 1.0
    ensures Grown(e, r) * ((4.0 * r - 1.0) * (4.0 * r - 1.0)) == e * ((4.0 * r + 1.0) * (4.0 * r + 1.0))
  {
    var gg, hh := Squares(4.0 * r - 1.0, 4.0 * r + 1.0);
    QuotientTimes(e * hh, gg);
  }

  lemma QuotientTimes(x: real, d: real)
    requires d != 0.0
    ensures x / d * d == x
  {}

  /** One step of the ramp, without the division. */
  lemma RampEnergyStep(n: int)
    requires n >= 1
    ensures var r := n as real;
      RampEnergy(n + 1) * ((4.0 * r - 1.0) * (4.0 * r - 1.0)) == RampEnergy(n) * ((4.0 * r + 1.0) * (4.0 * r + 1.0))
  {
    hide Grown;
    assert RampEnergy(n + 1) == Grown(RampEnergy(n), n as real);
    GrownTimes(RampEnergy(n), n as real);
  }

  /** Closed bound carried along the ramp; 5/12 makes it hold for every n >= 3. */
  ghost function Crest(r: real): real
    requires r >= 1.0
  {
    r - 0.5 + 3.0 / (96.0 * r - 40.0)
  }

  lemma CrestStep(r: real)
    requires r >= 3.0
    ensures Crest(r) * ((4.0 * r + 1.0) * (4.0 * r + 1.0)) <= Crest(r + 1.0) * ((4.0 * r - 1.0) * (4.0 * r - 1.0))
  {
    var s, t := 96.0 * r - 40.0, 96.0 * r + 56.0;
    var p, q := 3.0 / s, 3.0 / t;
    assert s > 0.0 && t > 0.0 && p * s == 3.0 && q * t == 3.0;
    var gg, hh := (4.0 * r - 1.0) * (4.0 * r - 1.0), (4.0 * r + 1.0) * (4.0 * r + 1.0);
    assert gg == 16.0 * (r * r) - 8.0 * r + 1.0;
    assert hh == 16.0 * (r * r) + 8.0 * r + 1.0;
    assert (r + 0.5) * gg - (r - 0.5) * hh == 1.0;
    assert p * hh - q * gg <= 1.0 by { CrestSlack(r, p, q, s, t, gg, hh); }
    assert Crest(r + 1.0) == r + 0.5 + q;
  }

  lemma CrestSlack(r: real, p: real, q: real, s: real, t: real, gg: real, hh: real)
    requires r >= 3.0 && s == 96.0 * r - 40.0 && t == 96.0 * r + 56.0
    requires p * s == 3.0 && q * t == 3.0
    requires gg == 16.0 * (r * r) - 8.0 * r + 1.0 && hh == 16.0 * (r * r) + 8.0 * r + 1.0
    ensures p * hh - q * gg <= 1.0
  {
    var st := s * t;
    assert st > 0.0;
    assert (p * hh - q * gg) * st == 3.0 * (hh * t - gg * s) by {
      assert (p * hh) * st == (p * s) * (hh * t);
      assert (q * gg) * st == (q * t) * (gg * s);
    }
    assert hh * t == 1536.0 * (r * r * r) + 1664.0 * (r * r) + 544.0 * r + 56.0;
    assert gg * s == 1536.0 * (r * r * r) - 1408.0 * (r * r) + 416.0 * r - 40.0;
    assert st == 9216.0 * (r * r) + 1536.0 * r - 2240.0;
    MulCancel(p * hh - q * gg, 1.0, st);
  }

  /** 62500/114244 is 1/(4 * 0.676^2); the second and third values follow from it. */
  lemma RampStart()
    ensures RampEnergy(1) == 15625.0 / 28561.0
    ensures RampEnergy(2) == 390625.0 / 257049.0
    ensures RampEnergy(3) <= Crest(3.0)
  {
    RampEnergyStep(1);
    RampEnergyStep(2);
  }

  /** Every ramp energy stays under the crest, so it is below n - 1/2 + 1/(16n). */
  lemma {:induction false} RampBelowCrest(n: int)
    requires n >= 3
    ensures RampEnergy(n) <= Crest(n as real)
  {
    if n == 3 {
      RampStart();
    } else {
      RampBelowCrest(n - 1);
      BelowCrestStep(n - 1, n as real);
    }
  }

  lemma BelowCrestStep(n: int, r': real)
    requires n >= 3 && r' == n as real + 1.0
    requires RampEnergy(n) <= Crest(n as real)
    ensures RampEnergy(n + 1) <= Crest(r')
  {
    hide *;
    RampEnergyStep(n);
    CrestStep(n as real);
    CrestTransfer(n as real, RampEnergy(n), RampEnergy(n + 1), Crest(n as real), Crest(r'));
  }

  lemma CrestTransfer(r: real, e: real, e': real, k: real, k': real)
    requires r >= 3.0
    requires e <= k
    requires e' * ((4.0 * r - 1.0) * (4.0 * r - 1.0)) == e * ((4.0 * r + 1.0) * (4.0 * r + 1.0))
    requires k * ((4.0 * r + 1.0) * (4.0 * r + 1.0)) <= k' * ((4.0 * r - 1.0) * (4.0 * r - 1.0))
    ensures e' <= k'
  {
    var gg, hh := Squares(4.0 * r - 1.0, 4.0 * r + 1.0);
    MulMono(e, k, hh);
    MulCancel(e', k', gg);
  }

  lemma Squares(g: real, h: real) returns (gg: real, hh: real)
    requires g > 0.0 && h > 0.0
    ensures gg == g * g && hh == h * h
    ensures gg > 0.0 && hh > 0.0
  {
    gg := SquareOf(g);
    hh := SquareOf(h);
  }

  lemma SquareOf(x: real) returns (s: real)
    requires x > 0.0
    ensures s == x * x && s > 0.0
  {
    s := x * x;
    ProductPositive(x, x, s);
  }

  lemma ProductPositive(x: real, y: real, p: real)
    requires x > 0.0 && y > 0.0 && p == x * y
    ensures p > 0.0
  {}

  /** The bound that keeps one accelerating update from adding a whole step to the stopping distance. */
  lemma RampSlope(n: int)
    requires n >= 1
    ensures var r := n as real; RampEnergy(n) * (16.0 * r) < (4.0 * r - 1.0) * (4.0 * r - 1.0)
  {
    hide *;
    if n <= 2 {
      SmallSlope(n);
    } else {
      RampBelowCrest(n);
      CrestSlope(n as real);
      MulMono(RampEnergy(n), Crest(n as real), 16.0 * n as real);
    }
  }

  lemma SmallSlope(n: int)
    requires 1 <= n <= 2
    ensures var r := n as real; RampEnergy(n) * (16.0 * r) < (4.0 * r - 1.0) * (4.0 * r - 1.0)
  {
    RampStart();
    hide *;
    if n == 1 {
      assert RampEnergy(1) * 16.0 < 9.0;
    } else {
      assert RampEnergy(2) * 32.0 < 49.0;
    }
  }

  lemma CrestSlope(r: real)
    requires r >= 3.0
    ensures Crest(r) * (16.0 * r) < (4.0 * r - 1.0) * (4.0 * r - 1.0)
  {
    var s := 96.0 * r - 40.0;
    var p := 3.0 / s;
    assert p * s == 3.0;
    assert p * r * 64.0 <= 3.0 by { MulMono(64.0 * r, s, p); }
    assert Crest(r) * (16.0 * r) == 16.0 * (r * r) - 8.0 * r + 16.0 * (p * r);
    assert (4.0 * r - 1.0) * (4.0 * r - 1.0) == 16.0 * (r * r) - 8.0 * r + 1.0;
  }

  /**
    Accelerating from an energy no higher than the ramp's keeps it no higher than the ramp's, and
    adds less than one step of stopping distance.
   */
  lemma AccelerationGrowth(n: int, e: real, e': real)
    requires n >= 1 && 0.0 <= e <= RampEnergy(n)
    requires var r := n as real;
      e' * ((4.0 * r - 1.0) * (4.0 * r - 1.0)) <= e * ((4.0 * r + 1.0) * (4.0 * r + 1.0))
    ensures e' <= RampEnergy(n + 1)
    ensures e' < e + 1.0
    ensures var r := n as real;
      e == RampEnergy(n) && e' * ((4.0 * r - 1.0) * (4.0 * r - 1.0)) == e * ((4.0 * r + 1.0) * (4.0 * r + 1.0))
      ==> e' == RampEnergy(n + 1)
  {
    hide *;
    RampEnergyStep(n);
    RampSlope(n);
    GrowthBounds(n as real, e, e', RampEnergy(n), RampEnergy(n + 1));
  }

  lemma GrowthBounds(r: real, e: real, e': real, k: real, k': real)
    requires r >= 1.0 && 0.0 <= e <= k
    requires e' * ((4.0 * r - 1.0) * (4.0 * r - 1.0)) <= e * ((4.0 * r + 1.0) * (4.0 * r + 1.0))
    requires k' * ((4.0 * r - 1.0) * (4.0 * r - 1.0)) == k * ((4.0 * r + 1.0) * (4.0 * r + 1.0))
    requires k * (16.0 * r) < (4.0 * r - 1.0) * (4.0 * r - 1.0)
    ensures e' <= k'
    ensures e' < e + 1.0
    ensures e == k && e' * ((4.0 * r - 1.0) * (4.0 * r - 1.0)) == e * ((4.0 * r + 1.0) * (4.0 * r + 1.0)) ==> e' == k'
  {
    var gg, hh := Squares(4.0 * r - 1.0, 4.0 * r + 1.0);
    assert hh == gg + 16.0 * r;
    GrowthByQuotients(16.0 * r, e, e', k, k', gg, hh);
  }

  lemma GrowthByQuotients(d: real, e: real, e': real, k: real, k': real, gg: real, hh: real)
    requires d >= 0.0 && 0.0 <= e <= k && gg > 0.0 && hh == gg + d
    requires e' * gg <= e * hh && k' * gg == k * hh && k * d < gg
    ensures e' <= k'
    ensures e' < e + 1.0
    ensures e == k && e' * gg == e * hh ==> e' == k'
  {
    MulMono(e, k, hh);
    MulCancel(e', k', gg);
    MulMono(e, k, d);
    assert (e + 1.0) * gg == e * gg + gg;
    MulCancelStrict(e', e + 1.0, gg);
  }

  /**
    The acceleration law: the square of the speed grows at least in proportion to n and at most
    in proportion to 2n - 1.
   */
  lemma {:induction false} RampLaw(n: int)
    requires n >= 1
    ensures RampEnergy(1) * n as real <= RampEnergy(n) <= RampEnergy(1) * (2 * n - 1) as real
  {
    if n > 1 {
      RampLaw(n - 1);
      RampLawNext(n - 1);
    }
  }

  lemma RampLawNext(n: int)
    requires n >= 1
    requires RampEnergy(1) * n as real <= RampEnergy(n) <= RampEnergy(1) * (2 * n - 1) as real
    ensures RampEnergy(1) * (n + 1) as real <= RampEnergy(n + 1) <= RampEnergy(1) * (2 * n + 1) as real
  {
    RampStart();
    hide *;
    RampEnergyStep(n);
    RampLawStep(n as real, RampEnergy(1), RampEnergy(n), RampEnergy(n + 1));
  }

  lemma RampLawStep(r: real, e1: real, e: real, e': real)
    requires r >= 1.0 && e1 >= 0.0
    requires e1 * r <= e <= e1 * (2.0 * r - 1.0)
    requires e' * ((4.0 * r - 1.0) * (4.0 * r - 1.0)) == e * ((4.0 * r + 1.0) * (4.0 * r + 1.0))
    ensures e1 * (r + 1.0) <= e' <= e1 * (2.0 * r + 1.0)
  {
    var gg, hh := Squares(4.0 * r - 1.0, 4.0 * r + 1.0);
    assert gg == 16.0 * (r * r) - 8.0 * r + 1.0;
    assert hh == 16.0 * (r * r) + 8.0 * r + 1.0;
    assert (r + 1.0) * gg <= r * hh;
    assert (2.0 * r - 1.0) * hh <= (2.0 * r + 1.0) * gg;
    ProductBounds(e1, r, r + 1.0, e, e', gg, hh);
    ProductBounds(-e1, 2.0 * r - 1.0, 2.0 * r + 1.0, -e, -e', gg, hh);
  }

  lemma ProductBounds(e1: real, x: real, y: real, e: real, e': real, gg: real, hh: real)
    requires gg > 0.0 && hh > 0.0
    requires e1 * x <= e && e' * gg == e * hh
    requires e1 * (y * gg) <= e1 * (x * hh)
    ensures e1 * y <= e'
  {
    MulMono(e1 * x, e, hh);
    MulCancel(e1 * y, e', gg);
  }
}
