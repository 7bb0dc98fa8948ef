/** Greatest common divisors: an order-free characterisation and Bezout coefficients. */
module Gcd {

  ghost predicate Divides(d: nat, n: nat) {
    exists k: nat :: Product(d, k, n)
  }

  ghost predicate Product(d: nat, k: nat, n: nat) {
    d * k == n
  }

  /** g is the common divisor of a and b that every common divisor divides. */
  ghost predicate IsGcd(g: nat, a: nat, b: nat) {
    Divides(g, a) && Divides(g, b) && forall d: nat :: Divides(d, a) && Divides(d, b) ==> Divides(d, g)
  }

  lemma {:induction false} DividesWitness(d: nat, k: nat, n: nat)
    requires d * k == n
    ensures Divides(d, n)
  {
    assert Product(d, k, n);
  }

  lemma {:induction false} DividesZero(d: nat)
    ensures Divides(d, 0)
  {
    DividesWitness(d, 0, 0);
  }

  lemma {:induction false} DividesSelf(d: nat)
    ensures Divides(d, d)
  {
    DividesWitness(d, 1, d);
  }

  /** d divides n exactly when it divides n plus a multiple of something it divides. */
  lemma {:induction false} DividesSum(d: nat, q: nat, b: nat, r: nat)
    requires Divides(d, b)
    ensures Divides(d, r) <==> Divides(d, q * b + r)
  {
    var k: nat :| Product(d, k, b);
    assert d * (q * k) == q * b;
    if Divides(d, r) {
      var m: nat :| Product(d, m, r);
      assert d * (q * k + m) == q * b + r;
      DividesWitness(d, q * k + m, q * b + r);
    }
    if Divides(d, q * b + r) {
      var m: nat :| Product(d, m, q * b + r);
      assert d * (m - q * k) == r;
      if d == 0 {
        DividesZero(d);
      } else {
        assert m - q * k >= 0;
        DividesWitness(d, m - q * k, r);
      }
    }
  }

  /** One step of Euclid's algorithm keeps the common divisors. */
  lemma {:induction false} EuclidStep(a: nat, b: nat, q: nat, r: nat, d: nat)
    requires a == q * b + r
    ensures Divides(d, a) && Divides(d, b) <==> Divides(d, b) && Divides(d, r)
  {
    if Divides(d, b) {
      DividesSum(d, q, b, r);
    }
  }

  lemma {:induction false} DividesBothWays(a: nat, b: nat)
    requires Divides(a, b) && Divides(b, a)
    ensures a == b
  {
  }

  lemma {:induction false} GcdIsUnique(g: nat, h: nat, a: nat, b: nat)
    requires IsGcd(g, a, b) && IsGcd(h, a, b)
    ensures g == h
  {
    DividesBothWays(g, h);
  }

  lemma {:induction false} CommonDivisorsOfZero(a: nat)
    ensures IsGcd(a, a, 0)
  {
    DividesSelf(a);
    DividesZero(a);
  }

  /** The greatest common divisor is an integer combination of its arguments. */
  lemma {:induction false} Bezout(a: nat, b: nat) returns (g: nat, x: int, y: int)
    ensures IsGcd(g, a, b) && g == a * x + b * y
    decreases b
  {
    if b == 0 {
      CommonDivisorsOfZero(a);
      g, x, y := a, 1, 0;
    } else {
      var q, r := a / b, a % b;
      assert a == q * b + r;
      var x', y';
      g, x', y' := Bezout(b, r);
      x, y := y', x' - q * y';
      calc {
        a * x + b * y;
        (q * b + r) * y' + b * x' - b * (q * y');
        { assert (q * b + r) * y' == q * b * y' + r * y'; assert b * (q * y') == q * b * y'; }
        b * x' + r * y';
      }
      forall d: nat
        ensures Divides(d, a) && Divides(d, b) <==> Divides(d, b) && Divides(d, r)
      {
        EuclidStep(a, b, q, r, d);
      }
    }
  }
}

/** Exact tick parameters of the RISC-V timer (sw/device/lib/dif/dif_rv_timer.c). */
module TickParams {
  import opened Words
  import opened Division
  import opened Gcd

  const PRESCALE_MASK: nat := 0xfff
  const STEP_MASK: nat := 0xff

  datatype TickResult = Ok(prescale: nat, step: nat) | BadArg

  /** The counter rises by step every prescale + 1 clocks at exactly the wanted frequency. */
  ghost predicate Exact(clock: nat, counter: nat, prescale: nat, step: nat) {
    counter * (prescale + 1) == clock * step
  }

  /** The prescaler has 12 bits, the step 8. */
  ghost predicate Representable(clock: nat, counter: nat, prescale: nat, step: nat) {
    prescale < 4096 && step < 256 && Exact(clock, counter, prescale, step)
  }

  /** `euclidean_gcd`: repeated remainder. */
  method EuclideanGcd(a0: u64, b0: u64) returns (a: u64)
    ensures IsGcd(a, a0, b0)
  {
    var b := b0;
    a := a0;
    while b != 0
      invariant forall g: nat :: IsGcd(g, a, b) <==> IsGcd(g, a0, b0)
      decreases b
    {
      var oldB := b;
      var quot, rem := Udiv64Slow(a, b);
      StepKeepsGcd(a, b, quot, rem);
      b := rem;
      a := oldB;
    }
    CommonDivisorsOfZero(a);
  }

  lemma {:induction false} StepKeepsGcd(a: nat, b: nat, q: nat, r: nat)
    requires a == q * b + r
    ensures forall g: nat :: IsGcd(g, b, r) <==> IsGcd(g, a, b)
  {
    forall d: nat
      ensures Divides(d, a) && Divides(d, b) <==> Divides(d, b) && Divides(d, r)
    {
      EuclidStep(a, b, q, r, d);
    }
  }

  /** `dif_rv_timer_approximate_tick_params`: for a running clock it succeeds exactly when some
      representable pair is exact, and then returns the least such pair. */
  method ApproximateTickParams(clockFreq: u64, counterFreq: u64) returns (r: TickResult)
    ensures clockFreq > 0 ==> (r.Ok? <==> exists p: nat, s: nat :: Representable(clockFreq, counterFreq, p, s))
    ensures clockFreq == 0 ==> r == BadArg
    ensures r.Ok? ==> Representable(clockFreq, counterFreq, r.prescale, r.step)
    ensures r.Ok? ==> forall p: nat, s: nat :: Exact(clockFreq, counterFreq, p, s) ==> r.prescale <= p && r.step <= s
  {
    var gcd := EuclideanGcd(clockFreq, counterFreq);
    var quot, rem := Udiv64Slow(clockFreq, gcd);
    var prescale := (quot + TWO_64 - 1) % TWO_64;
    var step, rem' := Udiv64Slow(counterFreq, gcd);
    if clockFreq > 0 {
      LowestTerms(clockFreq, counterFreq, gcd, quot, rem, step, rem');
    } else {
      NoClock(counterFreq, gcd, quot, rem);
    }
    hide IsGcd, Exact;
    if prescale > PRESCALE_MASK || step > STEP_MASK {
      if clockFreq > 0 {
        NoneRepresentable(clockFreq, counterFreq, prescale, step);
      }
      return BadArg;
    }
    assert Representable(clockFreq, counterFreq, prescale, step);
    r := Ok(prescale, step);
  }

  /** If the least exact pair is out of range, so is every other. */
  lemma {:induction false} NoneRepresentable(clock: nat, counter: nat, prescale: nat, step: nat)
    requires forall p: nat, s: nat :: Exact(clock, counter, p, s) ==> prescale <= p && step <= s
    requires prescale > PRESCALE_MASK || step > STEP_MASK
    ensures !exists p: nat, s: nat :: Representable(clock, counter, p, s)
  {
    assert forall p: nat, s: nat :: Representable(clock, counter, p, s) ==> Exact(clock, counter, p, s);
    hide Exact;
  }

  /** With the clock stopped the gcd is the counter frequency and the prescaler wraps out of range. */
  lemma {:induction false} NoClock(counter: u64, gcd: u64, quot: u64, rem: u64)
    requires IsGcd(gcd, 0, counter)
    requires gcd > 0 ==> 0 == quot * gcd + rem
    requires gcd == 0 ==> quot == TWO_64 - 1
    ensures quot == 0 || quot == TWO_64 - 1
  {
  }

  /** The quotients by the gcd are the exact pair in lowest terms; every other exact pair is a multiple of it. */
  lemma {:induction false} LowestTerms(clock: nat, counter: nat, gcd: nat, quot: nat, rem: nat, step: nat, rem': nat)
    requires clock > 0 && IsGcd(gcd, clock, counter)
    requires gcd > 0 ==> clock == quot * gcd + rem && rem < gcd && counter == step * gcd + rem' && rem' < gcd
    ensures quot > 0 && Exact(clock, counter, quot - 1, step)
    ensures forall p: nat, s: nat :: Exact(clock, counter, p, s) ==> quot - 1 <= p && step <= s
  {
    var k: nat :| Product(gcd, k, clock);
    var m: nat :| Product(gcd, m, counter);
    assert gcd > 0;
    DivModUnique(clock, gcd, k, 0);
    DivModUnique(clock, gcd, quot, rem);
    DivModUnique(counter, gcd, m, 0);
    DivModUnique(counter, gcd, step, rem');
    assert counter * quot == gcd * step * quot == clock * step;
    var g, x, y := Bezout(clock, counter);
    GcdIsUnique(g, gcd, clock, counter);
    CoprimeQuotients(gcd, clock, counter, quot, step, x, y);
    forall p: nat, s: nat | Exact(clock, counter, p, s)
      ensures quot - 1 <= p && step <= s
    {
      MultipleOfLowest(gcd, quot, step, x, y, p, s);
    }
  }

  lemma {:induction false} CoprimeQuotients(gcd: nat, clock: nat, counter: nat, quot: nat, step: nat, x: int, y: int)
    requires gcd > 0 && clock == gcd * quot && counter == gcd * step
    requires gcd == clock * x + counter * y
    ensures quot * x + step * y == 1
  {
  }

  lemma {:induction false} MultipleOfLowest(gcd: nat, quot: nat, step: nat, x: int, y: int, p: nat, s: nat)
    requires gcd > 0 && quot > 0 && quot * x + step * y == 1
    requires Exact(gcd * quot, gcd * step, p, s)
    ensures quot <= p + 1 && step <= s
  {
    var n := p + 1;
    Regroup(gcd, step, n);
    Regroup(gcd, quot, s);
    hide Exact;
    CancelFactor(gcd, step * n, quot * s);
    var k := x * n + y * s;
    Combine(quot, step, x, y, n, s);
    PositiveFactor(quot, k);
    MulAtLeast(quot, k);
    Swap(quot, step, k);
    CancelFactor(quot, s, step * k);
    MulAtLeast(step, k);
  }

  lemma {:induction false} Regroup(a: nat, b: nat, c: nat)
    ensures (a * b) * c == a * (b * c)
  {
  }

  lemma {:induction false} Swap(a: nat, b: nat, c: int)
    ensures b * (a * c) == a * (b * c)
  {
  }

  lemma {:induction false} Combine(quot: nat, step: nat, x: int, y: int, n: nat, s: nat)
    requires quot * x + step * y == 1 && step * n == quot * s
    ensures quot * (x * n + y * s) == n
  {
  }

  lemma {:induction false} PositiveFactor(a: nat, k: int)
    requires a * k > 0
    ensures k > 0
  {
  }

  lemma {:induction false} CancelFactor(c: nat, a: int, b: int)
    requires c > 0 && c * a == c * b
    ensures a == b
  {
    assert c * (a - b) == 0;
  }
}
