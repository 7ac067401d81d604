/**
 * The transaction id generator of `src/netstack/dhcp.rs`: a linear congruential
 * step modulo 2^32, shown here to have full period.
 */
module XidCycle {
  import opened Bytes

  const MULTIPLIER: nat := 1_664_525
  const INCREMENT: nat := 1_013_904_223

  /** One step, with wrapping multiplication and addition. */
  function NextXid(x: u32): u32 {
    (x * MULTIPLIER % 0x1_0000_0000 + INCREMENT) % 0x1_0000_0000
  }

  function XidAfter(x: u32, n: nat): u32 {
    if n == 0 then x else NextXid(XidAfter(x, n - 1))
  }

  // ------------------------------------------------------------- closed form

  /** MULTIPLIER to the power `n`. */
  function Power(n: nat): nat {
    if n == 0 then 1 else MULTIPLIER * Power(n - 1)
  }

  /** 1 + MULTIPLIER + ... + MULTIPLIER^(n-1). */
  function Geometric(n: nat): nat {
    if n == 0 then 0 else 1 + MULTIPLIER * Geometric(n - 1)
  }

  ghost predicate Congruent(a: int, b: int, m: nat)
    requires m > 0
  {
    exists k: int :: a == b + k * m
  }

  lemma StepCongruent(x: u32, y: int)
    requires Congruent(x, y, 0x1_0000_0000)
    ensures Congruent(NextXid(x), MULTIPLIER * y + INCREMENT, 0x1_0000_0000)
  {
    var k :| x == y + k * 0x1_0000_0000;
    var t := x * MULTIPLIER;
    var t' := t % 0x1_0000_0000 + INCREMENT;
    var j := k * MULTIPLIER - t / 0x1_0000_0000 - t' / 0x1_0000_0000;
    assert t == MULTIPLIER * y + k * MULTIPLIER * 0x1_0000_0000;
    assert t' == t - t / 0x1_0000_0000 * 0x1_0000_0000 + INCREMENT;
    assert NextXid(x) == t' - t' / 0x1_0000_0000 * 0x1_0000_0000;
    assert NextXid(x) == MULTIPLIER * y + INCREMENT + j * 0x1_0000_0000;
  }

  /** n steps move x by Geometric(n) times an odd number that depends on x only. */
  lemma {:induction false} ClosedForm(x: u32, n: nat)
    ensures Congruent(XidAfter(x, n), x + Geometric(n) * Stride(x), 0x1_0000_0000)
  {
    if n == 0 {
      assert XidAfter(x, n) == x + Geometric(n) * Stride(x) + 0 * 0x1_0000_0000;
    } else {
      ClosedForm(x, n - 1);
      var y := x + Geometric(n - 1) * Stride(x);
      StepCongruent(XidAfter(x, n - 1), y);
      StrideStep(x, Geometric(n - 1));
    }
  }

  function Stride(x: u32): nat {
    (MULTIPLIER - 1) * x + INCREMENT
  }

  lemma StrideStep(x: u32, g: nat)
    ensures MULTIPLIER * (x + g * Stride(x)) + INCREMENT == x + (1 + MULTIPLIER * g) * Stride(x)
  {
    var s := Stride(x);
    assert MULTIPLIER * x + INCREMENT == x + s;
    assert MULTIPLIER * (g * s) == (MULTIPLIER * g) * s;
    assert (1 + MULTIPLIER * g) * s == s + (MULTIPLIER * g) * s;
  }

  // ------------------------------------------------------- 2-adic valuation

  /** `a` is divisible by 2^j. */
  predicate Halves(j: nat, a: nat) {
    j == 0 || (a % 2 == 0 && Halves(j - 1, a / 2))
  }

  function Pow2(j: nat): (p: nat)
    ensures p > 0
  {
    if j == 0 then 1 else 2 * Pow2(j - 1)
  }

  lemma HalfMod(a: nat, p: nat)
    requires p > 0
    ensures a % (2 * p) == 2 * (a / 2 % p) + a % 2
  {
    var h := a / 2;
    var q, r := h / p, h % p;
    var qp := q * p;
    assert h == qp + r;
    assert q * (2 * p) == 2 * qp;
    DivModUnique(a, 2 * p, q, 2 * r + a % 2);
  }

  lemma {:induction false} HalvesIsMod(j: nat, a: nat)
    ensures Halves(j, a) <==> a % Pow2(j) == 0
  {
    if j > 0 {
      HalvesIsMod(j - 1, a / 2);
      HalfMod(a, Pow2(j - 1));
    }
  }

  lemma ResidueStep(p: nat)
    requires p % 4 == 1
    ensures MULTIPLIER * p % 4 == 1
  {
    var q := p / 4;
    assert MULTIPLIER * p == 4 * (MULTIPLIER * q + 416131) + 1;
  }

  lemma {:induction false} PowerResidue(n: nat)
    ensures Power(n) % 4 == 1
  {
    if n > 0 {
      PowerResidue(n - 1);
      ResidueStep(Power(n - 1));
    }
  }

  lemma EvenShift(k: nat, a: nat, b: nat)
    requires a % 2 == b % 2
    ensures (2 * k + a + 1) % 2 == (b + 1) % 2
  {
  }

  lemma ParityStep(g: nat, n: nat)
    requires g % 2 == n % 2
    ensures (1 + MULTIPLIER * g) % 2 == (n + 1) % 2
  {
    var k := 832262 * g;
    EvenShift(k, g, n);
    assert 1 + MULTIPLIER * g == 2 * k + g + 1;
  }

  lemma {:induction false} GeometricParity(n: nat)
    ensures Geometric(n) % 2 == n % 2
  {
    if n > 0 {
      GeometricParity(n - 1);
      ParityStep(Geometric(n - 1), n - 1);
    }
  }

  lemma Distribute(m: nat, a: nat, p: nat, g: nat)
    ensures m * (a + p * g) == m * a + m * p * g
  {
    assert m * (p * g) == m * p * g;
  }

  lemma {:induction false} GeometricSum(m: nat, n: nat)
    ensures Geometric(m + n) == Geometric(m) + Power(m) * Geometric(n)
  {
    if m > 0 {
      GeometricSum(m - 1, n);
      Distribute(MULTIPLIER, Geometric(m - 1), Power(m - 1), Geometric(n));
    }
  }

  lemma ProductParity(a: nat, odd: nat)
    requires odd % 2 == 1
    ensures (a * odd) % 2 == a % 2
    ensures a % 2 == 0 ==> a * odd / 2 == a / 2 * odd
  {
    var h, k := a / 2, odd / 2;
    if a % 2 == 0 {
      assert a * odd == 2 * (h * odd);
    } else {
      assert a * odd == a * (2 * k) + a;
      assert a * odd == 2 * (a * k) + a;
    }
  }

  /** An odd factor does not change divisibility by a power of two. */
  lemma {:induction false} OddFactor(j: nat, a: nat, odd: nat)
    requires odd % 2 == 1
    ensures Halves(j, a * odd) <==> Halves(j, a)
  {
    if j > 0 {
      ProductParity(a, odd);
      if a % 2 == 0 {
        OddFactor(j - 1, a / 2, odd);
      }
    }
  }

  lemma FactorTwo(g: nat, p: nat)
    requires p % 4 == 1
    ensures g + p * g == 2 * (g * ((1 + p) / 2))
    ensures (1 + p) / 2 % 2 == 1
  {
    var odd := (1 + p) / 2;
    assert p == 2 * odd - 1;
    assert p * g == (2 * odd - 1) * g == 2 * (odd * g) - g;
  }

  /** The geometric sum is divisible by exactly the powers of two its length is. */
  lemma {:induction false} GeometricValuation(j: nat, n: nat)
    ensures Halves(j, Geometric(n)) <==> Halves(j, n)
  {
    if j > 0 {
      GeometricParity(n);
      if n % 2 == 0 {
        var h := n / 2;
        GeometricSum(h, h);
        PowerResidue(h);
        FactorTwo(Geometric(h), Power(h));
        GeometricValuation(j - 1, h);
        OddFactor(j - 1, Geometric(h), (1 + Power(h)) / 2);
      }
    }
  }

  lemma StrideOdd(x: u32)
    ensures Stride(x) % 2 == 1
  {
    assert Stride(x) == 2 * (832262 * x + 506952111) + 1;
  }

  lemma ReturnIff(x: u32, y: u32, moved: nat, k: int)
    requires y == x + moved + k * 0x1_0000_0000
    ensures y == x <==> moved % 0x1_0000_0000 == 0
  {
    if y == x {
      DivModUnique(moved, 0x1_0000_0000, -k, 0);
    }
  }

  /** The id comes back to its start after n steps exactly when 2^32 divides n. */
  lemma {:induction false} FullPeriod(x: u32, n: nat)
    ensures XidAfter(x, n) == x <==> n % 0x1_0000_0000 == 0
  {
    Pow2Is32();
    StrideOdd(x);
    GeometricValuation(32, n);
    OddFactor(32, Geometric(n), Stride(x));
    HalvesIsMod(32, n);
    HalvesIsMod(32, Geometric(n) * Stride(x));
    var k := Displacement(x, n);
    ReturnIff(x, XidAfter(x, n), Geometric(n) * Stride(x), k);
  }

  lemma Displacement(x: u32, n: nat) returns (k: int)
    ensures XidAfter(x, n) == x + Geometric(n) * Stride(x) + k * 0x1_0000_0000
  {
    ClosedForm(x, n);
    k :| XidAfter(x, n) == x + Geometric(n) * Stride(x) + k * 0x1_0000_0000;
  }

  lemma Pow2Is32()
    ensures Pow2(32) == 0x1_0000_0000
  {
    assert Pow2(8) == 0x100;
    assert Pow2(16) == 0x1_0000;
    assert Pow2(24) == 0x100_0000;
  }

  /** The step itself, and the first ids from zero, as published for this generator. */
  lemma KnownIds(x: u32)
    ensures NextXid(x) == (1_664_525 * x + 1_013_904_223) % 0x1_0000_0000
    ensures XidAfter(0, 1) == 1_013_904_223 && XidAfter(0, 2) == 1_196_435_762 && XidAfter(0, 3) == 3_519_870_697
  {
    WrappedStep(x * MULTIPLIER);
    assert XidAfter(0, 0) == 0;
    StepIs(0, 0, 1_013_904_223);
    StepIs(1_013_904_223, 392_941, 1_196_435_762);
    StepIs(1_196_435_762, 463_681, 3_519_870_697);
  }

  lemma WrappedStep(t: nat)
    ensures (t % 0x1_0000_0000 + INCREMENT) % 0x1_0000_0000 == (t + INCREMENT) % 0x1_0000_0000
  {
    var q, r := t / 0x1_0000_0000, t % 0x1_0000_0000;
    var k := (r + INCREMENT) / 0x1_0000_0000;
    DivModUnique(t + INCREMENT, 0x1_0000_0000, q + k, (r + INCREMENT) % 0x1_0000_0000);
  }

  /** One step, from the quotient of the product. */
  lemma StepIs(x: u32, quotient: nat, y: u32)
    requires x * MULTIPLIER + INCREMENT == quotient * 0x1_0000_0000 + y
    ensures NextXid(x) == y
  {
    WrappedStep(x * MULTIPLIER);
    DivModUnique(x * MULTIPLIER + INCREMENT, 0x1_0000_0000, quotient, y);
  }
}
