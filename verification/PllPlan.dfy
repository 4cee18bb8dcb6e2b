/**
Fractional-N planning for the ADF5356 PLL (functions `gcd`, `split_msb_lsb_28b` and `calculate_pll`
of artiq/coredevice/adf5356.py).  Frequencies are exact reals, in hertz.
*/
module PllPlan {

  import opened RealArithmetic

  const MODULUS1 := 0x100_0000
  const MAX_MODULUS2 := 0x1000_0000

  // ----- greatest common divisor -----

  ghost predicate Divides(d: nat, a: nat) {
    exists k: nat :: a == d * k
  }

  ghost predicate Common(d: nat, a: nat, b: nat) {
    Divides(d, a) && Divides(d, b)
  }

  lemma DividesSum(d: nat, a: nat, b: nat)
    requires Common(d, a, b)
    ensures Divides(d, a + b)
  {
    var i: nat, j: nat :| a == d * i && b == d * j;
    assert a + b == d * (i + j);
  }

  lemma DividesDifference(d: nat, a: nat, b: nat)
    requires Divides(d, a + b) && Divides(d, b)
    ensures Divides(d, a)
  {
    var i: nat :| a + b == d * i;
    var j: nat :| b == d * j;
    if i < j {
      assert d * i <= d * j;
      assert a == d * 0;
    } else {
      assert a == d * (i - j);
    }
  }

  lemma DividesMultiple(d: nat, a: nat, q: nat)
    requires Divides(d, a)
    ensures Divides(d, a * q)
  {
    var i: nat :| a == d * i;
    assert a * q == d * (i * q);
  }

  /** One step of the algorithm keeps the common divisors. */
  lemma StepKeepsCommon(d: nat, a: nat, b: nat)
    requires b > 0
    ensures Common(d, a, b) <==> Common(d, b, a % b)
  {
    var q := a / b;
    assert a == a % b + b * q;
    if Divides(d, b) {
      DividesMultiple(d, b, q);
      if Divides(d, a) {
        DividesDifference(d, a % b, b * q);
      }
      if Divides(d, a % b) {
        DividesSum(d, a % b, b * q);
      }
    }
  }

  /** `gcd`: the result is divided by exactly the common divisors. */
  method Gcd(a0: nat, b0: nat) returns (a: nat)
    ensures forall d: nat :: Divides(d, a) <==> Common(d, a0, b0)
    ensures b0 > 0 ==> a > 0
  {
    var b: nat := b0;
    a := a0;
    while b != 0
      invariant forall d: nat :: Common(d, a, b) <==> Common(d, a0, b0)
      invariant b0 > 0 ==> a > 0 || b > 0
      decreases b
    {
      forall d: nat ensures Common(d, a, b) <==> Common(d, b, a % b) {
        StepKeepsCommon(d, a, b);
      }
      a, b := b, a % b;
    }
    forall d: nat ensures Divides(d, 0) {
      assert 0 == d * 0;
    }
  }

  // ----- the plan -----

  /** What `calculate_pll` returns, with FRAC2 and MOD2 before they are split. */
  datatype Pll = Pll(n: nat, frac1: nat, frac2: nat, mod2: nat)

  /** The frequency that the parameters stand for. */
  function Implied(pfd: int, p: Pll): real
    requires p.mod2 > 0
  {
    pfd as real * (p.n as real + (p.frac1 as real + p.frac2 as real / p.mod2 as real) / MODULUS1 as real)
  }

  /** `split_msb_lsb_28b`. */
  function Msb(v: nat): nat {
    v / 0x4000 % 0x4000
  }

  function Lsb(v: nat): nat {
    v % 0x4000
  }

  lemma SplitJoins(v: nat)
    ensures Msb(v) * 0x4000 + Lsb(v) == v <==> v < MAX_MODULUS2
  {
  }

  // The real arithmetic, with the variables of the code.

  /** `x // y` and `x % y` of a float and a positive integer. */
  function Quotient(x: real, y: int): int
    requires y > 0
  {
    (x / y as real).Floor
  }

  function Remainder(x: real, y: int): real
    requires y > 0
  {
    x - y as real * Quotient(x, y) as real
  }

  lemma QuotientBounds(x: real, y: int)
    requires x >= 0.0 && y > 0
    ensures Quotient(x, y) >= 0 && 0.0 <= Remainder(x, y) < y as real
  {
    var q := x / y as real;
    assert q * y as real == x;
    RemainderBounds(x, y as real, q, q.Floor as real);
  }

  /** What the code computes before it reduces the fraction. */
  ghost predicate Planned(f: real, pfd: int, n: int, frac1: int, q: real)
    requires pfd > 0
  {
    var r := Remainder(f, pfd);
    && n == Quotient(f, pfd)
    && frac1 == Quotient(r * MODULUS1 as real, pfd)
    && q == Remainder(r * MODULUS1 as real, pfd)
  }

  lemma PlannedBounds(f: real, pfd: int, n: int, frac1: int, q: real)
    requires f >= 0.0 && pfd > 0 && Planned(f, pfd, n, frac1, q)
    ensures 0 <= n && 0 <= frac1 < MODULUS1 && 0.0 <= q < pfd as real
  {
    QuotientBounds(f, pfd);
    var r := Remainder(f, pfd);
    QuotientBounds(r * MODULUS1 as real, pfd);
    if frac1 >= MODULUS1 {
      Scale(MODULUS1 as real, frac1 as real, pfd as real);
    }
  }

  /** The parameters miss the target by what truncating FRAC2 drops. */
  lemma PlannedError(f: real, pfd: int, n: int, frac1: int, q: real, frac2: int)
    requires pfd > 0 && Planned(f, pfd, n, frac1, q)
    ensures
      var implied := pfd as real * n as real + (pfd as real * frac1 as real + frac2 as real) / MODULUS1 as real;
      MODULUS1 as real * (f - implied) == q - frac2 as real
  {
  }

  lemma ImpliedSum(pfd: int, p: Pll, frac2: nat)
    requires pfd > 0 && p.mod2 > 0 && p.frac2 as real / p.mod2 as real == frac2 as real / pfd as real
    ensures Implied(pfd, p) ==
            pfd as real * p.n as real + (pfd as real * p.frac1 as real + frac2 as real) / MODULUS1 as real
  {
    var x, a, b := pfd as real, p.frac1 as real, frac2 as real;
    assert x * (b / x) == b;
    assert x * (a + b / x) == x * a + b;
    Distribute(x, p.n as real, a + b / x);
  }

  lemma Distribute(x: real, n: real, y: real)
    ensures x * (n + y / MODULUS1 as real) == x * n + (x * y) / MODULUS1 as real
  {
  }

  /** A whole target leaves nothing to truncate. */
  lemma WholeTarget(f: real, pfd: int, n: int, frac1: int, q: real)
    requires pfd > 0 && Planned(f, pfd, n, frac1, q) && f == f.Floor as real
    ensures q == q.Floor as real
  {
    var r := f.Floor - pfd * n;
    assert Remainder(f, pfd) == r as real;
    var w := r * MODULUS1;
    assert r as real * MODULUS1 as real == w as real;
    assert q == (w - pfd * frac1) as real;
  }

  // ----- the method -----

  /** Dividing both parts by a common divisor keeps the fraction. */
  lemma Reduced(a: nat, b: nat, g: nat)
    requires b > 0 && g > 0 && Common(g, a, b)
    ensures 0 < b / g <= b && (a < b ==> a / g < b / g)
    ensures (a / g) as real / (b / g) as real == a as real / b as real
  {
    var i: nat :| a == g * i;
    var j: nat :| b == g * j;
    QuotientOf(g, i);
    QuotientOf(g, j);
    assert j > 0;
    SmallerParts(i, j, g);
    SameRatio(i, j, g);
  }

  lemma SameRatio(i: nat, j: nat, g: nat)
    requires j > 0 && g > 0
    ensures g * j > 0 && i as real / j as real == (g * i) as real / (g * j) as real
  {
    Monotone(1, j, g);
    SameFraction(i as real, j as real, g as real);
    assert (g * i) as real == g as real * i as real && (g * j) as real == g as real * j as real;
  }

  lemma SmallerParts(i: nat, j: nat, g: nat)
    requires g > 0
    ensures j <= g * j && (g * i < g * j ==> i < j)
  {
    Monotone(1, g, j);
    if j <= i {
      Monotone(j, i, g);
    }
  }

  lemma Monotone(a: int, b: int, g: int)
    requires a <= b && g >= 0
    ensures g * a <= g * b
  {
    var k: nat := b - a;
    assert g * b == g * a + g * k;
  }

  lemma QuotientOf(g: nat, i: nat)
    requires g > 0
    ensures g * i / g == i
  {
    var x := g * i;
    Euclid(x, g);
    UniqueQuotient(g, i, x / g, x % g);
  }

  lemma Euclid(x: int, g: int)
    requires g > 0
    ensures x == g * (x / g) + x % g && 0 <= x % g < g
  {
  }

  lemma UniqueQuotient(g: int, i: int, q: int, m: int)
    requires g > 0 && g * i == g * q + m && 0 <= m < g
    ensures i == q
  {
    assert g * (i - q) == m;
    if i - q >= 1 {
      Monotone(1, i - q, g);
    } else if i - q <= -1 {
      Monotone(i - q, -1, g);
    }
  }

  lemma SameFraction(i: real, j: real, g: real)
    requires j != 0.0 && g != 0.0
    ensures i / j == (g * i) / (g * j)
  {
    var x := i / j;
    assert x * j == i;
    assert x * (g * j) == g * i;
  }

  ghost predicate LowestTerms(a: nat, b: nat) {
    forall d: nat | Common(d, a, b) :: d == 1
  }

  /** Dividing by a divisor that all others divide leaves lowest terms. */
  lemma ReducedIsLowest(a: nat, b: nat, g: nat)
    requires b > 0 && g > 0 && forall d: nat :: Divides(d, g) <==> Common(d, a, b)
    ensures LowestTerms(a / g, b / g)
  {
    assert Divides(g, g) by {
      assert g == g * 1;
    }
    var i: nat :| a == g * i;
    var j: nat :| b == g * j;
    QuotientOf(g, i);
    QuotientOf(g, j);
    forall d: nat | Common(d, i, j) ensures d == 1 {
      Multiplied(d, i, g);
      Multiplied(d, j, g);
      assert Divides(g * d, g);
      var k: nat :| g == g * d * k;
      OneFactor(g, d, k);
    }
  }

  lemma Multiplied(d: nat, i: nat, g: nat)
    requires Divides(d, i)
    ensures Divides(g * d, g * i)
  {
    var k: nat :| i == d * k;
    assert g * i == (g * d) * k;
  }

  lemma OneFactor(g: nat, d: nat, k: nat)
    requires g > 0 && g == g * d * k
    ensures d == 1
  {
    assert g * (d * k) == g * 1;
    UniqueQuotient(g, d * k, 1, 0);
    if d >= 2 {
      Monotone(2, d, k);
    }
  }

  /** The parameters stand for a frequency that is below the target by less than 2^-24 Hz, and equal
      to it if the target is a whole number of hertz. */
  ghost predicate Close(f: real, pfd: int, p: Pll)
    requires p.mod2 > 0
  {
    && 0.0 <= MODULUS1 as real * (f - Implied(pfd, p)) < 1.0
    && (f == f.Floor as real ==> Implied(pfd, p) == f)
  }

  lemma PlanIsClose(f: real, pfd: int, n: int, frac1: int, q: real, frac2: int, p: Pll)
    requires f >= 0.0 && pfd > 0 && Planned(f, pfd, n, frac1, q) && frac2 == q.Floor
    requires p.n == n && p.frac1 == frac1 && p.mod2 > 0
    requires p.frac2 as real / p.mod2 as real == frac2 as real / pfd as real
    ensures Close(f, pfd, p)
  {
    PlannedBounds(f, pfd, n, frac1, q);
    ImpliedSum(pfd, p, frac2);
    PlannedError(f, pfd, n, frac1, q, frac2);
    if f == f.Floor as real {
      WholeTarget(f, pfd, n, frac1, q);
    }
  }

  /** The last step of `calculate_pll`: the fraction in lowest terms. */
  method Reduce(a: nat, b: nat) returns (i: nat, j: nat)
    requires b > 0
    ensures 0 < j <= b && (a < b ==> i < j)
    ensures LowestTerms(i, j) && i as real / j as real == a as real / b as real
  {
    var g := Gcd(a, b);
    assert Divides(g, g) by {
      assert g == g * 1;
    }
    Reduced(a, b, g);
    ReducedIsLowest(a, b, g);
    i, j := a / g, b / g;
  }

  /** `calculate_pll`.  For every PFD frequency that the 28-bit modulus can hold, the parameters
      are close to the target. */
  method CalculatePll(f: real, pfd: int) returns (p: Pll)
    requires f >= 0.0 && pfd > 0
    ensures p.n == Quotient(f, pfd) && p.frac1 < MODULUS1 && 0 < p.mod2 <= MAX_MODULUS2
    ensures LowestTerms(p.frac2, p.mod2)
    ensures pfd < MAX_MODULUS2 ==>
              p.frac2 < p.mod2 <= pfd && Close(f, pfd, p)
  {
    var n, r := Quotient(f, pfd), Remainder(f, pfd);
    var scaled := r * MODULUS1 as real;
    var frac1, q := Quotient(scaled, pfd), Remainder(scaled, pfd);
    PlannedBounds(f, pfd, n, frac1, q);
    var frac2: nat := q.Floor;
    var mod2: nat := pfd;
    while mod2 > MAX_MODULUS2
      invariant mod2 > 0 && (pfd < MAX_MODULUS2 ==> mod2 == pfd && frac2 == q.Floor)
    {
      mod2, frac2 := mod2 / 2, frac2 / 2;
    }
    var a, b := Reduce(frac2, mod2);
    p := Pll(n, frac1, a, b);
    if pfd < MAX_MODULUS2 {
      PlanIsClose(f, pfd, n, frac1, q, frac2, p);
    }
  }
}
