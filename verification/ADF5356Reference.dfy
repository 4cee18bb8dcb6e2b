/**
The reference path and the output divider of the ADF5356 (artiq/coredevice/adf5356.py): how the
PFD frequency depends on the reference counter, and how the output divider is chosen.
*/
module ADF5356Reference {

  import opened PllPlan
  import opened RealArithmetic

  const MIN_VCO := 3_400_000_000.0
  const MAX_VCO := 6_800_000_000.0
  const MAX_PFD := 125_000_000

  /** The reference clocks that the driver accepts. */
  predicate Clock(sysclk: real) {
    10_000_000.0 <= sysclk <= 600_000_000.0
  }

  /** `_compute_pfd_frequency`, with the doubler and the divide-by-2 flags as bits. */
  function Pfd(sysclk: real, r: nat, d: nat, t: nat): int
    requires r > 0
  {
    Divided(sysclk, (1 + d) as real, r as real, (1 + t) as real).Floor
  }

  function Divided(s: real, a: real, r: real, b: real): real
    requires r > 0.0 && b > 0.0
  {
    s * (a / (r * b))
  }

  /** The reference after the doubler and the divide-by-2. */
  function Reference(sysclk: real, d: nat, t: nat): real {
    sysclk * (1 + d) as real / (1 + t) as real
  }

  lemma Regrouped(s: real, a: real, r: real, b: real)
    requires r > 0.0 && b > 0.0
    ensures Divided(s, a, r, b) == (s * a / b) / r
  {
  }

  /** The PFD frequency reaches k exactly when the reference reaches k * r. */
  lemma PfdAtLeast(sysclk: real, r: nat, d: nat, t: nat, k: int)
    requires r > 0
    ensures Pfd(sysclk, r, d, t) >= k <==> Reference(sysclk, d, t) >= k as real * r as real
  {
    var a, b, y := (1 + d) as real, (1 + t) as real, r as real;
    Regrouped(sysclk, a, y, b);
    var e := sysclk * a / b;
    assert Reference(sysclk, d, t) == e;
    assert Pfd(sysclk, r, d, t) == (e / y).Floor;
    FloorAtLeast(e, y, k);
  }

  lemma ReferenceBounds(sysclk: real, d: nat, t: nat)
    requires Clock(sysclk) && d <= 1 && t <= 1
    ensures 5_000_000.0 <= Reference(sysclk, d, t) <= 1_200_000_000.0
  {
    if d == 0 {
      assert t == 0 || t == 1;
    } else {
      assert d == 1 && (t == 0 || t == 1);
    }
  }

  /** A larger reference counter never gives a higher PFD frequency. */
  lemma PfdFalls(sysclk: real, r: nat, q: nat, d: nat, t: nat)
    requires 0 < r <= q && Clock(sysclk) && d <= 1 && t <= 1
    ensures 0 <= Pfd(sysclk, q, d, t) <= Pfd(sysclk, r, d, t)
  {
    ReferenceBounds(sysclk, d, t);
    PfdAtLeast(sysclk, q, d, t, 0);
    var k := Pfd(sysclk, q, d, t);
    PfdAtLeast(sysclk, q, d, t, k);
    PfdAtLeast(sysclk, r, d, t, k);
    if k > 0 {
      Monotone(r, q, k);
    }
  }

  /** A PFD frequency above the maximum, or one too high for INT >= 75 above 6 GHz, leaves room for
      more reference division; and no counter up to 15 brings it below a third of a megahertz. */
  lemma CounterBounds(sysclk: real, r: nat, d: nat, t: nat)
    requires r > 0 && Clock(sysclk) && d <= 1 && t <= 1
    ensures Pfd(sysclk, r, d, t) > MAX_PFD ==> r <= 9
    ensures 75 * Pfd(sysclk, r, d, t) > 6_000_000_000 ==> r <= 14
    ensures r <= 15 ==> Pfd(sysclk, r, d, t) >= 333_333
    ensures r <= 1023 ==> Pfd(sysclk, r, d, t) >= 1
  {
    ReferenceBounds(sysclk, d, t);
    PfdAtLeast(sysclk, r, d, t, MAX_PFD + 1);
    PfdAtLeast(sysclk, r, d, t, 80_000_001);
    PfdAtLeast(sysclk, r, d, t, 333_333);
    PfdAtLeast(sysclk, r, d, t, 1);
  }

  /** Doubling the reference counter halves the PFD frequency, rounding down. */
  lemma PfdHalves(sysclk: real, r: nat, d: nat, t: nat)
    requires r > 0 && Clock(sysclk) && d <= 1 && t <= 1
    ensures Pfd(sysclk, 2 * r, d, t) == Pfd(sysclk, r, d, t) / 2
  {
    var k := Pfd(sysclk, r, d, t) / 2;
    PfdAtLeast(sysclk, 2 * r, d, t, k);
    PfdAtLeast(sysclk, 2 * r, d, t, k + 1);
    PfdAtLeast(sysclk, r, d, t, 2 * k);
    PfdAtLeast(sysclk, r, d, t, 2 * k + 2);
  }

  /** INT is at least k exactly when k PFD periods fit. */
  lemma IntAtLeast(f: real, pfd: int, k: int)
    requires pfd > 0
    ensures Quotient(f, pfd) >= k <==> f >= k as real * pfd as real
  {
    FloorAtLeast(f, pfd as real, k);
  }

  /** The loop of `_compute_reference_counter`: the least counter that keeps the PFD frequency
      within its maximum. */
  method ComputeReferenceCounter(sysclk: real, d: nat, t: nat) returns (r: nat)
    requires Clock(sysclk) && d <= 1 && t <= 1
    ensures 0 < r <= 10 && Pfd(sysclk, r, d, t) <= MAX_PFD
    ensures forall q: nat :: 0 < q < r ==> Pfd(sysclk, q, d, t) > MAX_PFD
  {
    r := 1;
    while Pfd(sysclk, r, d, t) > MAX_PFD
      invariant 0 < r <= 10
      invariant forall q: nat :: 0 < q < r ==> Pfd(sysclk, q, d, t) > MAX_PFD
      decreases 10 - r
    {
      CounterBounds(sysclk, r, d, t);
      r := r + 1;
    }
  }

  /** The PFD frequencies allowed for a VCO frequency: above 6 GHz the 8/9 prescaler needs INT >= 75. */
  predicate Allowed(pfd: int, vco: real) {
    pfd <= MAX_PFD && (vco > 6_000_000_000.0 ==> (75 * pfd) as real <= vco)
  }

  /** No reference counter gives a higher PFD frequency that is allowed. */
  ghost predicate Best(sysclk: real, d: nat, t: nat, pfd: int, vco: real) {
    forall q: nat :: q > 0 && Allowed(Pfd(sysclk, q, d, t), vco) ==> Pfd(sysclk, q, d, t) <= pfd
  }

  /** The least counter that is allowed gives the highest PFD frequency that is allowed. */
  lemma LeastIsBest(sysclk: real, r: nat, d: nat, t: nat, vco: real)
    requires r > 0 && Clock(sysclk) && d <= 1 && t <= 1
    requires forall q: nat :: 0 < q < r ==> !Allowed(Pfd(sysclk, q, d, t), vco)
    ensures Best(sysclk, d, t, Pfd(sysclk, r, d, t), vco)
  {
    forall q: nat | q > 0 && Allowed(Pfd(sysclk, q, d, t), vco)
      ensures Pfd(sysclk, q, d, t) <= Pfd(sysclk, r, d, t)
    {
      PfdFalls(sysclk, r, q, d, t);
    }
  }

  /** The output divider 2^sel. */
  function Divider(sel: nat): (d: nat)
    ensures d >= 1
  {
    if sel == 0 then 1 else 2 * Divider(sel - 1)
  }

  /** The VCO frequency that the divider brings down to f. */
  function Lifted(f: real, sel: nat): real { f * Divider(sel) as real }

  /** The least output divider that lifts a frequency to the VCO range. */
  ghost predicate LeastDivider(f: real, sel: nat) {
    && Lifted(f, sel) >= MIN_VCO
    && forall k: nat :: k < sel ==> Lifted(f, k) < MIN_VCO
  }

  /** The loop of `set_frequency` that selects the output divider. */
  method SelectDivider(f: real) returns (sel: nat, vco: real)
    requires 0.0 < f <= MAX_VCO
    ensures vco == Lifted(f, sel) && MIN_VCO <= vco <= MAX_VCO
    ensures LeastDivider(f, sel)
  {
    sel, vco := 0, f;
    while vco < MIN_VCO
      invariant vco == Lifted(f, sel) && 0.0 < vco <= MAX_VCO
      invariant forall k: nat :: k < sel ==> Lifted(f, k) < MIN_VCO
      decreases (MIN_VCO / vco).Floor
    {
      RatioHalves(vco);
      vco := vco * 2.0;
      sel := sel + 1;
    }
  }

  /** The loop that selects the divider ends if and only if the target is positive. */
  lemma DividerExistsIffPositive(f: real)
    ensures f > 0.0 <==> exists sel: nat :: Lifted(f, sel) >= MIN_VCO
  {
    if f > 0.0 {
      var sel := DividerFor(f);
    } else {
      forall sel: nat ensures Lifted(f, sel) < MIN_VCO {
        DividerGrows(sel, sel);
        Product(-f, Divider(sel) as real);
        assert -f * Divider(sel) as real == -Lifted(f, sel);
      }
    }
  }

  lemma {:induction false} DividerFor(f: real) returns (sel: nat)
    requires f > 0.0
    ensures Lifted(f, sel) >= MIN_VCO
    decreases if f < MIN_VCO then (MIN_VCO / f).Floor else 0
  {
    if f >= MIN_VCO {
      sel := 0;
    } else {
      RatioHalves(f);
      var rest := DividerFor(f * 2.0);
      sel := rest + 1;
      assert Lifted(f, sel) == Lifted(f * 2.0, rest);
    }
  }

  lemma RatioHalves(x: real)
    requires 0.0 < x < MIN_VCO
    ensures 0 <= (MIN_VCO / (x * 2.0)).Floor < (MIN_VCO / x).Floor
  {
    var y, z := MIN_VCO / x, MIN_VCO / (x * 2.0);
    assert y * x == MIN_VCO && z * (x * 2.0) == MIN_VCO;
    assert (2.0 * z) * x == y * x;
    Cancel(2.0 * z, y, x);
    assert y > 1.0 by {
      if y <= 1.0 {
        Scale(y, 1.0, x);
      }
    }
  }

  /** `1 << sel` as the compiler lowers it for a 32-bit integer: the sign bit at 31, and 0 from 32 on. */
  function ShiftedOne(sel: nat): int {
    if sel >= 32 then 0 else if sel == 31 then -0x8000_0000 else Divider(sel)
  }

  lemma DividerValues()
    ensures Divider(6) == 64 && Divider(7) == 128 && Divider(30) == 0x4000_0000 && Divider(31) == 0x8000_0000
    ensures Divider(32) == 0x1_0000_0000
  {
    assert Divider(3) == 8;
    assert Divider(6) == 64;
    assert Divider(9) == 0x200 && Divider(12) == 0x1000;
    assert Divider(15) == 0x8000 && Divider(18) == 0x4_0000;
    assert Divider(21) == 0x20_0000 && Divider(24) == 0x100_0000;
    assert Divider(27) == 0x800_0000 && Divider(30) == 0x4000_0000;
  }

  lemma LiftedGrows(f: real, i: nat, j: nat)
    requires f > 0.0 && i <= j
    ensures Lifted(f, i) <= Lifted(f, j)
  {
    DividerGrows(i, j);
    Scale(Divider(i) as real, Divider(j) as real, f);
  }

  /** The range check refuses a target, through the shifted one, exactly from about 3.17 Hz up to
      53.125 MHz; from there on the divider has at most six steps. */
  lemma LowestOutput(f: real, sel: nat)
    requires f > 0.0 && LeastDivider(f, sel)
    ensures ShiftedOne(sel) > 64 <==> Lifted(f, 30) >= MIN_VCO && f < 53_125_000.0
    ensures sel <= 6 <==> f >= 53_125_000.0
  {
    DividerValues();
    if sel <= 6 {
      LiftedGrows(f, sel, 6);
      DividerGrows(sel, 6);
    } else {
      assert Lifted(f, 6) < MIN_VCO;
      if sel <= 30 {
        LiftedGrows(f, sel, 30);
        DividerGrows(7, sel);
      } else {
        assert Lifted(f, 30) < MIN_VCO;
      }
    }
  }

  /** A target that passes the check below its range ends up at another frequency: the divider keeps
      three bits of its exponent. */
  lemma LowTargetsAreMissed(f: real, sel: nat)
    requires f > 0.0 && LeastDivider(f, sel) && Lifted(f, 30) < MIN_VCO
    ensures Lifted(f, sel) / Divider(sel % 8) as real >= 26_562_500.0 > f
  {
    DividerValues();
    DividerGrows(sel % 8, 7);
    LiftedGrows(f, 0, 30);
    QuotientAtLeast(Lifted(f, sel), Divider(sel % 8) as real, 26_562_500.0);
  }

  /** One hertz passes the check, and asks for a VCO frequency of 4.29 GHz without a divider. */
  lemma OneHertz()
    ensures LeastDivider(1.0, 32) && ShiftedOne(32) == 0 && 32 % 8 == 0 && Lifted(1.0, 32) == 4_294_967_296.0
  {
    DividerValues();
    forall k: nat | k < 32 ensures Lifted(1.0, k) < MIN_VCO {
      LiftedGrows(1.0, k, 31);
    }
  }

  lemma {:induction false} DividerGrows(i: nat, j: nat)
    requires i <= j
    ensures 0 < Divider(i) <= Divider(j)
  {
    if j > i {
      DividerGrows(i, j - 1);
    } else if i > 0 {
      DividerGrows(i - 1, i - 1);
    }
  }
}
