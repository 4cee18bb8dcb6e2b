/**
The cached register file of the ADF5356 (artiq/coredevice/adf5356.py) as a value: what the driver's
getters read from it, and what configuring the PLL writes into it.
*/
module ADF5356Registers {

  import opened PllPlan
  import opened RealArithmetic
  import opened ADF5356Fields
  import opened ADF5356Reference

  type Regs = regs: seq<bv32> | |regs| == 14 witness seq(14, _ => 0)

  /** The register that the device stores a word in. */
  function Slot(word: bv32): nat { (Number(word) as bv4) as int }

  ghost predicate Numbered(regs: Regs) {
    forall i :: 0 <= i < 14 ==> Slot(regs[i]) == i
  }

  // ----- the getters -----

  /** `ref_counter`. */
  function RefCounter(regs: Regs): nat { Unsigned(RCounterGet(regs[4])) }

  function Doubler(regs: Regs): nat { Unsigned(RDoublerGet(regs[4])) }

  function DivideByTwo(regs: Regs): nat { Unsigned(RDividerGet(regs[4])) }

  /** `f_pfd`. */
  function PfdOf(sysclk: real, regs: Regs): int
    requires RefCounter(regs) > 0
  {
    Pfd(sysclk, RefCounter(regs), Doubler(regs), DivideByTwo(regs))
  }

  /** `pll_n`, `pll_frac1`, `pll_frac2` and `pll_mod2`. */
  function PlanOf(regs: Regs): Pll { PlanIn(regs[0], regs[1], regs[2], regs[13]) }

  function PlanIn(reg0: bv32, reg1: bv32, reg2: bv32, reg13: bv32): Pll {
    Pll(Unsigned(IntValueGet(reg0)),
        Unsigned(MainFracGet(reg1)),
        Unsigned(Joined(AuxFracGet(reg13), AuxFracGet(reg2))),
        Unsigned(Joined(AuxModGet(reg13), AuxModGet(reg2))))
  }

  /** `f_vco`. */
  function VcoOf(sysclk: real, regs: Regs): real
    requires RefCounter(regs) > 0 && PlanOf(regs).mod2 > 0
  {
    Implied(PfdOf(sysclk, regs), PlanOf(regs))
  }

  /** The exponent of `output_divider`. */
  function DividerSelect(regs: Regs): nat { Unsigned(RfDividerSelectGet(regs[6])) }

  /** The registers hold their numbers and a reference path within its limits. */
  ghost predicate Referenced(sysclk: real, regs: Regs) {
    && Clock(sysclk)
    && Numbered(regs)
    && 0 < RefCounter(regs) <= 15
    && PfdOf(sysclk, regs) <= MAX_PFD
  }

  /** What the driver keeps true of its registers: also that the VCO frequency is defined and within
      its limit. */
  ghost predicate Usable(sysclk: real, regs: Regs) {
    && Referenced(sysclk, regs)
    && PlanOf(regs).mod2 > 0
    && VcoOf(sysclk, regs) <= MAX_VCO
  }

  /** REG6 holds nothing that `Usable` depends on. */
  lemma Reg6IsFree(sysclk: real, regs: Regs, w: bv32)
    requires Usable(sysclk, regs) && Number(w) == Number(regs[6])
    ensures Usable(sysclk, regs[6 := w])
    ensures PfdOf(sysclk, regs[6 := w]) == PfdOf(sysclk, regs)
  {
    NumberedUpdate(regs, 6, w);
    SameSettings(sysclk, regs, regs[6 := w]);
  }

  lemma SameSettings(sysclk: real, regs: Regs, after: Regs)
    requires Usable(sysclk, regs) && Numbered(after)
    requires after[0] == regs[0] && after[1] == regs[1] && after[2] == regs[2] && after[13] == regs[13]
    requires after[4] == regs[4]
    ensures Usable(sysclk, after) && PfdOf(sysclk, after) == PfdOf(sysclk, regs)
  {
  }

  lemma NumberedUpdate(regs: Regs, i: nat, w: bv32)
    requires i < 14 && Numbered(regs) && Number(w) == Number(regs[i])
    ensures Numbered(regs[i := w])
  {
  }

  lemma MuxoutIsFree(sysclk: real, regs: Regs, x: bv32)
    requires Usable(sysclk, regs)
    ensures
      var after := regs[4 := MuxoutUpdate(regs[4], x)];
      && Usable(sysclk, after)
      && PfdOf(sysclk, after) == PfdOf(sysclk, regs)
      && Doubler(after) == Doubler(regs) && DivideByTwo(after) == DivideByTwo(regs)
  {
    MuxoutKeeps(regs[4], x);
  }

  lemma FlagBits(regs: Regs)
    ensures Doubler(regs) <= 1 && DivideByTwo(regs) <= 1
  {
    FlagBit(RDoublerGet(regs[4]));
    FlagBit(RDividerGet(regs[4]));
  }

  lemma FlagBit(x: bv32)
    requires x <= 1
    ensures Unsigned(x) <= 1
  {
    UnsignedIsInt(x);
  }

  lemma PfdBounds(sysclk: real, regs: Regs)
    requires Referenced(sysclk, regs)
    ensures 333_333 <= PfdOf(sysclk, regs) <= MAX_PFD
    ensures PlanOf(regs).mod2 > 0 ==> VcoOf(sysclk, regs) >= 0.0
  {
    FlagBits(regs);
    CounterBounds(sysclk, RefCounter(regs), Doubler(regs), DivideByTwo(regs));
    if PlanOf(regs).mod2 > 0 {
      ImpliedPositive(PfdOf(sysclk, regs), PlanOf(regs));
    }
  }

  lemma ImpliedPositive(pfd: int, p: Pll)
    requires pfd > 0 && p.mod2 > 0
    ensures Implied(pfd, p) >= 0.0
  {
    var x := p.frac2 as real / p.mod2 as real;
    assert x >= 0.0 by {
      FloorAtLeast(p.frac2 as real, p.mod2 as real, 0);
    }
    var y := p.n as real + (p.frac1 as real + x) / MODULUS1 as real;
    assert y >= 0.0;
    Scale(0.0, y, pfd as real);
  }

  // ----- configuring the PLL -----

  /** The charge pump bleed setting. */
  function Bleed(pfd: int): (bleed: int)
    ensures bleed * 61_440_000 <= 24 * pfd < (bleed + 1) * 61_440_000
  {
    var bleed := (24.0 * pfd as real / 61_440_000.0).Floor;
    FloorOfQuotient(24 * pfd, 61_440_000, bleed);
    bleed
  }

  lemma FloorOfQuotient(x: int, y: int, k: int)
    requires y > 0 && k == (x as real / y as real).Floor
    ensures k * y <= x < (k + 1) * y
  {
    FloorAtLeast(x as real, y as real, k);
    FloorAtLeast(x as real, y as real, k + 1);
  }

  /** The VCO band division: a ceiling.  It can exceed its 8-bit field. */
  function Band(pfd: nat): (band: nat)
    ensures band * 160_000 - 160_000 < pfd <= band * 160_000
  {
    FloorOfQuotient(0 - pfd, 160_000, (-(pfd as real / 160_000.0)).Floor);
    -(-(pfd as real / 160_000.0)).Floor
  }

  /** The low eight bits of the VCO band division are stored. */
  ghost predicate BandStored(regs: Regs, pfd: int) {
    pfd >= 0 && Unsigned(VcoBandDivisionGet(regs[9])) == Band(pfd) % 256
  }

  lemma ConfiguredBand(regs: Regs, w: Words, sel: bv32, bleed: bv32, pfd: nat)
    requires pfd <= MAX_PFD
    ensures BandStored(Configured(regs, w, sel, bleed, Word(Band(pfd))), pfd)
  {
    VcoBandReadBack(regs[9], Word(Band(pfd)));
    LowEight(Word(Band(pfd)));
  }

  /** The parameters of a plan as register fields, FRAC2 and MOD2 in halves. */
  datatype Words = Words(n: bv32, frac1: bv32, fracHigh: bv32, fracLow: bv32, modHigh: bv32, modLow: bv32) {
    predicate Narrow() {
      && n <= 0xffff && frac1 <= 0xff_ffff
      && fracHigh <= 0x3fff && fracLow <= 0x3fff && modHigh <= 0x3fff && modLow <= 0x3fff
    }

    function Plan(): Pll {
      Pll(Unsigned(n), Unsigned(frac1), Unsigned(Joined(fracHigh, fracLow)), Unsigned(Joined(modHigh, modLow)))
    }
  }

  /** The words in the four PLL registers. */
  function Stored(reg0: bv32, reg1: bv32, reg2: bv32, reg13: bv32): Words {
    Words(IntValueGet(reg0), MainFracGet(reg1), AuxFracGet(reg13), AuxFracGet(reg2), AuxModGet(reg13), AuxModGet(reg2))
  }

  lemma StoredPlan(regs: Regs, w: Words)
    requires Stored(regs[0], regs[1], regs[2], regs[13]) == w
    ensures PlanOf(regs) == w.Plan()
  {
  }

  /** Every plan with a 16-bit INT and 28-bit FRAC2 and MOD2 has its words. */
  function WordsOf(p: Pll): (w: Words)
    requires p.n < 0x1_0000 && p.frac1 < MODULUS1 && p.frac2 < MAX_MODULUS2 && p.mod2 < MAX_MODULUS2
    ensures w.Narrow() && w.Plan() == p
  {
    WordBound16(p.n);
    WordBound24(p.frac1);
    SplitWords(p.frac2);
    SplitWords(p.mod2);
    Words(Word(p.n), Word(p.frac1), Word(Msb(p.frac2)), Word(Lsb(p.frac2)), Word(Msb(p.mod2)), Word(Lsb(p.mod2)))
  }

  lemma SplitWords(v: nat)
    requires v < MAX_MODULUS2
    ensures Word(Msb(v)) <= 0x3fff && Word(Lsb(v)) <= 0x3fff
    ensures Unsigned(Joined(Word(Msb(v)), Word(Lsb(v)))) == v
  {
    WordBound14(Msb(v));
    WordBound14(Lsb(v));
    JoinedValue(Word(Msb(v)), Word(Lsb(v)));
    SplitJoins(v);
  }

  /** The registers after `set_frequency` has stored a plan and its settings. */
  function Configured(regs: Regs, w: Words, sel: bv32, bleed: bv32, band: bv32): Regs {
    var a := regs[0 := IntValueUpdate(regs[0], w.n)];
    var b := a[1 := MainFracUpdate(a[1], w.frac1)];
    var c := b[2 := AuxFracUpdate(b[2], w.fracLow)];
    var d := c[2 := AuxModUpdate(c[2], w.modLow)];
    var e := d[13 := AuxFracUpdate(d[13], w.fracHigh)];
    var f := e[13 := AuxModUpdate(e[13], w.modHigh)];
    var g := f[6 := RfDividerSelectUpdate(f[6], sel)];
    var h := g[6 := CpBleedCurrentUpdate(g[6], bleed)];
    h[9 := VcoBandDivisionUpdate(h[9], band)]
  }

  /** A stored plan is read back exactly. */
  lemma ConfiguredReadsBack(regs: Regs, w: Words, sel: bv32, bleed: bv32, band: bv32)
    requires w.Narrow()
    ensures PlanOf(Configured(regs, w, sel, bleed, band)) == w.Plan()
  {
    IntValueReadBack(regs[0], w.n);
    MainFracReadBack(regs[1], w.frac1);
    AuxReadBack(regs[13], w.fracHigh, w.modHigh);
    AuxReadBack(regs[2], w.fracLow, w.modLow);
    StoredPlan(Configured(regs, w, sel, bleed, band), w);
  }

  /** The output divider, up to three bits, and the bleed setting are read back, and the prescaler is
      kept. */
  lemma ConfiguredKeeps(regs: Regs, w: Words, sel: bv32, bleed: bv32, band: bv32)
    requires w.n <= 0xffff && bleed <= 0xff
    ensures RfDividerSelectGet(Configured(regs, w, sel, bleed, band)[6]) == sel & 7
    ensures CpBleedCurrentGet(Configured(regs, w, sel, bleed, band)[6]) == bleed
    ensures PrescalerGet(Configured(regs, w, sel, bleed, band)[0]) == PrescalerGet(regs[0])
  {
    IntValueReadBack(regs[0], w.n);
    Reg6Updates(regs[6], sel, bleed);
    BleedReadBack(RfDividerSelectUpdate(regs[6], sel), bleed);
  }

  /** Every word keeps its register number. */
  lemma ConfiguredNumbered(regs: Regs, w: Words, sel: bv32, bleed: bv32, band: bv32)
    requires Numbered(regs)
    ensures Numbered(Configured(regs, w, sel, bleed, band))
  {
    IntValueKeeps(regs[0], w.n);
    MainFracKeeps(regs[1], w.frac1);
    AuxKeeps(regs[2], w.fracLow, w.modLow);
    AuxKeeps(regs[13], w.fracHigh, w.modHigh);
    Reg6Keeps(regs[6], sel, bleed);
    VcoBandKeeps(regs[9], band);
    NumbersKept(regs, Configured(regs, w, sel, bleed, band));
  }

  lemma NumbersKept(regs: Regs, after: Regs)
    requires Numbered(regs) && after[3..6] == regs[3..6] && after[7..9] == regs[7..9] && after[10..13] == regs[10..13]
    requires Number(after[0]) == Number(regs[0]) && Number(after[1]) == Number(regs[1])
    requires Number(after[2]) == Number(regs[2]) && Number(after[6]) == Number(regs[6])
    requires Number(after[9]) == Number(regs[9]) && Number(after[13]) == Number(regs[13])
    ensures Numbered(after)
  {
    assert after[3] == after[3..6][0] && after[4] == after[3..6][1] && after[5] == after[3..6][2];
    assert after[7] == after[7..9][0] && after[8] == after[7..9][1];
    assert after[10] == after[10..13][0] && after[11] == after[10..13][1] && after[12] == after[10..13][2];
  }

  /** The field of the output divider keeps a 32-bit counter modulo 8. */
  lemma SelectWord(sel: nat)
    ensures Unsigned(Word(sel % 0x1_0000_0000) & 7) == sel % 8
  {
    var n := sel % 0x1_0000_0000;
    LowThree(Word(n));
    SameModulo8(sel, sel / 0x1_0000_0000, n);
  }

  lemma SameModulo8(sel: nat, q: nat, n: nat)
    requires sel == 0x1_0000_0000 * q + n
    ensures n % 8 == sel % 8
  {
  }

  lemma ConfiguredUsable(sysclk: real, regs: Regs, after: Regs, p: Pll, vco: real)
    requires Referenced(sysclk, regs) && Numbered(after) && after[4] == regs[4] && PlanOf(after) == p
    requires p.mod2 > 0 && vco <= MAX_VCO && Close(vco, PfdOf(sysclk, regs), p)
    ensures Usable(sysclk, after) && PfdOf(sysclk, after) == PfdOf(sysclk, regs)
  {
  }

  /** The bleed setting fits its field for every PFD frequency. */
  lemma BleedFits(pfd: nat)
    requires pfd <= MAX_PFD
    ensures Word(Bleed(pfd)) <= 0xff
  {
    assert Bleed(pfd) <= 48;
    WordBound8(Bleed(pfd));
  }

  // ----- what tuning leaves alone -----

  function Mapped(f: (nat, bv32) -> bv32, regs: Regs): seq<bv32> {
    seq(14, i requires 0 <= i < 14 => f(i, regs[i]))
  }

  /** What `set_frequency` has to leave alone. */
  function Rest(regs: Regs): seq<bv32> { Mapped(Cleared, regs) }

  lemma MappedKept(f: (nat, bv32) -> bv32, regs: Regs, i: nat, w: bv32)
    requires i < 14 && f(i, w) == f(i, regs[i])
    ensures Mapped(f, regs[i := w]) == Mapped(f, regs)
  {
  }

  lemma MappedAt(f: (nat, bv32) -> bv32, regs: Regs, was: Regs, i: nat)
    requires i < 14 && Mapped(f, regs) == Mapped(f, was)
    ensures f(i, regs[i]) == f(i, was[i])
  {
    assert Mapped(f, regs)[i] == Mapped(f, was)[i];
  }

  lemma RestKept(regs: Regs, i: nat, w: bv32)
    requires i < 14 && Cleared(i, w) == Cleared(i, regs[i])
    ensures Rest(regs[i := w]) == Rest(regs)
  {
    MappedKept(Cleared, regs, i, w);
  }

  lemma RestAt(regs: Regs, was: Regs, i: nat)
    requires i < 14 && Rest(regs) == Rest(was)
    ensures Cleared(i, regs[i]) == Cleared(i, was[i])
  {
    MappedAt(Cleared, regs, was, i);
  }

  /** Registers with the same rest have the same settings of the output, and agree on the registers that
      only `_init_registers` sets. */
  lemma SameRest(regs: Regs, was: Regs)
    requires Rest(regs) == Rest(was)
    ensures OutputAEnableGet(regs[6]) == OutputAEnableGet(was[6]) && OutputAPowerGet(regs[6]) == OutputAPowerGet(was[6])
    ensures SameFixed(regs, was)
  {
    RestAt(regs, was, 6);
    OutputFrame(regs[6], was[6]);
    FixedRest(regs, was);
  }

  lemma FixedRest(regs: Regs, was: Regs)
    requires Rest(regs) == Rest(was)
    ensures SameFixed(regs, was)
  {
    RestAt(regs, was, 3);
    RestAt(regs, was, 5);
    RestAt(regs, was, 7);
    RestAt(regs, was, 8);
    RestAt(regs, was, 10);
    RestAt(regs, was, 11);
    RestAt(regs, was, 12);
  }

  /** The registers that only `_init_registers` sets. */
  ghost predicate SameFixed(regs: Regs, was: Regs) {
    && regs[3] == was[3] && regs[5] == was[5] && regs[7] == was[7] && regs[8] == was[8]
    && regs[10] == was[10] && regs[11] == was[11] && regs[12] == was[12]
  }

  lemma IntRest(regs: Regs, x: bv32)
    ensures Rest(regs[0 := IntValueUpdate(regs[0], x)]) == Rest(regs)
  {
    Reg0Frame(regs[0], x);
    RestKept(regs, 0, IntValueUpdate(regs[0], x));
  }

  lemma PrescalerRest(regs: Regs, on: bool)
    ensures Rest(regs[0 := WithPrescaler(regs[0], on)]) == Rest(regs)
  {
    PrescalerCleared(regs[0], on);
    RestKept(regs, 0, WithPrescaler(regs[0], on));
  }

  lemma PrescalerCleared(reg: bv32, on: bool)
    ensures Cleared(0, WithPrescaler(reg, on)) == Cleared(0, reg)
  {
    if on {
      PrescalerOnFrame(reg);
    } else {
      PrescalerOffFrame(reg);
    }
  }

  lemma FracRest(regs: Regs, x: bv32)
    ensures Rest(regs[1 := MainFracUpdate(regs[1], x)]) == Rest(regs)
  {
    Reg1Frame(regs[1], x);
    RestKept(regs, 1, MainFracUpdate(regs[1], x));
  }

  lemma AuxFracRest(regs: Regs, i: nat, x: bv32)
    requires i == 2 || i == 13
    ensures Rest(regs[i := AuxFracUpdate(regs[i], x)]) == Rest(regs)
  {
    AuxFracFrame(regs[i], x, i);
    RestKept(regs, i, AuxFracUpdate(regs[i], x));
  }

  lemma AuxModRest(regs: Regs, i: nat, x: bv32)
    requires i == 2 || i == 13
    ensures Rest(regs[i := AuxModUpdate(regs[i], x)]) == Rest(regs)
  {
    AuxModFrame(regs[i], x, i);
    RestKept(regs, i, AuxModUpdate(regs[i], x));
  }

  lemma CounterRest(regs: Regs, x: bv32)
    ensures Rest(regs[4 := RCounterUpdate(regs[4], x)]) == Rest(regs)
  {
    Reg4Frame(regs[4], x);
    RestKept(regs, 4, RCounterUpdate(regs[4], x));
  }

  lemma DividerRest(regs: Regs, x: bv32)
    ensures Rest(regs[6 := RfDividerSelectUpdate(regs[6], x)]) == Rest(regs)
  {
    DividerFrame(regs[6], x);
    RestKept(regs, 6, RfDividerSelectUpdate(regs[6], x));
  }

  lemma BleedRest(regs: Regs, x: bv32)
    ensures Rest(regs[6 := CpBleedCurrentUpdate(regs[6], x)]) == Rest(regs)
  {
    BleedFrame(regs[6], x);
    RestKept(regs, 6, CpBleedCurrentUpdate(regs[6], x));
  }

  lemma BandRest(regs: Regs, x: bv32)
    ensures Rest(regs[9 := VcoBandDivisionUpdate(regs[9], x)]) == Rest(regs)
  {
    Reg9Frame(regs[9], x);
    RestKept(regs, 9, VcoBandDivisionUpdate(regs[9], x));
  }

  /** Storing a plan and its settings writes only bits that `set_frequency` may write. */
  lemma ConfiguredRest(regs: Regs, w: Words, sel: bv32, bleed: bv32, band: bv32)
    ensures Rest(Configured(regs, w, sel, bleed, band)) == Rest(regs)
  {
    var a := regs[0 := IntValueUpdate(regs[0], w.n)];
    var b := a[1 := MainFracUpdate(a[1], w.frac1)];
    var c := b[2 := AuxFracUpdate(b[2], w.fracLow)];
    var d := c[2 := AuxModUpdate(c[2], w.modLow)];
    var e := d[13 := AuxFracUpdate(d[13], w.fracHigh)];
    var f := e[13 := AuxModUpdate(e[13], w.modHigh)];
    var g := f[6 := RfDividerSelectUpdate(f[6], sel)];
    var h := g[6 := CpBleedCurrentUpdate(g[6], bleed)];
    IntRest(regs, w.n);
    FracRest(a, w.frac1);
    AuxFracRest(b, 2, w.fracLow);
    AuxModRest(c, 2, w.modLow);
    AuxFracRest(d, 13, w.fracHigh);
    AuxModRest(e, 13, w.modHigh);
    DividerRest(f, sel);
    BleedRest(g, bleed);
    BandRest(h, band);
  }

  // ----- calibrating at half the PFD frequency -----

  /** What `sync` has written to the device when it starts the calibration at half the PFD frequency. */
  function Calibrating(regs: Regs, w: Words, counter: bv32): Regs {
    regs[13 := 13 | AuxFrac(w.fracHigh) | AuxMod(w.modHigh)]
        [4 := RCounterUpdate(regs[4], counter)]
        [2 := 2 | AuxMod(w.modLow) | AuxFrac(w.fracLow)]
        [1 := 1 | MainFrac(w.frac1)]
        [0 := IntValue(w.n) | Autocal(1)]
  }

  lemma FreshWords(w: Words)
    requires w.Narrow()
    ensures Stored(IntValue(w.n) | Autocal(1), 1 | MainFrac(w.frac1), 2 | AuxMod(w.modLow) | AuxFrac(w.fracLow),
                   13 | AuxFrac(w.fracHigh) | AuxMod(w.modHigh)) == w
  {
    IntValueFresh(w.n);
    MainFracFresh(w.frac1);
    AuxFresh(13, w.fracHigh, w.modHigh);
    AuxFreshSwapped(2, w.fracLow, w.modLow);
  }

  lemma FreshNumbers(w: Words)
    ensures Number(IntValue(w.n) | Autocal(1)) == 0 && Number(1 | MainFrac(w.frac1)) == 1
    ensures Number(2 | AuxMod(w.modLow) | AuxFrac(w.fracLow)) == 2
    ensures Number(13 | AuxFrac(w.fracHigh) | AuxMod(w.modHigh)) == 13
  {
  }

  /** The words made for the calibration hold the plan for half the PFD frequency. */
  lemma CalibratingPlan(regs: Regs, w: Words, counter: bv32)
    requires w.Narrow()
    ensures PlanOf(Calibrating(regs, w, counter)) == w.Plan()
  {
    FreshWords(w);
    StoredPlan(Calibrating(regs, w, counter), w);
  }

  lemma CalibratingNumbered(regs: Regs, w: Words, counter: bv32)
    requires Numbered(regs) && counter <= 0x3ff
    ensures Numbered(Calibrating(regs, w, counter))
  {
    FreshNumbers(w);
    RCounterReadBack(regs[4], counter);
    NumberedAfter(regs, Calibrating(regs, w, counter));
  }

  /** Only the PLL registers and REG4 change. */
  lemma NumberedAfter(regs: Regs, c: Regs)
    requires Numbered(regs) && c[3] == regs[3] && c[5..13] == regs[5..13]
    requires Number(c[0]) == 0 && Number(c[1]) == 1 && Number(c[2]) == 2
    requires Number(c[4]) == Number(regs[4]) && Number(c[13]) == 13
    ensures Numbered(c)
  {
    forall i | 5 <= i < 13 ensures c[i] == regs[i] {
      assert c[i] == c[5..13][i - 5];
    }
  }

  /** With the doubled reference counter the device runs at half the PFD frequency. */
  lemma CalibratingPfd(sysclk: real, regs: Regs, c: Regs)
    requires 0 < RefCounter(regs) <= 511 && Clock(sysclk)
    requires c[4] == RCounterUpdate(regs[4], Word(2 * RefCounter(regs)))
    ensures RefCounter(c) == 2 * RefCounter(regs)
    ensures PfdOf(sysclk, c) == PfdOf(sysclk, regs) / 2
  {
    var r := RefCounter(regs);
    WordBound10(2 * r);
    RCounterReadBack(regs[4], Word(2 * r));
    FlagBits(regs);
    PfdHalves(sysclk, r, Doubler(regs), DivideByTwo(regs));
  }

  // ----- the first register values -----

  function InitialReg4(mode: bv32, d: bv32, t: bv32): bv32 {
    4 | RefMode(mode) | PdPolarity(1) | CurrentSetting(2) | MuxLogic(1) | Muxout(6) | RDoubler(d) | RDivider(t)
  }

  /** REG4 with the reference path set up. */
  function FirstReg4(mode: bv32, doubler: bool, divider: bool, r: nat): (reg4: bv32)
    requires r <= 1023
    ensures Number(reg4) == 4 && Unsigned(RCounterGet(reg4)) == r
    ensures Unsigned(RDoublerGet(reg4)) == if doubler then 1 else 0
    ensures Unsigned(RDividerGet(reg4)) == if divider then 1 else 0
  {
    var d: bv32, t: bv32 := if doubler then 1 else 0, if divider then 1 else 0;
    WordBound10(r);
    InitialReg4Fields(mode, d, t, Word(r));
    assert Unsigned(0) == 0 && Unsigned(1) == 1;
    InitialReg4(mode, d, t) | RCounter(Word(r))
  }

  lemma FirstReg4Value(mode: bv32, doubler: bool, divider: bool, r: nat)
    requires r <= 1023 && mode <= 1
    ensures FirstReg4(mode, doubler, divider, r) & !0x7ff_8200 == 0x3000_0984
    ensures FirstReg4(mode, doubler, divider, r) & 0x200 == mode << 9
  {
    InitialReg4Value(mode, if doubler then 1 else 0, if divider then 1 else 0, Word(r));
  }

  lemma InitialReg4Fields(mode: bv32, d: bv32, t: bv32, r: bv32)
    requires d <= 1 && t <= 1 && r <= 0x3ff
    ensures RDoublerGet(InitialReg4(mode, d, t)) == d && RDividerGet(InitialReg4(mode, d, t)) == t
    ensures RDoublerGet(InitialReg4(mode, d, t) | RCounter(r)) == d
    ensures RDividerGet(InitialReg4(mode, d, t) | RCounter(r)) == t
    ensures RCounterGet(InitialReg4(mode, d, t) | RCounter(r)) == r
    ensures MuxoutGet(InitialReg4(mode, d, t) | RCounter(r)) == 6
    ensures Number(InitialReg4(mode, d, t) | RCounter(r)) == 4
  {
  }

  function InitialReg6(bleed: bv32): bv32 {
    0x14000006 | NegativeBleed(1) | CpBleedCurrent(bleed) | FbSelect(1) | MuteTillLd(1) | OutputAEnable(1)
    | OutputAPower(3)
  }

  function InitialReg9(band: bv32): bv32 {
    9 | (SynthLockTimeout(13) | AutocalTimeout(31) | Timeout(0x67)) | VcoBandDivision(band)
  }

  lemma InitialReg69Fields(bleed: bv32, band: bv32)
    ensures Number(InitialReg6(bleed)) == 6 && Number(InitialReg9(band)) == 9
    ensures OutputAEnableGet(InitialReg6(bleed)) == 1 && OutputAPowerGet(InitialReg6(bleed)) == 3
    ensures RfDividerSelectGet(InitialReg6(bleed)) == 0
  {
  }

  /** What `_init_registers` stores. */
  function InitialRegs(reg4: bv32, bleed: bv32, band: bv32): Regs {
    [0, 1, 2 | AuxMod(1), 3, reg4, 0x800025, InitialReg6(bleed), 0x10000007 | LeSync(1) | FracNLdPrecision(3),
     0x102D0428, InitialReg9(band), 0xC0000A | (AdcEnable(1) | AdcClkDiv(256) | AdcConv(1)), 0x61200B, 0x15FC, 13]
  }

  lemma InitialNumbered(reg4: bv32, bleed: bv32, band: bv32)
    requires Number(reg4) == 4
    ensures Numbered(InitialRegs(reg4, bleed, band))
  {
    InitialReg69Fields(bleed, band);
  }

  /** The values that the datasheet and the evaluation software give, as literal words. */
  ghost predicate FirstValues(regs: Regs) {
    && regs[0] == 0 && regs[1] == 1 && regs[2] == 0x12 && regs[3] == 3 && regs[13] == 13
    && regs[4] & !0x7ff_8200 == 0x3000_0984
    && regs[5] == 0x80_0025 && regs[7] == 0x1200_0067 && regs[8] == 0x102d_0428
    && regs[6] & !0x1f_e000 == 0x3500_0876
    && regs[9] & !0xff00_0000 == 0x19_fed9
    && regs[10] == 0xc0_003a && regs[11] == 0x61_200b && regs[12] == 0x15fc
  }

  lemma InitialValues(reg4: bv32, bleed: bv32, band: bv32)
    requires reg4 & !0x7ff_8200 == 0x3000_0984
    ensures FirstValues(InitialRegs(reg4, bleed, band))
  {
    InitialReg6Value(bleed);
    InitialReg9Value(band);
  }

  lemma InitialReg6Value(bleed: bv32)
    ensures InitialReg6(bleed) & !0x1f_e000 == 0x3500_0876
  {
  }

  lemma InitialReg9Value(band: bv32)
    ensures InitialReg9(band) & !0xff00_0000 == 0x19_fed9
  {
  }

  lemma InitialSettings(reg4: bv32, pfd: nat)
    requires pfd <= MAX_PFD
    ensures
      var regs := InitialRegs(reg4, Word(Bleed(pfd)), Word(Band(pfd)));
      Unsigned(CpBleedCurrentGet(regs[6])) == Bleed(pfd) && BandStored(regs, pfd)
  {
    BleedFits(pfd);
    InitialBleed(Word(Bleed(pfd)));
    InitialBand(Word(Band(pfd)));
    LowEight(Word(Band(pfd)));
  }

  lemma InitialBleed(bleed: bv32)
    requires bleed <= 0xff
    ensures CpBleedCurrentGet(InitialReg6(bleed)) == bleed
  {
  }

  lemma InitialBand(band: bv32)
    ensures VcoBandDivisionGet(InitialReg9(band)) == band & 0xff
  {
  }

  lemma InitialReg4Value(mode: bv32, d: bv32, t: bv32, r: bv32)
    requires mode <= 1
    ensures (InitialReg4(mode, d, t) | RCounter(r)) & !0x7ff_8200 == 0x3000_0984
    ensures (InitialReg4(mode, d, t) | RCounter(r)) & 0x200 == mode << 9
  {
  }

  lemma InitialPlan(reg4: bv32, bleed: bv32, band: bv32)
    ensures PlanOf(InitialRegs(reg4, bleed, band)) == Pll(0, 0, 0, 1)
  {
  }

  lemma ZeroImplied(pfd: int)
    ensures Implied(pfd, Pll(0, 0, 0, 1)) == 0.0
  {
  }

  /** The first register values are usable. */
  lemma InitialUsable(sysclk: real, reg4: bv32, r: nat, d: nat, t: nat, bleed: bv32, band: bv32)
    requires Clock(sysclk) && 0 < r <= 10 && Pfd(sysclk, r, d, t) <= MAX_PFD && Number(reg4) == 4
    requires Unsigned(RCounterGet(reg4)) == r && Unsigned(RDoublerGet(reg4)) == d && Unsigned(RDividerGet(reg4)) == t
    ensures Usable(sysclk, InitialRegs(reg4, bleed, band))
  {
    InitialNumbered(reg4, bleed, band);
    InitialPlan(reg4, bleed, band);
    FirstUsable(sysclk, InitialRegs(reg4, bleed, band), r, d, t);
  }

  lemma FirstUsable(sysclk: real, regs: Regs, r: nat, d: nat, t: nat)
    requires Clock(sysclk) && 0 < r <= 10 && Pfd(sysclk, r, d, t) <= MAX_PFD
    requires Numbered(regs) && PlanOf(regs) == Pll(0, 0, 0, 1)
    requires RefCounter(regs) == r && Doubler(regs) == d && DivideByTwo(regs) == t
    ensures Usable(sysclk, regs)
  {
    ZeroImplied(PfdOf(sysclk, regs));
  }

  /** The register file that `_init_registers` builds around REG4. */
  function FirstRegs(sysclk: real, reg4: bv32, r: nat, d: nat, t: nat): (regs: Regs)
    requires Clock(sysclk) && 0 < r <= 10 && 0 <= Pfd(sysclk, r, d, t) <= MAX_PFD && Number(reg4) == 4
    requires Unsigned(RCounterGet(reg4)) == r && Unsigned(RDoublerGet(reg4)) == d && Unsigned(RDividerGet(reg4)) == t
    requires reg4 & !0x7ff_8200 == 0x3000_0984
    ensures regs[4] == reg4 && Usable(sysclk, regs) && PlanOf(regs) == Pll(0, 0, 0, 1) && FirstValues(regs)
    ensures OutputAPowerGet(regs[6]) == 3
    ensures Unsigned(CpBleedCurrentGet(regs[6])) == Bleed(PfdOf(sysclk, regs))
    ensures BandStored(regs, PfdOf(sysclk, regs))
  {
    var pfd := Pfd(sysclk, r, d, t);
    var bleed, band := Word(Bleed(pfd)), Word(Band(pfd));
    InitialUsable(sysclk, reg4, r, d, t, bleed, band);
    InitialPlan(reg4, bleed, band);
    InitialReg69Fields(bleed, band);
    InitialValues(reg4, bleed, band);
    InitialSettings(reg4, pfd);
    InitialRegs(reg4, bleed, band)
  }

  // ----- the reference path -----

  /** Another reference counter leaves the rest of REG4 alone. */
  lemma CounterReadsBack(regs: Regs, r: nat)
    requires r <= 1023
    ensures
      var after := regs[4 := RCounterUpdate(regs[4], Word(r))];
      && RefCounter(after) == r && Doubler(after) == Doubler(regs) && DivideByTwo(after) == DivideByTwo(regs)
      && (Numbered(regs) ==> Numbered(after))
  {
    WordBound10(r);
    RCounterReadBack(regs[4], Word(r));
    if Numbered(regs) {
      NumberedUpdate(regs, 4, RCounterUpdate(regs[4], Word(r)));
    }
  }

  /** REG0 with the 8/9 or the 4/5 prescaler. */
  function WithPrescaler(reg: bv32, on: bool): (w: bv32)
    ensures Number(w) == Number(reg) && PrescalerGet(w) == if on then 1 else 0
  {
    PrescalerBit(reg);
    if on then reg | Prescaler(1) else reg & !Prescaler(1)
  }
}
