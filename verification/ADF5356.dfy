/**
The ADF5356 driver (artiq/coredevice/adf5356.py): a cached register file, the device it is written
to, and the operations that plan, store and commit PLL settings.  Delays are not modelled, and the
MUXOUT line is read through parameters.
*/
module ADF5356Driver {

  import opened PllPlan
  import opened ADF5356Fields
  import opened ADF5356Reference
  import opened ADF5356Registers

  datatype Outcome = Ok | ValueError(message: string)

  /** All fourteen registers of the device. */
  ghost predicate Full(device: map<nat, bv32>) {
    forall i :: 0 <= i < 14 ==> i in device
  }

  ghost function Contents(device: map<nat, bv32>): Regs
    requires Full(device)
  {
    seq(14, i requires 0 <= i < 14 => device[i])
  }

  /** The device holds the registers, with `last` in REG0. */
  ghost predicate Holds(device: map<nat, bv32>, regs: Regs, last: bv32) {
    && (forall i :: 1 <= i < 14 ==> i in device && device[i] == regs[i])
    && 0 in device && device[0] == last
  }

  /** The final word of `sync`, with the autocalibration bit set or cleared. */
  function WithAutocal(reg: bv32, on: bool): (last: bv32)
    ensures Number(last) == Number(reg) && UpToAutocal(last, reg, on)
  {
    AutocalKeepsNumber(reg);
    AutocalFrame(reg);
    if on then reg | Autocal(1) else reg & !Autocal(1)
  }

  /** A device that holds the registers up to autocalibration runs their plan. */
  lemma DeviceRunsPlan(device: map<nat, bv32>, regs: Regs, last: bv32, on: bool)
    requires Holds(device, regs, last) && UpToAutocal(last, regs[0], on)
    ensures Full(device) && PlanOf(Contents(device)) == PlanOf(regs)
  {
    AutocalKeepsInt(last, regs[0], on);
  }

  /** The registers stand for a frequency at the output: its divider is the least one that lifts it
      to the VCO range, the PLL is tuned to the result, and the PFD frequency is the highest that is
      allowed. */
  ghost predicate Tuned(sysclk: real, regs: Regs, f: real)
    requires Usable(sysclk, regs)
  {
    DividerSelect(regs) <= 6 && TunedFor(sysclk, regs, f, DividerSelect(regs))
  }

  /** The same for a divider of which the register holds three bits. */
  ghost predicate TunedFor(sysclk: real, regs: Regs, f: real, sel: nat)
    requires Usable(sysclk, regs)
  {
    && Unsigned(CpBleedCurrentGet(regs[6])) == Bleed(PfdOf(sysclk, regs)) && BandStored(regs, PfdOf(sysclk, regs))
    && DividerSelect(regs) == sel % 8 && LeastDivider(f, sel)
    && TunedTo(sysclk, Doubler(regs), DivideByTwo(regs), PfdOf(sysclk, regs), PlanOf(regs), PrescalerGet(regs[0]),
               Lifted(f, sel))
  }

  lemma FewSteps(sysclk: real, regs: Regs, f: real, sel: nat)
    requires Usable(sysclk, regs) && TunedFor(sysclk, regs, f, sel)
    ensures sel <= 6 ==> Tuned(sysclk, regs, f)
  {
    if sel <= 6 {
      assert DividerSelect(regs) == sel;
    }
  }

  ghost predicate TunedTo(sysclk: real, d: nat, t: nat, pfd: int, p: Pll, prescaler: bv32, vco: real)
    requires p.mod2 > 0
  {
    && vco <= MAX_VCO && Close(vco, pfd, p)
    && InRange(p, vco, prescaler)
    && Best(sysclk, d, t, pfd, vco)
  }

  /** The auxiliary fraction is proper and in lowest terms, and INT is in the range of the prescaler. */
  ghost predicate InRange(p: Pll, vco: real, prescaler: bv32) {
    && p.frac2 < p.mod2 && LowestTerms(p.frac2, p.mod2)
    && if vco > 6_000_000_000.0 then prescaler == 1 && 75 <= p.n <= 65535 else prescaler == 0 && 23 <= p.n <= 32767
  }

  /** The plan for an allowed PFD frequency: the range check of `set_frequency` on INT never fails. */
  method PlanFor(vco: real, pfd: int) returns (p: Pll)
    requires MIN_VCO <= vco <= MAX_VCO && pfd >= 333_333 && Allowed(pfd, vco)
    ensures p.n <= 32767 && p.frac1 < MODULUS1 && p.frac2 < p.mod2 <= pfd && Close(vco, pfd, p)
    ensures InRange(p, vco, if vco > 6_000_000_000.0 then 1 else 0)
  {
    p := CalculatePll(vco, pfd);
    IntAtLeast(vco, pfd, 75);
    IntAtLeast(vco, pfd, 23);
    IntAtLeast(vco, pfd, 32768);
  }

  /** REG6 with output A switched on or off. */
  function WithOutput(reg: bv32, on: bool): (w: bv32)
    ensures Number(w) == Number(reg)
    ensures OutputAEnableGet(w) == (if on then 1 else 0) && w & !0x40 == reg & !0x40
  {
    OutputEnableReadBack(reg);
    OutputEnableFrame(reg);
    if on then reg | OutputAEnable(1) else reg & !OutputAEnable(1)
  }

  class ADF5356 {
    const sysclk: real
    const refDoubler: bool
    const refDivider: bool
    var regs: Regs
    /** The last word written to each register of the device. */
    var device: map<nat, bv32>

    ghost predicate Valid()
      reads this
    {
      && Usable(sysclk, regs)
      && Doubler(regs) == (if refDoubler then 1 else 0)
      && DivideByTwo(regs) == (if refDivider then 1 else 0)
    }

    /** The device holds the cached registers; REG0 up to the autocalibration bit, which is set on the
        direct path and cleared after a calibration at half the PFD frequency. */
    ghost predicate Synced()
      reads this
      requires RefCounter(regs) > 0
    {
      && (forall i :: 1 <= i < 14 ==> i in device && device[i] == regs[i])
      && 0 in device && UpToAutocal(device[0], regs[0], PfdOf(sysclk, regs) <= 75_000_000)
    }

    /** `__init__`, for the reference clocks that its assertion accepts. */
    constructor (sysclk: real, refDoubler: bool, refDivider: bool)
      requires Clock(sysclk)
      ensures this.sysclk == sysclk && this.refDoubler == refDoubler && this.refDivider == refDivider
      ensures Valid()
      ensures PlanOf(regs) == Pll(0, 0, 0, 1) && OutputAPowerGet(regs[6]) == 3
      ensures FirstValues(regs) && regs[4] & 0x200 == if sysclk <= 250_000_000.0 then 0 else 0x200
      ensures Unsigned(CpBleedCurrentGet(regs[6])) == Bleed(PfdOf(sysclk, regs))
      ensures BandStored(regs, PfdOf(sysclk, regs))
      ensures forall q: nat :: 0 < q < RefCounter(regs) ==> Pfd(sysclk, q, Doubler(regs), DivideByTwo(regs)) > MAX_PFD
    {
      this.sysclk, this.refDoubler, this.refDivider := sysclk, refDoubler, refDivider;
      device := map[];
      regs := [0, 1, 2, 3, 4, 5, 6, 7, 8, 9, 10, 11, 12, 13];
      new;
      InitRegisters();
    }

    /** `_init_registers`. */
    method InitRegisters()
      requires Clock(sysclk)
      modifies this`regs
      ensures Valid()
      ensures PlanOf(regs) == Pll(0, 0, 0, 1) && OutputAPowerGet(regs[6]) == 3
      ensures FirstValues(regs) && regs[4] & 0x200 == if sysclk <= 250_000_000.0 then 0 else 0x200
      ensures Unsigned(CpBleedCurrentGet(regs[6])) == Bleed(PfdOf(sysclk, regs))
      ensures BandStored(regs, PfdOf(sysclk, regs))
      ensures forall q: nat :: 0 < q < RefCounter(regs) ==> Pfd(sysclk, q, Doubler(regs), DivideByTwo(regs)) > MAX_PFD
    {
      var d, t := if refDoubler then 1 else 0, if refDivider then 1 else 0;
      var r := ComputeReferenceCounter(sysclk, d, t);
      var mode: bv32 := if sysclk <= 250_000_000.0 then 0 else 1;
      var reg4 := FirstReg4(mode, refDoubler, refDivider, r);
      FirstReg4Value(mode, refDoubler, refDivider, r);
      CounterBounds(sysclk, r, d, t);
      regs := FirstRegs(sysclk, reg4, r, d, t);
    }

    /** `write`: the device finds the register number in the word. */
    method Write(data: bv32, ghost i: nat)
      requires Slot(data) == i
      modifies this`device
      ensures device == old(device)[i := data]
    {
      device := device[Slot(data) := data];
    }

    /** A loop of `sync` over a range of registers, from the highest down. */
    method WriteDown(high: nat, low: nat)
      requires Numbered(regs) && 0 < low <= high < 14
      modifies this`device
      ensures forall i :: low <= i <= high ==> i in device && device[i] == regs[i]
      ensures forall i :: i in old(device) && !(low <= i <= high) ==> i in device && device[i] == old(device[i])
    {
      var i := high + 1;
      while i > low
        invariant low <= i <= high + 1
        invariant forall j :: i <= j <= high ==> j in device && device[j] == regs[j]
        invariant forall j :: j in old(device) && !(i <= j <= high) ==> j in device && device[j] == old(device[j])
      {
        i := i - 1;
        Write(regs[i], i);
      }
    }

    /** The first writes of `sync`'s second path, for the words to calibrate with. */
    method WriteCalibration(c: Regs)
      requires Numbered(regs) && Numbered(c) && c[3] == regs[3] && forall i :: 5 <= i < 13 ==> c[i] == regs[i]
      modifies this`device
      ensures Full(device) && Contents(device) == c
    {
      Write(c[13], 13);
      WriteDown(12, 5);
      Write(c[4], 4);
      Write(regs[3], 3);
      Write(c[2], 2);
      Write(c[1], 1);
      Write(c[0], 0);
    }

    /** The last writes of `sync`'s second path. */
    method Relock(last: bv32)
      requires Numbered(regs) && Slot(last) == 0
      requires Full(device) && device[3] == regs[3] && forall i :: 5 <= i < 13 ==> device[i] == regs[i]
      modifies this`device
      ensures Holds(device, regs, last)
    {
      Write(regs[13], 13);
      Write(regs[4], 4);
      Write(regs[2], 2);
      Write(regs[1], 1);
      Write(last, 0);
    }

    /** The first path of `sync`. */
    method WriteAll(last: bv32)
      requires Numbered(regs) && Slot(last) == 0
      modifies this`device
      ensures Holds(device, regs, last)
    {
      WriteDown(13, 1);
      Write(last, 0);
    }

    /** The device is set up to calibrate at half the PFD frequency, for the same VCO frequency. */
    ghost predicate Calibrates(c: Regs)
      reads this
      requires Usable(sysclk, regs)
    {
      && RefCounter(c) == 2 * RefCounter(regs)
      && PfdOf(sysclk, c) == PfdOf(sysclk, regs) / 2
      && PlanOf(c).mod2 > 0
      && Close(VcoOf(sysclk, regs), PfdOf(sysclk, c), PlanOf(c))
    }

    /** `sync`.  `calibrated` is what the device holds when it calibrates on the second path. */
    method Sync() returns (ghost calibrated: Regs)
      requires Usable(sysclk, regs)
      modifies this`device
      ensures Synced()
      ensures Full(device) && PlanOf(Contents(device)) == PlanOf(regs)
      ensures PfdOf(sysclk, regs) > 75_000_000 ==> Calibrates(calibrated)
    {
      calibrated := regs;
      var pfd := PfdOf(sysclk, regs);
      var last := WithAutocal(regs[0], pfd <= 75_000_000);
      if pfd <= 75_000_000 {
        WriteAll(last);
      } else {
        var c := CalibrationWords();
        WriteCalibration(c);
        calibrated := Contents(device);
        Relock(last);
      }
      DeviceRunsPlan(device, regs, last, pfd <= 75_000_000);
    }

    /** The words that `sync` calibrates with. */
    method CalibrationWords() returns (c: Regs)
      requires Usable(sysclk, regs) && PfdOf(sysclk, regs) > 75_000_000
      ensures Numbered(c) && c[3] == regs[3] && forall i :: 5 <= i < 13 ==> c[i] == regs[i]
      ensures Calibrates(c)
    {
      var pfd, vco := PfdOf(sysclk, regs), VcoOf(sysclk, regs);
      PfdBounds(sysclk, regs);
      var p := CalculatePll(vco, pfd / 2);
      IntAtLeast(vco, pfd / 2, 0x1_0000);
      var w, counter := WordsOf(p), Word(2 * RefCounter(regs));
      WordBound10(2 * RefCounter(regs));
      CalibratingPlan(regs, w, counter);
      CalibratingNumbered(regs, w, counter);
      c := Calibrating(regs, w, counter);
      CalibratingPfd(sysclk, regs, c);
    }

    /** Store a MUXOUT setting and write it. */
    method SetMuxout(x: bv32)
      requires Valid() && Synced()
      modifies this
      ensures Valid() && Synced()
      ensures regs == old(regs)[4 := MuxoutUpdate(old(regs)[4], x)]
    {
      MuxoutIsFree(sysclk, regs, x);
      regs := regs[4 := MuxoutUpdate(regs[4], x)];
      Write(regs[4], 4);
    }

    /** `init`.  `high` and `low` are what the MUXOUT line reads when it is driven to VDD and DGND. */
    method Init(blind: bool, high: bool, low: bool) returns (outcome: Outcome)
      requires Valid()
      modifies this
      ensures Valid() && Synced()
      ensures outcome == Ok <==> blind || (high && !low)
      ensures blind ==> regs == old(regs)
      ensures !blind ==>
                regs == old(regs)[4 := MuxoutUpdate(old(regs)[4], if !high then 1 else if low then 2 else 6)]
    {
      ghost var _ := Sync();
      if !blind {
        MuxoutTwice(regs[4], 1, 2);
        MuxoutTwice(regs[4], 2, 6);
        MuxoutTwice(regs[4], 1, 6);
        SetMuxout(1);
        if !high {
          return ValueError("MUXOUT not high");
        }
        SetMuxout(2);
        if low {
          return ValueError("MUXOUT not low");
        }
        SetMuxout(6);
      }
      outcome := Ok;
    }

    /** Store a word in REG6 and commit, as the output settings do. */
    method CommitReg6(w: bv32)
      requires Valid() && Number(w) == Number(regs[6])
      modifies this
      ensures Valid() && Synced()
      ensures regs == old(regs)[6 := w]
    {
      Reg6IsFree(sysclk, regs, w);
      regs := regs[6 := w];
      ghost var _ := Sync();
    }

    /** `set_output_power_mu`. */
    method SetOutputPowerMu(n: int) returns (outcome: Outcome)
      requires Valid()
      modifies this
      ensures Valid()
      ensures outcome == Ok <==> 0 <= n <= 3
      ensures outcome != Ok ==> regs == old(regs) && device == old(device)
      ensures outcome == Ok ==> Synced() && Unsigned(OutputAPowerGet(regs[6])) == n
      ensures regs[6 := 6] == old(regs)[6 := 6] && regs[6] & !0x30 == old(regs)[6] & !0x30
    {
      if n !in [0, 1, 2, 3] {
        return ValueError("invalid power setting");
      }
      PowerWord(n);
      OutputPowerReadBack(regs[6], Word(n));
      OutputPowerFrame(regs[6], Word(n));
      CommitReg6(OutputAPowerUpdate(regs[6], Word(n)));
      outcome := Ok;
    }

    /** `enable_output`. */
    method EnableOutput()
      requires Valid()
      modifies this
      ensures Valid() && Synced()
      ensures regs == old(regs)[6 := regs[6]] && OutputAEnableGet(regs[6]) == 1
      ensures regs[6] & !0x40 == old(regs)[6] & !0x40
    {
      CommitReg6(WithOutput(regs[6], true));
    }

    /** `disable_output`. */
    method DisableOutput()
      requires Valid()
      modifies this
      ensures Valid() && Synced()
      ensures regs == old(regs)[6 := regs[6]] && OutputAEnableGet(regs[6]) == 0
      ensures regs[6] & !0x40 == old(regs)[6] & !0x40
    {
      CommitReg6(WithOutput(regs[6], false));
    }

    /** Store another reference counter. */
    method SetCounter(r: nat)
      requires r <= 1023 && Numbered(regs)
      modifies this`regs
      ensures RefCounter(regs) == r && Numbered(regs)
      ensures Doubler(regs) == old(Doubler(regs)) && DivideByTwo(regs) == old(DivideByTwo(regs))
      ensures regs == old(regs)[4 := regs[4]] && Rest(regs) == Rest(old(regs))
    {
      CounterReadsBack(regs, r);
      CounterRest(regs, Word(r));
      regs := regs[4 := RCounterUpdate(regs[4], Word(r))];
    }

    /** The part of `set_frequency` that chooses the reference counter: the least that is allowed,
        hence the highest PFD frequency that is allowed. */
    method ChooseReference(vco: real)
      requires Valid() && MIN_VCO <= vco <= MAX_VCO
      modifies this`regs
      ensures Referenced(sysclk, regs) && Allowed(PfdOf(sysclk, regs), vco)
      ensures Doubler(regs) == old(Doubler(regs)) && DivideByTwo(regs) == old(DivideByTwo(regs))
      ensures forall q: nat :: 0 < q < RefCounter(regs) ==>
                !Allowed(Pfd(sysclk, q, Doubler(regs), DivideByTwo(regs)), vco)
      ensures regs == old(regs)[4 := regs[4]] && Rest(regs) == Rest(old(regs))
    {
      ghost var was := regs;
      FlagBits(regs);
      var d, t := Doubler(regs), DivideByTwo(regs);
      var r := ComputeReferenceCounter(sysclk, d, t);
      SetCounter(r);
      if vco > 6_000_000_000.0 {
        while (75 * PfdOf(sysclk, regs)) as real > vco
          invariant 0 < RefCounter(regs) <= 15 && Numbered(regs)
          invariant Doubler(regs) == d && DivideByTwo(regs) == t && PfdOf(sysclk, regs) <= MAX_PFD
          invariant regs == was[4 := regs[4]] && Rest(regs) == Rest(was)
          invariant forall q: nat :: 0 < q < RefCounter(regs) ==> !Allowed(Pfd(sysclk, q, d, t), vco)
          decreases 15 - RefCounter(regs)
        {
          r := RefCounter(regs);
          CounterBounds(sysclk, r, d, t);
          PfdFalls(sysclk, r, r + 1, d, t);
          SetCounter(r + 1);
        }
      }
    }

    /** Choose the prescaler. */
    method SetPrescaler(on: bool)
      requires Numbered(regs)
      modifies this`regs
      ensures Numbered(regs) && PrescalerGet(regs[0]) == if on then 1 else 0
      ensures regs == old(regs)[0 := regs[0]] && Rest(regs) == Rest(old(regs))
    {
      NumberedUpdate(regs, 0, WithPrescaler(regs[0], on));
      PrescalerRest(regs, on);
      regs := regs[0 := WithPrescaler(regs[0], on)];
    }

    /** The part of `set_frequency` that stores a plan, field by field. */
    method StorePlan(w: Words, sel: bv32, bleed: bv32, band: bv32)
      modifies this`regs
      ensures regs == Configured(old(regs), w, sel, bleed, band)
    {
      regs := regs[0 := IntValueUpdate(regs[0], w.n)];
      regs := regs[1 := MainFracUpdate(regs[1], w.frac1)];
      regs := regs[2 := AuxFracUpdate(regs[2], w.fracLow)];
      regs := regs[2 := AuxModUpdate(regs[2], w.modLow)];
      regs := regs[13 := AuxFracUpdate(regs[13], w.fracHigh)];
      regs := regs[13 := AuxModUpdate(regs[13], w.modHigh)];
      regs := regs[6 := RfDividerSelectUpdate(regs[6], sel)];
      regs := regs[6 := CpBleedCurrentUpdate(regs[6], bleed)];
      regs := regs[9 := VcoBandDivisionUpdate(regs[9], band)];
    }

    /** Store a plan, the output divider, and the settings that follow the PFD frequency. */
    method Store(p: Pll, sel: nat, pfd: nat)
      requires p.n < 0x1_0000 && p.frac1 < MODULUS1 && p.frac2 < MAX_MODULUS2 && p.mod2 < MAX_MODULUS2
      requires pfd <= MAX_PFD && Numbered(regs)
      modifies this`regs
      ensures PlanOf(regs) == p && DividerSelect(regs) == sel % 8 && regs[4] == old(regs)[4]
      ensures PrescalerGet(regs[0]) == PrescalerGet(old(regs)[0])
      ensures Unsigned(CpBleedCurrentGet(regs[6])) == Bleed(pfd) && BandStored(regs, pfd)
      ensures Numbered(regs) && Rest(regs) == Rest(old(regs))
    {
      var w, s, bleed, band := WordsOf(p), Word(sel % 0x1_0000_0000), Word(Bleed(pfd)), Word(Band(pfd));
      SelectWord(sel);
      BleedFits(pfd);
      ConfiguredReadsBack(regs, w, s, bleed, band);
      ConfiguredKeeps(regs, w, s, bleed, band);
      ConfiguredNumbered(regs, w, s, bleed, band);
      ConfiguredRest(regs, w, s, bleed, band);
      ConfiguredBand(regs, w, s, bleed, pfd);
      StorePlan(w, s, bleed, band);
    }

    /** The part of `set_frequency` that plans the PLL and stores the plan. */
    method Configure(sel: nat, vco: real) returns (p: Pll)
      requires Referenced(sysclk, regs) && Allowed(PfdOf(sysclk, regs), vco) && MIN_VCO <= vco <= MAX_VCO
      requires PrescalerGet(regs[0]) == if vco > 6_000_000_000.0 then 1 else 0
      modifies this`regs
      ensures Usable(sysclk, regs) && regs[4] == old(regs)[4]
      ensures PlanOf(regs) == p && p.mod2 > 0 && Close(vco, PfdOf(sysclk, regs), p)
      ensures DividerSelect(regs) == sel % 8 && InRange(p, vco, PrescalerGet(regs[0]))
      ensures Unsigned(CpBleedCurrentGet(regs[6])) == Bleed(PfdOf(sysclk, regs))
      ensures BandStored(regs, PfdOf(sysclk, regs))
      ensures Rest(regs) == Rest(old(regs))
    {
      var pfd := PfdOf(sysclk, regs);
      ghost var was := regs;
      PfdBounds(sysclk, regs);
      p := PlanFor(vco, pfd);
      Store(p, sel, pfd);
      ConfiguredUsable(sysclk, was, regs, p, vco);
    }

    /** The part of `set_frequency` after its checks of the range. */
    method Tune(f: real, sel: nat, vco: real)
      requires Valid() && LeastDivider(f, sel) && vco == Lifted(f, sel) && MIN_VCO <= vco <= MAX_VCO
      modifies this
      ensures Valid() && Synced() && TunedFor(sysclk, regs, f, sel)
      ensures Rest(regs) == Rest(old(regs))
      ensures OutputAEnableGet(regs[6]) == OutputAEnableGet(old(regs)[6])
      ensures OutputAPowerGet(regs[6]) == OutputAPowerGet(old(regs)[6])
    {
      ChooseReference(vco);
      LeastIsBest(sysclk, RefCounter(regs), Doubler(regs), DivideByTwo(regs), vco);
      SetPrescaler(vco > 6_000_000_000.0);
      var _ := Configure(sel, vco);
      SameRest(regs, old(regs));
      assert TunedTo(sysclk, Doubler(regs), DivideByTwo(regs), PfdOf(sysclk, regs), PlanOf(regs),
                     PrescalerGet(regs[0]), vco);
      ghost var _ := Sync();
    }

    /** `set_frequency`.  It loops forever on a frequency that is not positive.  The check of the lower
        end shifts a 32-bit integer, so it lets targets below about 3.17 Hz pass: they tune the VCO to
        the target times 2^sel, and only three bits of `sel` reach the output divider. */
    method SetFrequency(f: real) returns (outcome: Outcome, ghost sel: nat)
      requires Valid() && f > 0.0
      modifies this
      ensures Valid()
      ensures outcome == Ok <==> 53_125_000.0 <= f <= MAX_VCO || Lifted(f, 30) < MIN_VCO
      ensures outcome != Ok ==> regs == old(regs) && device == old(device)
      ensures outcome == Ok ==> Synced() && TunedFor(sysclk, regs, f, sel)
      ensures outcome == Ok && f >= 53_125_000.0 ==> Tuned(sysclk, regs, f)
      ensures Rest(regs) == Rest(old(regs))
      ensures OutputAEnableGet(regs[6]) == OutputAEnableGet(old(regs)[6])
      ensures OutputAPowerGet(regs[6]) == OutputAPowerGet(old(regs)[6])
    {
      sel := 0;
      if f > MAX_VCO {
        LiftedGrows(f, 0, 30);
        return ValueError("Requested too high frequency"), sel;
      }
      var rfDivSel, vco := SelectDivider(f);
      sel := rfDivSel;
      LowestOutput(f, rfDivSel);
      if ShiftedOne(rfDivSel) > 64 {
        return ValueError("Requested too low frequency"), sel;
      }
      Tune(f, rfDivSel, vco);
      FewSteps(sysclk, regs, f, rfDivSel);
      outcome := Ok;
    }
  }

  lemma PowerWord(n: nat)
    requires n <= 3
    ensures Word(n) <= 3
  {
    UnsignedIsInt(Word(n));
  }
}
