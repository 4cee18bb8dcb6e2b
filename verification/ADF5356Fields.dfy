/**
Register fields of the ADF5356 (artiq/coredevice/adf5356_reg.py): reading a field, a word with only
that field set, and replacing a field.  Only the fields that the driver computes with are here.
*/
module ADF5356Fields {

  /** A number as a register word; the driver only packs numbers of up to 28 bits. */
  function Word(n: nat): (w: bv32)
    requires n < 0x1_0000_0000
    ensures Unsigned(w) == n
  {
    if n == 0 then 0
    else
      var h := Word(n / 2);
      Halved(h, n);
      if n % 2 == 1 then (h << 1) | 1 else h << 1
  }

  lemma Halved(h: bv32, n: nat)
    requires n < 0x1_0000_0000 && Unsigned(h) == n / 2
    ensures Unsigned(h << 1) == n / 2 * 2 && Unsigned((h << 1) | 1) == n / 2 * 2 + 1
  {
    UnsignedIsInt(h);
    assert h < 0x8000_0000;
    UnsignedDoubled(h);
    UnsignedDoubledPlusOne(h);
  }

  lemma UnsignedDoubled(h: bv32)
    requires h < 0x8000_0000
    ensures Unsigned(h << 1) == 2 * Unsigned(h)
  {
    UnsignedIsInt(h);
    UnsignedIsInt(h << 1);
    Doubled(h);
  }

  lemma UnsignedDoubledPlusOne(h: bv32)
    requires h < 0x8000_0000
    ensures Unsigned((h << 1) | 1) == 2 * Unsigned(h) + 1
  {
    UnsignedIsInt(h);
    UnsignedIsInt((h << 1) | 1);
    DoubledPlusOne(h);
  }

  lemma Doubled(h: bv32)
    requires h < 0x8000_0000
    ensures (h << 1) as int == 2 * (h as int)
  {
  }

  lemma DoubledPlusOne(h: bv32)
    requires h < 0x8000_0000
    ensures ((h << 1) | 1) as int == 2 * (h as int) + 1
  {
  }

  // REG0

  function IntValueGet(reg: bv32): bv32 { (reg >> 4) & 0xffff }
  function IntValue(x: bv32): bv32 { (x & 0xffff) << 4 }
  function IntValueUpdate(reg: bv32, x: bv32): bv32 { (reg & !(0xffff << 4)) | ((x & 0xffff) << 4) }

  function PrescalerGet(reg: bv32): bv32 { (reg >> 20) & 0x1 }
  function Prescaler(x: bv32): bv32 { (x & 0x1) << 20 }

  function Autocal(x: bv32): bv32 { (x & 0x1) << 21 }

  // REG1

  function MainFracGet(reg: bv32): bv32 { (reg >> 4) & 0xff_ffff }
  function MainFrac(x: bv32): bv32 { (x & 0xff_ffff) << 4 }
  function MainFracUpdate(reg: bv32, x: bv32): bv32 { (reg & !(0xff_ffff << 4)) | ((x & 0xff_ffff) << 4) }

  // REG2 and REG13 share a layout: 14 bits of the auxiliary fraction above 14 bits of its modulus

  function AuxFracGet(reg: bv32): bv32 { (reg >> 18) & 0x3fff }
  function AuxFrac(x: bv32): bv32 { (x & 0x3fff) << 18 }
  function AuxFracUpdate(reg: bv32, x: bv32): bv32 { (reg & !(0x3fff << 18)) | ((x & 0x3fff) << 18) }

  function AuxModGet(reg: bv32): bv32 { (reg >> 4) & 0x3fff }
  function AuxMod(x: bv32): bv32 { (x & 0x3fff) << 4 }
  function AuxModUpdate(reg: bv32, x: bv32): bv32 { (reg & !(0x3fff << 4)) | ((x & 0x3fff) << 4) }

  // REG4

  function RCounterGet(reg: bv32): bv32 { (reg >> 15) & 0x3ff }
  function RCounter(x: bv32): bv32 { (x & 0x3ff) << 15 }
  function RCounterUpdate(reg: bv32, x: bv32): bv32 { (reg & !(0x3ff << 15)) | ((x & 0x3ff) << 15) }

  function RDoublerGet(reg: bv32): bv32 { (reg >> 26) & 0x1 }
  function RDoubler(x: bv32): bv32 { (x & 0x1) << 26 }
  function RDividerGet(reg: bv32): bv32 { (reg >> 25) & 0x1 }
  function RDivider(x: bv32): bv32 { (x & 0x1) << 25 }

  function RefMode(x: bv32): bv32 { (x & 0x1) << 9 }
  function PdPolarity(x: bv32): bv32 { (x & 0x1) << 7 }
  function CurrentSetting(x: bv32): bv32 { (x & 0xf) << 10 }
  function MuxLogic(x: bv32): bv32 { (x & 0x1) << 8 }
  function Muxout(x: bv32): bv32 { (x & 0x7) << 27 }
  function MuxoutGet(reg: bv32): bv32 { (reg >> 27) & 0x7 }
  function MuxoutUpdate(reg: bv32, x: bv32): bv32 { (reg & !(0x7 << 27)) | ((x & 0x7) << 27) }

  // REG6

  function RfDividerSelectGet(reg: bv32): bv32 { (reg >> 21) & 0x7 }
  function RfDividerSelectUpdate(reg: bv32, x: bv32): bv32 { (reg & !(0x7 << 21)) | ((x & 0x7) << 21) }
  function CpBleedCurrentGet(reg: bv32): bv32 { (reg >> 13) & 0xff }
  function CpBleedCurrent(x: bv32): bv32 { (x & 0xff) << 13 }
  function CpBleedCurrentUpdate(reg: bv32, x: bv32): bv32 { (reg & !(0xff << 13)) | ((x & 0xff) << 13) }
  function OutputAEnable(x: bv32): bv32 { (x & 0x1) << 6 }
  function OutputAEnableGet(reg: bv32): bv32 { (reg >> 6) & 0x1 }
  function OutputAPower(x: bv32): bv32 { (x & 0x3) << 4 }
  function OutputAPowerGet(reg: bv32): bv32 { (reg >> 4) & 0x3 }
  function OutputAPowerUpdate(reg: bv32, x: bv32): bv32 { (reg & !(0x3 << 4)) | ((x & 0x3) << 4) }

  function NegativeBleed(x: bv32): bv32 { (x & 0x1) << 29 }
  function FbSelect(x: bv32): bv32 { (x & 0x1) << 24 }
  function MuteTillLd(x: bv32): bv32 { (x & 0x1) << 11 }

  // REG7, REG9 and REG10

  function LeSync(x: bv32): bv32 { (x & 0x1) << 25 }
  function FracNLdPrecision(x: bv32): bv32 { (x & 0x3) << 5 }

  function SynthLockTimeout(x: bv32): bv32 { (x & 0x1f) << 4 }
  function AutocalTimeout(x: bv32): bv32 { (x & 0x1f) << 9 }
  function Timeout(x: bv32): bv32 { (x & 0x3ff) << 14 }
  function VcoBandDivisionGet(reg: bv32): bv32 { (reg >> 24) & 0xff }
  function VcoBandDivision(x: bv32): bv32 { (x & 0xff) << 24 }

  function AdcEnable(x: bv32): bv32 { (x & 0x1) << 4 }
  function AdcClkDiv(x: bv32): bv32 { (x & 0xff) << 6 }
  function AdcConv(x: bv32): bv32 { (x & 0x1) << 5 }

  function VcoBandDivisionUpdate(reg: bv32, x: bv32): bv32 { (reg & !(0xff << 24)) | ((x & 0xff) << 24) }

  /** The register number is in the low four bits. */
  function Number(reg: bv32): bv32 { reg & 0xf }

  // ----- what the updates keep -----

  lemma IntValueReadBack(reg: bv32, x: bv32)
    requires x <= 0xffff
    ensures IntValueGet(IntValueUpdate(reg, x)) == x && IntValueGet(IntValue(x)) == x
    ensures PrescalerGet(IntValueUpdate(reg, x)) == PrescalerGet(reg)
  {
  }

  lemma PrescalerBit(reg: bv32)
    ensures PrescalerGet(reg | Prescaler(1)) == 1 && PrescalerGet(reg & !Prescaler(1)) == 0
    ensures Number(reg | Prescaler(1)) == Number(reg & !Prescaler(1)) == Number(reg)
  {
  }

  lemma MainFracReadBack(reg: bv32, x: bv32)
    requires x <= 0xff_ffff
    ensures MainFracGet(MainFracUpdate(reg, x)) == x
  {
  }

  lemma IntValueKeeps(reg: bv32, x: bv32)
    ensures Number(IntValueUpdate(reg, x)) == Number(reg)
  {
  }

  lemma MainFracKeeps(reg: bv32, x: bv32)
    ensures Number(MainFracUpdate(reg, x)) == Number(reg)
  {
  }

  lemma AuxKeeps(reg: bv32, frac: bv32, mod: bv32)
    ensures Number(AuxModUpdate(AuxFracUpdate(reg, frac), mod)) == Number(reg)
  {
  }

  /** The two halves of an auxiliary register are updated one after the other. */
  lemma AuxReadBack(reg: bv32, frac: bv32, mod: bv32)
    requires frac <= 0x3fff && mod <= 0x3fff
    ensures AuxFracGet(AuxModUpdate(AuxFracUpdate(reg, frac), mod)) == frac
    ensures AuxModGet(AuxModUpdate(AuxFracUpdate(reg, frac), mod)) == mod
  {
  }

  lemma RCounterReadBack(reg: bv32, x: bv32)
    requires x <= 0x3ff
    ensures RCounterGet(RCounterUpdate(reg, x)) == x
    ensures RDoublerGet(RCounterUpdate(reg, x)) == RDoublerGet(reg)
    ensures RDividerGet(RCounterUpdate(reg, x)) == RDividerGet(reg)
    ensures Number(RCounterUpdate(reg, x)) == Number(reg)
  {
  }

  lemma MuxoutKeeps(reg: bv32, x: bv32)
    ensures RCounterGet(MuxoutUpdate(reg, x)) == RCounterGet(reg)
    ensures RDoublerGet(MuxoutUpdate(reg, x)) == RDoublerGet(reg)
    ensures RDividerGet(MuxoutUpdate(reg, x)) == RDividerGet(reg)
    ensures Number(MuxoutUpdate(reg, x)) == Number(reg)
  {
  }

  lemma MuxoutReadBack(reg: bv32, x: bv32)
    requires x <= 7
    ensures MuxoutGet(MuxoutUpdate(reg, x)) == x
    ensures MuxoutUpdate(reg, x) & !0x3800_0000 == reg & !0x3800_0000
  {
  }

  lemma MuxoutTwice(reg: bv32, x: bv32, y: bv32)
    ensures MuxoutUpdate(MuxoutUpdate(reg, x), y) == MuxoutUpdate(reg, y)
  {
  }

  lemma Reg6Updates(reg: bv32, sel: bv32, bleed: bv32)
    ensures RfDividerSelectGet(CpBleedCurrentUpdate(RfDividerSelectUpdate(reg, sel), bleed)) == sel & 7
  {
  }

  lemma Reg6Keeps(reg: bv32, sel: bv32, bleed: bv32)
    ensures Number(CpBleedCurrentUpdate(RfDividerSelectUpdate(reg, sel), bleed)) == Number(reg)
  {
  }

  /** The settings of the output are outside the fields of the divider and the bleed current. */
  lemma OutputFrame(a: bv32, b: bv32)
    requires a & !0xff_e000 == b & !0xff_e000
    ensures OutputAEnableGet(a) == OutputAEnableGet(b) && OutputAPowerGet(a) == OutputAPowerGet(b)
  {
  }

  lemma OutputEnableReadBack(reg: bv32)
    ensures OutputAEnableGet(reg | OutputAEnable(1)) == 1 && OutputAEnableGet(reg & !OutputAEnable(1)) == 0
    ensures Number(reg | OutputAEnable(1)) == Number(reg & !OutputAEnable(1)) == Number(reg)
  {
  }

  lemma OutputEnableFrame(reg: bv32)
    ensures (reg | OutputAEnable(1)) & !0x40 == (reg & !OutputAEnable(1)) & !0x40 == reg & !0x40
  {
  }

  lemma OutputPowerReadBack(reg: bv32, x: bv32)
    requires x <= 3
    ensures OutputAPowerGet(OutputAPowerUpdate(reg, x)) == x && Number(OutputAPowerUpdate(reg, x)) == Number(reg)
  {
  }

  lemma OutputPowerFrame(reg: bv32, x: bv32)
    ensures OutputAPowerUpdate(reg, x) & !0x30 == reg & !0x30
  {
  }

  lemma VcoBandKeeps(reg: bv32, x: bv32)
    ensures Number(VcoBandDivisionUpdate(reg, x)) == Number(reg)
  {
  }

  lemma VcoBandReadBack(reg: bv32, x: bv32)
    ensures VcoBandDivisionGet(VcoBandDivisionUpdate(reg, x)) == x & 0xff
  {
  }

  lemma BleedReadBack(reg: bv32, x: bv32)
    requires x <= 0xff
    ensures CpBleedCurrentGet(CpBleedCurrentUpdate(reg, x)) == x
  {
  }

  // ----- what tuning leaves alone -----

  /** A register without the bits that `set_frequency` may write: INT and the prescaler, FRAC1, the halves
      of FRAC2 and MOD2, the reference counter, the output divider with the bleed current, and the VCO
      band. */
  function Cleared(i: nat, reg: bv32): bv32 {
    if i == 0 then reg & !0x1f_fff0
    else if i == 1 then reg & !0xfff_fff0
    else if i == 2 || i == 13 then reg & !0xffff_fff0
    else if i == 4 then reg & !0x1ff_8000
    else if i == 6 then reg & !0xff_e000
    else if i == 9 then reg & !0xff00_0000
    else reg
  }

  lemma Reg0Frame(reg: bv32, x: bv32)
    ensures Cleared(0, IntValueUpdate(reg, x)) == Cleared(0, reg)
  {
  }

  lemma PrescalerOnFrame(reg: bv32)
    ensures Cleared(0, reg | Prescaler(1)) == Cleared(0, reg)
  {
  }

  lemma PrescalerOffFrame(reg: bv32)
    ensures Cleared(0, reg & !Prescaler(1)) == Cleared(0, reg)
  {
  }

  lemma Reg1Frame(reg: bv32, x: bv32)
    ensures Cleared(1, MainFracUpdate(reg, x)) == Cleared(1, reg)
  {
  }

  lemma AuxFracFrame(reg: bv32, x: bv32, i: nat)
    requires i == 2 || i == 13
    ensures Cleared(i, AuxFracUpdate(reg, x)) == Cleared(i, reg)
  {
  }

  lemma AuxModFrame(reg: bv32, x: bv32, i: nat)
    requires i == 2 || i == 13
    ensures Cleared(i, AuxModUpdate(reg, x)) == Cleared(i, reg)
  {
  }

  lemma Reg4Frame(reg: bv32, x: bv32)
    ensures Cleared(4, RCounterUpdate(reg, x)) == Cleared(4, reg)
  {
    assert RCounterUpdate(reg, x) & !0x1ff_8000 == reg & !0x1ff_8000;
  }

  lemma DividerFrame(reg: bv32, x: bv32)
    ensures Cleared(6, RfDividerSelectUpdate(reg, x)) == Cleared(6, reg)
  {
  }

  lemma BleedFrame(reg: bv32, x: bv32)
    ensures Cleared(6, CpBleedCurrentUpdate(reg, x)) == Cleared(6, reg)
  {
  }

  lemma Reg9Frame(reg: bv32, x: bv32)
    ensures Cleared(9, VcoBandDivisionUpdate(reg, x)) == Cleared(9, reg)
  {
  }

  // ----- words made from scratch -----

  lemma IntValueFresh(n: bv32)
    requires n <= 0xffff
    ensures IntValueGet(IntValue(n) | Autocal(1)) == n
  {
  }

  lemma MainFracFresh(x: bv32)
    requires x <= 0xff_ffff
    ensures MainFracGet(1 | MainFrac(x)) == x
  {
  }

  lemma AuxFresh(number: bv32, frac: bv32, mod: bv32)
    requires number <= 0xf && frac <= 0x3fff && mod <= 0x3fff
    ensures AuxFracGet(number | AuxFrac(frac) | AuxMod(mod)) == frac
    ensures AuxModGet(number | AuxFrac(frac) | AuxMod(mod)) == mod
  {
  }

  lemma AuxFreshSwapped(number: bv32, frac: bv32, mod: bv32)
    requires number <= 0xf && frac <= 0x3fff && mod <= 0x3fff
    ensures AuxFracGet(number | AuxMod(mod) | AuxFrac(frac)) == frac
    ensures AuxModGet(number | AuxMod(mod) | AuxFrac(frac)) == mod
  {
  }

  lemma AutocalKeepsNumber(reg: bv32)
    ensures Number(reg | Autocal(1)) == Number(reg & !Autocal(1)) == Number(reg)
  {
  }

  lemma AutocalFrame(reg: bv32)
    ensures UpToAutocal(reg | Autocal(1), reg, true) && UpToAutocal(reg & !Autocal(1), reg, false)
  {
  }

  /** A word that differs from REG0 at most in bit 21, which says whether the device calibrates itself. */
  predicate UpToAutocal(word: bv32, reg: bv32, on: bool) {
    && word & !0x20_0000 == reg & !0x20_0000
    && word & 0x20_0000 == if on then 0x20_0000 else 0
  }

  lemma AutocalKeepsInt(word: bv32, reg: bv32, on: bool)
    requires UpToAutocal(word, reg, on)
    ensures IntValueGet(word) == IntValueGet(reg)
  {
  }

  // ----- numbers of limited width -----

  lemma WordBound14(n: nat)
    requires n < 0x4000
    ensures Word(n) <= 0x3fff
  {
    UnsignedIsInt(Word(n));
  }

  lemma WordBound16(n: nat)
    requires n < 0x1_0000
    ensures Word(n) <= 0xffff
  {
    UnsignedIsInt(Word(n));
  }

  lemma WordBound24(n: nat)
    requires n < 0x100_0000
    ensures Word(n) <= 0xff_ffff
  {
    UnsignedIsInt(Word(n));
  }

  lemma WordBound10(n: nat)
    requires n < 0x400
    ensures Word(n) <= 0x3ff
  {
    UnsignedIsInt(Word(n));
  }

  lemma WordBound8(n: nat)
    requires n < 0x100
    ensures Word(n) <= 0xff
  {
    UnsignedIsInt(Word(n));
  }

  // A field of three or of eight bits keeps a number modulo 8 or 256.

  lemma LowOne(x: bv32)
    ensures Unsigned(x & 1) == Unsigned(x) % 2
  {
    Bit(x);
    UnsignedHalf(x);
    Remainder2(Unsigned(x >> 1), if x & 1 == 1 then 1 else 0);
    assert Unsigned(0) == 0 && Unsigned(1) == 1;
  }

  lemma LowTwo(x: bv32)
    ensures Unsigned(x & 3) == Unsigned(x) % 4
  {
    LowOne(x >> 1);
    assert (x & 3) >> 1 == (x >> 1) & 1 && (x & 3) & 1 == x & 1;
    LowNext(x, x & 3, x >> 1, (x >> 1) & 1, 2);
  }

  lemma LowThree(x: bv32)
    ensures Unsigned(x & 7) == Unsigned(x) % 8
  {
    LowTwo(x >> 1);
    assert (x & 7) >> 1 == (x >> 1) & 3 && (x & 7) & 1 == x & 1;
    LowNext(x, x & 7, x >> 1, (x >> 1) & 3, 4);
  }

  lemma LowFour(x: bv32)
    ensures Unsigned(x & 15) == Unsigned(x) % 16
  {
    LowThree(x >> 1);
    assert (x & 15) >> 1 == (x >> 1) & 7 && (x & 15) & 1 == x & 1;
    LowNext(x, x & 15, x >> 1, (x >> 1) & 7, 8);
  }

  lemma LowFive(x: bv32)
    ensures Unsigned(x & 31) == Unsigned(x) % 32
  {
    LowFour(x >> 1);
    assert (x & 31) >> 1 == (x >> 1) & 15 && (x & 31) & 1 == x & 1;
    LowNext(x, x & 31, x >> 1, (x >> 1) & 15, 16);
  }

  lemma LowSix(x: bv32)
    ensures Unsigned(x & 63) == Unsigned(x) % 64
  {
    LowFive(x >> 1);
    assert (x & 63) >> 1 == (x >> 1) & 31 && (x & 63) & 1 == x & 1;
    LowNext(x, x & 63, x >> 1, (x >> 1) & 31, 32);
  }

  lemma LowSeven(x: bv32)
    ensures Unsigned(x & 127) == Unsigned(x) % 128
  {
    LowSix(x >> 1);
    assert (x & 127) >> 1 == (x >> 1) & 63 && (x & 127) & 1 == x & 1;
    LowNext(x, x & 127, x >> 1, (x >> 1) & 63, 64);
  }

  lemma LowEight(x: bv32)
    ensures Unsigned(x & 255) == Unsigned(x) % 256
  {
    LowSeven(x >> 1);
    assert (x & 255) >> 1 == (x >> 1) & 127 && (x & 255) & 1 == x & 1;
    LowNext(x, x & 255, x >> 1, (x >> 1) & 127, 128);
  }

  lemma LowNext(x: bv32, low: bv32, xHalf: bv32, lowHalf: bv32, p: nat)
    requires xHalf == x >> 1 && lowHalf == low >> 1 && low & 1 == x & 1
    requires p > 0 && Unsigned(lowHalf) == Unsigned(xHalf) % p
    ensures Unsigned(low) == Unsigned(x) % (2 * p)
  {
    UnsignedHalf(x);
    UnsignedHalf(low);
    RemainderNext(Unsigned(xHalf), if x & 1 == 1 then 1 else 0, p);
  }

  lemma Remainder2(k: nat, b: nat)
    requires b <= 1
    ensures (2 * k + b) % 2 == b
  {
  }

  lemma RemainderNext(k: nat, b: nat, p: nat)
    requires b <= 1 && p > 0
    ensures (2 * k + b) % (2 * p) == 2 * (k % p) + b
  {
    Remainder(2 * k + b, 2 * p, k / p, 2 * (k % p) + b);
  }

  lemma Remainder(n: nat, d: nat, q: nat, r: nat)
    requires r < d && n == d * q + r
    ensures n % d == r
  {
    var e := n / d - q;
    assert e * d == r - n % d;
  }

  lemma UnsignedHalf(x: bv32)
    ensures Unsigned(x) == 2 * Unsigned(x >> 1) + if x & 1 == 1 then 1 else 0
  {
    if x == 0 {
      assert x >> 1 == 0;
    }
  }

  /** Joining the halves of a 28-bit number. */
  function Joined(msb: bv32, lsb: bv32): bv32 { (msb << 14) | lsb }

  lemma JoinedValue(msb: bv32, lsb: bv32)
    requires msb <= 0x3fff && lsb <= 0x3fff
    ensures Unsigned(Joined(msb, lsb)) == Unsigned(msb) * 0x4000 + Unsigned(lsb)
  {
    UnsignedIsInt(msb);
    UnsignedIsInt(lsb);
    UnsignedIsInt(Joined(msb, lsb));
    Narrowed(msb);
    Narrowed(lsb);
    JoinedInt(msb as bv14, lsb as bv14);
  }

  lemma Narrowed(x: bv32)
    requires x <= 0x3fff
    ensures (x as bv14) as bv32 == x && (x as bv14) as int == x as int
  {
  }

  lemma JoinedInt(m: bv14, l: bv14)
    ensures (((m as bv32) << 14) | (l as bv32)) as int == 0x4000 * (m as int) + (l as int)
  {
  }

  /** The number that the bits of a word stand for. */
  function Unsigned(x: bv32): nat
    decreases x as int
  {
    if x == 0 then 0
    else
      Smaller(x);
      2 * Unsigned(x >> 1) + if x & 1 == 1 then 1 else 0
  }

  lemma Smaller(x: bv32)
    requires x != 0
    ensures (x >> 1) as int < x as int
  {
    Bit(x);
    if x & 1 == 0 {
      EvenHalf(x, x >> 1);
    } else {
      OddHalf(x, x >> 1);
    }
  }

  lemma Bit(x: bv32)
    ensures x & 1 == 0 || x & 1 == 1
  {
  }

  lemma EvenHalf(x: bv32, h: bv32)
    requires x & 1 == 0 && h == x >> 1
    ensures x as int == 2 * (h as int)
  {
    assert x == h << 1 && h < 0x8000_0000;
    Doubled(h);
  }

  lemma OddHalf(x: bv32, h: bv32)
    requires x & 1 == 1 && h == x >> 1
    ensures x as int == 2 * (h as int) + 1
  {
    assert x == (h << 1) | 1 && h < 0x8000_0000;
    DoubledPlusOne(h);
  }

  lemma {:induction false} UnsignedIsInt(x: bv32)
    ensures Unsigned(x) == x as int
    decreases x as int
  {
    if x != 0 {
      Smaller(x);
      UnsignedIsInt(x >> 1);
      Bit(x);
      if x & 1 == 0 {
        EvenHalf(x, x >> 1);
      } else {
        OddHalf(x, x >> 1);
      }
    }
  }
}
