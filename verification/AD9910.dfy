/**
The AD9910 driver (artiq/coredevice/ad9910.py): setting a tone in the three phase modes, reading it
back, and the pipelined RAM read over the SPI bus.  Only the CFR1 phase autoclear bit, the single
tone profiles and the FTW, POW and ASF registers of the device are modelled; the durations of SPI
transfers are constants.
*/
module AD9910Driver {

  import opened PhaseTracking

  datatype Mode = Default | Continuous | Absolute | Tracking

  /** The register that the RAM drives, if any. */
  datatype Destination = NoRam | RamFtw | RamPow | RamAsf | RamPowAsf

  /** `now_mu() & ~7`. */
  function Aligned(now: int): (t: int)
    ensures t % 8 == 0 && t <= now < t + 8
  {
    now - now % 8
  }

  /** The two words of a single tone profile. */
  datatype Profile = Profile(high: int, low: int)

  function Packed(ftw: int, pow: int, asf: int): Profile {
    Profile(Int32(asf * TURN + Low16(pow)), ftw)
  }

  /** `read64`: the low word is sign-extended before it is combined with the high word, so a negative
      one covers the high word with ones. */
  function Read64(p: Profile): int {
    if p.low >= 0 then p.high * WRAP + p.low else p.low
  }

  /** `get_mu`: the frequency, the phase and the amplitude words. */
  function GetMu(p: Profile): (int, int, int) {
    var data := Read64(p);
    (Int32(data), data / WRAP % TURN, data / (WRAP * TURN) % 0x4000)
  }

  /** A tone is read back exactly when its frequency word is below 2^31, or the phase and amplitude
      words are all ones. */
  lemma GetMuReadsBackIff(ftw: int, pow: int, asf: int)
    requires -0x8000_0000 <= ftw < 0x8000_0000
    ensures GetMu(Packed(ftw, pow, asf)) == (ftw, Low16(pow), asf % 0x4000)
            <==> ftw >= 0 || (Low16(pow) == 0xffff && asf % 0x4000 == 0x3fff)
  {
    var p := Packed(ftw, pow, asf);
    if ftw >= 0 {
      PackedFields(pow, asf, p.high);
      HighWord(p.high, ftw);
    }
  }

  lemma PackedFields(pow: int, asf: int, high: int)
    requires high == Int32(asf * TURN + Low16(pow))
    ensures high % TURN == Low16(pow) && high / TURN % 0x4000 == asf % 0x4000
  {
    var k := Wraps(asf * TURN + Low16(pow));
    Halves(asf - TURN * k, Low16(pow));
    SameLow14(asf, k);
  }

  lemma Halves(a: int, r: int)
    requires 0 <= r < TURN
    ensures (a * TURN + r) / TURN == a && (a * TURN + r) % TURN == r
  {
  }

  lemma SameLow14(a: int, k: int)
    ensures (a - TURN * k) % 0x4000 == a % 0x4000
  {
    assert a - TURN * k == a - 0x4000 * (4 * k);
  }

  lemma HighWord(high: int, low: int)
    requires 0 <= low < 0x8000_0000
    ensures Int32(high * WRAP + low) == low
    ensures (high * WRAP + low) / WRAP == high && (high * WRAP + low) / (WRAP * TURN) == high / TURN
  {
    assert Wraps(high * WRAP + low) == high;
  }

  /** The fiducial time stamp that `set_mu` refers the phase to, if there is one. */
  function Since(mode: Mode, refTime: int): int {
    if mode == Tracking && refTime < 0 then 0 else refTime
  }

  /** The phase offset word that `set_mu` stores. */
  function Offset(mode: Mode, pow: int, ftw: int, perMu: int, now: int, refTime: int): int {
    if mode == Continuous || Since(mode, refTime) < 0 then pow
    else Tracked(pow, ftw, perMu, now, Since(mode, refTime))
  }

  /** The stored phase word is that of the computation without wrap-around; and in tracking mode the
      output tracks p + (t - T) f, whenever the accumulator is cleared. */
  lemma OffsetMeaning(mode: Mode, pow: int, ftw: int, perMu: int, now: int, refTime: int, cleared: int)
    ensures Low16(Offset(mode, pow, ftw, perMu, now, refTime))
            == (if mode == Continuous || Since(mode, refTime) < 0 then Low16(pow)
                else Low16(Unbounded(pow, ftw, perMu, now, Since(mode, refTime))))
    ensures mode == Tracking ==>
              Tracks(Offset(mode, pow, ftw, perMu, now, refTime), pow, ftw, perMu, cleared,
                     Since(mode, refTime), cleared - now)
  {
    TrackedIsUnbounded(pow, ftw, perMu, now, Since(mode, refTime));
    TracksPhase(pow, ftw, perMu, now, Since(mode, refTime), cleared);
  }

  class AD9910 {
    /** Sample clock cycles per machine unit. */
    const perMu: int
    const ioUpdateDelay: int
    /** The durations of the register writes; POW has 16 bits, FTW and ASF have 32. */
    const cfr1Time: nat
    const profileTime: nat
    const wordTime: nat
    const powTime: nat

    /** The timeline cursor. */
    var now: int
    var phaseMode: Mode
    /** The registers as written, active from the next IO_UPDATE. */
    var autoclear: bool
    var profiles: map<int, Profile>
    var ftwWord: int
    var powWord: int
    var asfWord: int
    /** When IO_UPDATE last cleared the phase accumulator. */
    var cleared: int

    constructor (perMu: int, ioUpdateDelay: int, cfr1Time: nat, profileTime: nat, wordTime: nat, powTime: nat)
      ensures this.perMu == perMu && this.ioUpdateDelay == ioUpdateDelay && phaseMode == Continuous && !autoclear
    {
      this.perMu, this.ioUpdateDelay := perMu, ioUpdateDelay;
      this.cfr1Time, this.profileTime, this.wordTime, this.powTime := cfr1Time, profileTime, wordTime, powTime;
      now, cleared, phaseMode, autoclear := 0, 0, Continuous, false;
      profiles, ftwWord, powWord, asfWord := map[], 0, 0, 0;
    }

    /** `set_phase_mode`. */
    method SetPhaseMode(mode: Mode)
      modifies this`phaseMode
      ensures phaseMode == mode
    {
      phaseMode := mode;
    }

    /** `set_cfr1`, as `set_mu` calls it. */
    method SetCfr1(clear: bool)
      modifies this`now, this`autoclear
      ensures autoclear == clear && now == old(now) + cfr1Time
    {
      autoclear := clear;
      now := now + cfr1Time;
    }

    /** The IO_UPDATE pulse activates the registers. */
    method Update()
      modifies this`now, this`cleared
      ensures now == old(now) + 8
      ensures cleared == if autoclear then old(now) else old(cleared)
    {
      if autoclear {
        cleared := now;
      }
      now := now + 8;
    }

    /** How long the parameters take to write. */
    function ParameterTime(ram: Destination): nat {
      match ram
      case NoRam => profileTime
      case RamFtw => wordTime + powTime
      case RamPow => 2 * wordTime
      case RamAsf => wordTime + powTime
      case RamPowAsf => wordTime
    }

    /** The part of `set_mu` that writes the parameters: all of them to a profile, or those that the
        RAM does not drive to their own registers. */
    method WriteParameters(ftw: int, pow: int, asf: int, profile: int, ram: Destination)
      modifies this`now, this`profiles, this`ftwWord, this`powWord, this`asfWord
      ensures now == old(now) + ParameterTime(ram)
      ensures profiles == if ram == NoRam then old(profiles)[profile := Packed(ftw, pow, asf)] else old(profiles)
      ensures ftwWord == if ram in {NoRam, RamFtw} then old(ftwWord) else ftw
      ensures asfWord == if ram in {NoRam, RamAsf, RamPowAsf} then old(asfWord) else Int32(asf * 4)
      ensures powWord == if ram in {NoRam, RamPow, RamPowAsf} then old(powWord) else Low16(pow)
    {
      if ram == NoRam {
        profiles := profiles[profile := Packed(ftw, pow, asf)];
        now := now + profileTime;
      } else {
        if ram != RamFtw {
          ftwWord := ftw;
          now := now + wordTime;
        }
        if ram != RamPowAsf {
          if ram != RamAsf {
            asfWord := Int32(asf * 4);
            now := now + wordTime;
          }
          if ram != RamPow {
            powWord := Low16(pow);
            now := now + powTime;
          }
        }
      }
    }

    /** `set_mu`.  The accumulator is cleared by exactly this update if the mode is not continuous, and
        the autoclear bit is never left on.  In tracking mode the output from then on is that of
        p + (t - T) f, within one phase word and with a latency that does not depend on the time. */
    method SetMu(ftw: int, pow: int, asf: int, phase: Mode, refTime: int, profile: int, ram: Destination)
      returns (result: int)
      requires !autoclear
      modifies this
      ensures !autoclear && phaseMode == old(phaseMode)
      ensures
        var mode := if phase == Default then phaseMode else phase;
        var t := Aligned(old(now)) + cfr1Time;
        && result == Offset(mode, pow, ftw, perMu, t, refTime)
        && (if mode == Continuous then cleared == old(cleared) && now % 8 == 0
            else cleared == t + ParameterTime(ram) + ioUpdateDelay && now == Aligned(cleared + 8) + cfr1Time)
        && (mode == Tracking ==>
              Tracks(result, pow, ftw, perMu, cleared, if refTime < 0 then 0 else refTime,
                     ParameterTime(ram) + ioUpdateDelay))
      ensures profiles == if ram == NoRam then old(profiles)[profile := Packed(ftw, result, asf)] else old(profiles)
      ensures ftwWord == if ram in {NoRam, RamFtw} then old(ftwWord) else ftw
      ensures asfWord == if ram in {NoRam, RamAsf, RamPowAsf} then old(asfWord) else Int32(asf * 4)
      ensures powWord == if ram in {NoRam, RamPow, RamPowAsf} then old(powWord) else Low16(result)
    {
      var mode := if phase == Default then phaseMode else phase;
      now := Aligned(now);
      result := pow;
      if mode != Continuous {
        SetCfr1(true);
        var since := if mode == Tracking && refTime < 0 then 0 else refTime;
        if since >= 0 {
          result := Tracked(pow, ftw, perMu, now, since);
        }
      }
      WriteParameters(ftw, result, asf, profile, ram);
      now := now + ioUpdateDelay;
      Update();
      now := Aligned(now);
      if mode != Continuous {
        SetCfr1(false);
      }
      OffsetMeaning(mode, pow, ftw, perMu, Aligned(old(now)) + cfr1Time, refTime, cleared);
    }
  }

  // ----- reading the RAM -----

  /** The SPI core with its input queue.  While input is enabled, every transfer puts the next word
      that the device shifts out into the queue. */
  class SpiBus {
    const shifted: nat -> bv32
    var transfers: nat
    var input: bool
    var queue: seq<bv32>
    /** The most responses that were ever waiting. */
    var peak: nat

    constructor (shifted: nat -> bv32)
      ensures this.shifted == shifted && transfers == 0 && !input && queue == [] && peak == 0
    {
      this.shifted, transfers, input, queue, peak := shifted, 0, false, [], 0;
    }

    method SetConfig(input: bool)
      modifies this`input
      ensures this.input == input
    {
      this.input := input;
    }

    method Write()
      modifies this`transfers, this`queue, this`peak
      ensures queue == if input then old(queue) + [shifted(old(transfers))] else old(queue)
      ensures transfers == if input then old(transfers) + 1 else old(transfers)
      ensures peak == if |queue| > old(peak) then |queue| else old(peak)
    {
      if input {
        queue, transfers := queue + [shifted(transfers)], transfers + 1;
      }
      if |queue| > peak {
        peak := |queue|;
      }
    }

    /** Blocks for ever if no response is on its way. */
    method Read() returns (word: bv32)
      requires queue != []
      modifies this`queue
      ensures old(queue) == [word] + queue
    {
      word, queue := queue[0], queue[1..];
    }
  }

  /** The next words that the device shifts out. */
  function Responses(shifted: nat -> bv32, first: nat, count: nat): seq<bv32> {
    seq(count, k requires 0 <= k => shifted(first + k))
  }

  lemma OneMore(shifted: nat -> bv32, first: nat, count: nat, before: seq<bv32>, taken: nat)
    requires taken <= |before| + count
    ensures (before + Responses(shifted, first, count + 1))[taken..]
            == (before + Responses(shifted, first, count))[taken..] + [shifted(first + count)]
    ensures (before + Responses(shifted, first, count + 1))[..taken]
            == (before + Responses(shifted, first, count))[..taken]
  {
  }

  lemma TakeOne(stream: seq<bv32>, taken: nat, word: bv32, rest: seq<bv32>)
    requires taken < |stream| && stream[taken..] == [word] + rest
    ensures word == stream[taken] && rest == stream[taken + 1..]
  {
    assert stream[taken..][0] == stream[taken];
    assert stream[taken..][1..] == stream[taken + 1..];
  }

  /** After some transfers and reads: what has been read is stored, and the rest is waiting. */
  ghost predicate Progress(shifted: nat -> bv32, first: nat, before: seq<bv32>, transfers: nat, done: nat,
                           data: seq<bv32>, queue: seq<bv32>) {
    var stream := before + Responses(shifted, first, transfers);
    && done <= |data| && done <= |stream|
    && data[..done] == stream[..done]
    && queue == stream[done..]
  }

  /** One transfer: another response is on its way. */
  method Transfer(bus: SpiBus, ghost first: nat, ghost before: seq<bv32>, ghost count: nat, ghost done: nat,
                  ghost data: seq<bv32>)
    requires bus.input && bus.transfers == first + count
    requires Progress(bus.shifted, first, before, count, done, data, bus.queue)
    modifies bus
    ensures bus.input && bus.transfers == first + count + 1
    ensures Progress(bus.shifted, first, before, count + 1, done, data, bus.queue)
    ensures bus.peak <= old(bus.peak) || bus.peak == |before| + count + 1 - done
  {
    OneMore(bus.shifted, first, count, before, done);
    bus.Write();
  }

  /** One read: the next response is stored. */
  method StoreNext(bus: SpiBus, data: array<bv32>, k: nat, ghost first: nat, ghost before: seq<bv32>, ghost count: nat)
    requires k < data.Length && k < |before| + count
    requires Progress(bus.shifted, first, before, count, k, data[..], bus.queue)
    modifies bus`queue, data
    ensures Progress(bus.shifted, first, before, count, k + 1, data[..], bus.queue)
  {
    ghost var stream := before + Responses(bus.shifted, first, count);
    var word := bus.Read();
    TakeOne(stream, k, word, bus.queue);
    data[k] := word;
    assert data[..k + 1] == data[..k] + [word];
    assert stream[..k + 1] == stream[..k] + [word];
  }

  /** `read_ram`.  The words are read in order, after any that were already waiting, with at most nine
      of its own in flight; and none is left behind, except that an empty list leaves one. */
  method ReadRam(bus: SpiBus, data: array<bv32>)
    modifies bus, data
    ensures
      var count := if data.Length == 0 then 1 else data.Length;
      && bus.transfers == old(bus.transfers) + count
      && Progress(bus.shifted, old(bus.transfers), old(bus.queue), count, data.Length, data[..], bus.queue)
      && |bus.queue| == old(|bus.queue|) + count - data.Length
    ensures bus.peak <= old(bus.peak) || bus.peak <= old(|bus.queue|) + 9
  {
    ghost var before, first := bus.queue, bus.transfers;
    bus.SetConfig(false);
    bus.Write();
    var n := data.Length - 1;
    var preload := if n < 8 then n else 8;
    ghost var sent: nat := if n < 0 then 0 else n;
    Begun(bus.shifted, first, before, data[..]);
    if n > 0 {
      bus.SetConfig(true);
      Pipeline(bus, data, n, preload, first, before);
    }
    assert Progress(bus.shifted, first, before, sent, n - preload, data[..], bus.queue);
    bus.SetConfig(true);
    Transfer(bus, first, before, sent, n - preload, data[..]);
    assert |bus.queue| == |before| + sent + 1 - (n - preload);
    Drain(bus, data, n - preload, preload + 1, first, before, sent + 1);
    assert |bus.queue| == |before| + sent + 1 - data.Length;
  }

  /** The first loop of `read_ram`, with a response stored for each transfer after the first few. */
  method Pipeline(bus: SpiBus, data: array<bv32>, n: nat, preload: nat, ghost first: nat, ghost before: seq<bv32>)
    requires preload <= n < data.Length && preload <= 8 && bus.input && bus.transfers == first
    requires Progress(bus.shifted, first, before, 0, 0, data[..], bus.queue)
    modifies bus, data
    ensures bus.transfers == first + n
    ensures Progress(bus.shifted, first, before, n, n - preload, data[..], bus.queue)
    ensures bus.peak <= old(bus.peak) || bus.peak <= |before| + 9
  {
    ghost var done := 0;
    for i := 0 to n
      invariant done == (if i <= preload then 0 else i - preload)
      invariant bus.input && bus.transfers == first + i
      invariant Progress(bus.shifted, first, before, i, done, data[..], bus.queue)
      invariant bus.peak <= old(bus.peak) || bus.peak <= |before| + 9
    {
      Transfer(bus, first, before, i, done, data[..]);
      if i >= preload {
        StoreNext(bus, data, i - preload, first, before, i + 1);
        done := done + 1;
      }
    }
  }

  lemma Begun(shifted: nat -> bv32, first: nat, before: seq<bv32>, data: seq<bv32>)
    ensures Progress(shifted, first, before, 0, 0, data, before)
  {
    assert before + Responses(shifted, first, 0) == before;
  }

  /** The last loop of `read_ram`: the rest of the list is filled from the queue. */
  method Drain(bus: SpiBus, data: array<bv32>, start: nat, count: nat,
               ghost first: nat, ghost before: seq<bv32>, ghost sent: nat)
    requires start + count == data.Length <= |before| + sent
    requires Progress(bus.shifted, first, before, sent, start, data[..], bus.queue)
    modifies bus`queue, data
    ensures Progress(bus.shifted, first, before, sent, data.Length, data[..], bus.queue)
  {
    var i := 0;
    while i < count
      invariant 0 <= i <= count
      invariant Progress(bus.shifted, first, before, sent, start + i, data[..], bus.queue)
    {
      StoreNext(bus, data, start + i, first, before, sent);
      i := i + 1;
    }
  }
}
