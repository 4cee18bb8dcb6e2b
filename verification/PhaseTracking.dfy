/**
The phase arithmetic of the AD9910 driver (artiq/coredevice/ad9910.py, `set_mu`): 32-bit words that
wrap around, and the phase that they stand for.
*/
module PhaseTracking {

  const WRAP := 0x1_0000_0000
  const TURN := 0x1_0000

  /** A number as a signed 32-bit word. */
  function Int32(x: int): (w: int)
    ensures -0x8000_0000 <= w < 0x8000_0000 && x == w + WRAP * Wraps(x)
  {
    x - WRAP * Wraps(x)
  }

  function Wraps(x: int): int { (x + 0x8000_0000) / WRAP }

  /** The low 16 bits, which are the phase offset word of the device. */
  function Low16(x: int): (p: int)
    ensures 0 <= p < TURN
  {
    x % TURN
  }

  /** The phase offset as the driver computes it, in 32-bit arithmetic throughout.  The shift of a
      signed word rounds down. */
  function Tracked(pow: int, ftw: int, perMu: int, now: int, since: int): int {
    var dt := Int32(Int32(now) - Int32(since));
    Int32(pow + Int32(Int32(dt * ftw) * perMu) / TURN)
  }

  /** The same without any wrap-around. */
  function Unbounded(pow: int, ftw: int, perMu: int, now: int, since: int): int {
    pow + (now - since) * ftw * perMu / TURN
  }

  /** Two numbers that differ by a multiple of 2^32. */
  ghost predicate Same32(x: int, y: int, k: int) {
    x == y + WRAP * k
  }

  lemma Times32(x: int, y: int, k: int, f: int)
    requires Same32(x, y, k)
    ensures Same32(x * f, y * f, k * f)
  {
  }

  /** A 32-bit word of a product of a word. */
  lemma WrappedProduct(x: int, y: int, k: int, f: int) returns (j: int)
    requires Same32(x, y, k)
    ensures Same32(Int32(x * f), y * f, j)
  {
    Times32(x, y, k, f);
    j := k * f - Wraps(x * f);
  }

  lemma ShiftedTurns(x: int, y: int, k: int)
    requires Same32(x, y, k)
    ensures x / TURN == y / TURN + TURN * k
  {
  }

  lemma SameLow16(x: int, y: int, k: int)
    requires x == y + TURN * k
    ensures Low16(x) == Low16(y)
  {
  }

  /** The product that the driver computes, up to a multiple of 2^32. */
  lemma ProductWord(ftw: int, perMu: int, now: int, since: int) returns (dt: int, j: int)
    ensures dt == Int32(Int32(now) - Int32(since))
    ensures Same32(Int32(Int32(dt * ftw) * perMu), (now - since) * ftw * perMu, j)
  {
    dt := Int32(Int32(now) - Int32(since));
    var k := Wraps(since) - Wraps(now) - Wraps(Int32(now) - Int32(since));
    assert Same32(dt, now - since, k);
    var i := WrappedProduct(dt, now - since, k, ftw);
    j := WrappedProduct(Int32(dt * ftw), (now - since) * ftw, i, perMu);
  }

  lemma SameWord(x: int, y: int, k: int)
    requires Same32(x, y, k) && -0x8000_0000 <= x < 0x8000_0000
    ensures x == Int32(y)
  {
    assert x - Int32(y) == WRAP * (k + Wraps(y));
  }

  /** Wrapping around once, after the multiplications, gives the same offset. */
  lemma TrackedIsExact(pow: int, ftw: int, perMu: int, now: int, since: int)
    ensures Tracked(pow, ftw, perMu, now, since) == Int32(pow + Int32((now - since) * ftw * perMu) / TURN)
  {
    var dt, j := ProductWord(ftw, perMu, now, since);
    SameWord(Int32(Int32(dt * ftw) * perMu), (now - since) * ftw * perMu, j);
  }

  /** Wrapping around at 32 bits does not change the phase word, for all times. */
  lemma TrackedIsUnbounded(pow: int, ftw: int, perMu: int, now: int, since: int)
    ensures Low16(Tracked(pow, ftw, perMu, now, since)) == Low16(Unbounded(pow, ftw, perMu, now, since))
  {
    var dt, j := ProductWord(ftw, perMu, now, since);
    var x, y := Int32(Int32(dt * ftw) * perMu), (now - since) * ftw * perMu;
    ShiftedTurns(x, y, j);
    var sum := pow + x / TURN;
    SameLow16(Int32(sum), pow + y / TURN, j - TURN * Wraps(sum));
  }

  // ----- the output phase, in phase words -----

  /** A phase with whole turns added. */
  function Turned(phase: real, turns: int): real {
    phase + (TURN * turns) as real
  }

  /** Modulo whole turns, a phase lags behind another by less than one phase word. */
  ghost predicate WithinStep(phase: real, ideal: real) {
    exists turns: int :: 0.0 <= ideal - Turned(phase, turns) < 1.0
  }

  /** The phase that has accumulated after a number of machine units at a frequency. */
  function Accumulated(ftw: int, perMu: int, duration: int): real {
    (duration * ftw * perMu) as real / TURN as real
  }

  /** A DDS whose accumulator was cleared when its offset became `pow`. */
  function Output(pow: int, ftw: int, perMu: int, cleared: int, time: int): real {
    Low16(pow) as real + Accumulated(ftw, perMu, time - cleared)
  }

  /** The phase that tracking promises: the offset plus the frequency times the time since the
      fiducial time stamp. */
  function Coherent(pow: int, ftw: int, perMu: int, since: int, time: int): real {
    pow as real + Accumulated(ftw, perMu, time - since)
  }

  lemma AccumulatedSum(ftw: int, perMu: int, a: int, b: int)
    ensures Accumulated(ftw, perMu, a + b) == Accumulated(ftw, perMu, a) + Accumulated(ftw, perMu, b)
  {
  }

  lemma RoundedDown(x: int)
    ensures 0.0 <= x as real / TURN as real - (x / TURN) as real < 1.0
  {
  }

  /** The output lags behind the promise by a fixed latency, and is then within one phase word of it, at
      every time. */
  ghost predicate Tracks(result: int, pow: int, ftw: int, perMu: int, cleared: int, since: int, latency: int) {
    forall time: int ::
      WithinStep(Output(result, ftw, perMu, cleared, time), Coherent(pow, ftw, perMu, since, time - latency))
  }

  /** In tracking mode the output phase stays within one phase word of p + (t - T) f, at every time.  The
      accumulator may be cleared at any later time than the one that the offset was computed for: the
      difference is a latency of the output, and the same for all times. */
  lemma TracksPhase(pow: int, ftw: int, perMu: int, now: int, since: int, cleared: int)
    ensures Tracks(Tracked(pow, ftw, perMu, now, since), pow, ftw, perMu, cleared, since, cleared - now)
  {
    TrackedIsUnbounded(pow, ftw, perMu, now, since);
    var unbounded := Unbounded(pow, ftw, perMu, now, since);
    RoundedDown((now - since) * ftw * perMu);
    var turns := unbounded / TURN;
    assert Low16(unbounded) + TURN * turns == unbounded;
    forall time: int
      ensures WithinStep(Output(Tracked(pow, ftw, perMu, now, since), ftw, perMu, cleared, time),
                         Coherent(pow, ftw, perMu, since, time - (cleared - now)))
    {
      AccumulatedSum(ftw, perMu, now - since, time - cleared);
      assert now - since + (time - cleared) == time - (cleared - now) - since;
      var phase := Output(Tracked(pow, ftw, perMu, now, since), ftw, perMu, cleared, time);
      assert Turned(phase, turns) == unbounded as real + Accumulated(ftw, perMu, time - cleared);
    }
  }
}
