/**
 The ACPI power management timer: stalls measured with a free-running counter of 24 or 32 bits.
 `samples` are the true times, in ticks, at which the counter is read; the hardware shows each of them
 modulo the counter's width. A result of None means that the given samples did not end the stall.
 */
module AcpiTimer {
  import opened Machine

  const FREQUENCY: nat := 3579545
  const NANOSECONDS: nat := 1000000000

  /** Register widths with their period. */
  predicate Width(width: nat, period: nat) {
    (width == 24 && period == 0x100_0000) || (width == 32 && period == 0x1_0000_0000)
  }

  ghost predicate Ordered(samples: seq<nat>) {
    forall i, j :: 0 <= i <= j < |samples| ==> samples[i] <= samples[j]
  }

  /** The counter is read at least every `gap` ticks. */
  ghost predicate SampledEvery(samples: seq<nat>, gap: nat) {
    forall i {:trigger samples[i]} :: 0 < i < |samples| ==> samples[i] <= samples[i - 1] + gap
  }

  /** The expiry test: the top counter bit of the 32-bit difference. */
  predicate Expired(period: nat, ticks: nat, counter: nat)
    requires period > 1
  {
    ((ticks - counter) % U32) / (period / 2) % 2 == 1
  }

  /** The tested bit of a 32-bit value only depends on the value modulo the period. */
  lemma TopBit(period: nat, k: int, rest: nat)
    requires period == 0x100_0000 || period == 0x1_0000_0000
    requires rest < period && 0 <= k * period + rest
    ensures (k * period + rest) / (period / 2) % 2 == (if rest >= period / 2 then 1 else 0)
  {
    var bit := if rest >= period / 2 then 1 else 0;
    var half := period / 2;
    assert period == 2 * half;
    assert k * (2 * half) == (2 * k) * half;
    assert (2 * k + bit) * half == (2 * k) * half + bit * half;
    DivModUnique(k * period + rest, 2 * k + bit, rest - bit * half, half);
    DivModUnique(2 * k + bit, k, bit, 2);
  }

  /** Within half a period around the target the test is exact, whatever wraps in between. */
  lemma ExpiredExactly(width: nat, period: nat, begin: nat, delay: nat, now: nat)
    requires Width(width, period) && delay <= period / 4
    requires begin <= now <= begin + delay + period / 2
    ensures Expired(period, (begin % period + delay) % U32, now % period) <==> now > begin + delay
  {
    var borrow := if begin + delay < now then 1 else 0;
    var rest := begin + delay - now + borrow * period;
    var turns := now / period - begin / period;
    assert 0 <= rest < period;
    if width == 24 {
      ExpiredShort(begin, delay, now, rest, turns, borrow);
    } else {
      ExpiredLong(begin, delay, now, rest, turns, borrow);
    }
  }

  lemma ExpiredShort(begin: nat, delay: nat, now: nat, rest: nat, turns: int, borrow: nat)
    requires delay <= 0x40_0000 && rest < 0x100_0000 && borrow <= 1
    requires rest == begin + delay - now + borrow * 0x100_0000
    requires turns == now / 0x100_0000 - begin / 0x100_0000
    ensures Expired(0x100_0000, (begin % 0x100_0000 + delay) % U32, now % 0x100_0000) <==> rest >= 0x80_0000
  {
    var ticks := (begin % 0x100_0000 + delay) % U32;
    assert ticks == begin % 0x100_0000 + delay;
    var exact := ticks - now % 0x100_0000;
    assert exact == (turns - borrow) * 0x100_0000 + rest;
    var k := turns - borrow - 256 * (exact / U32);
    assert exact % U32 == k * 0x100_0000 + rest;
    TopBit(0x100_0000, k, rest);
  }

  lemma ExpiredLong(begin: nat, delay: nat, now: nat, rest: nat, turns: int, borrow: nat)
    requires delay <= 0x4000_0000 && rest < U32 && borrow <= 1
    requires rest == begin + delay - now + borrow * U32
    requires turns == now / U32 - begin / U32
    ensures Expired(U32, (begin % U32 + delay) % U32, now % U32) <==> rest >= 0x8000_0000
  {
    var lap := (begin % U32 + delay) / U32;
    var exact := (begin % U32 + delay) % U32 - now % U32;
    assert exact == (turns - borrow - lap) * U32 + rest;
    DivModUnique(exact, turns - borrow - lap, rest, U32);
    TopBit(U32, 0, rest);
  }

  /** One round of the outer loop, starting with the read at `from`. */
  method Wait(width: nat, period: nat, delay: nat, samples: seq<nat>, from: nat, ghost gap: nat) returns (next: Option<nat>)
    requires Width(width, period) && delay <= period / 4
    requires Ordered(samples) && from <= |samples|
    ensures next.Some? ==>
              && from + 2 <= next.value <= |samples|
              && samples[next.value - 1] > samples[from] + delay
              && (SampledEvery(samples, gap) && gap <= period / 2 ==> samples[next.value - 1] <= samples[from] + delay + gap)
    ensures next.None? && from < |samples| && SampledEvery(samples, gap) && gap <= period / 2 ==>
              samples[|samples| - 1] <= samples[from] + delay
  {
    if from == |samples| {
      return None;
    }
    var ticks := (samples[from] % period + delay) % U32;
    for k := from + 1 to |samples|
      invariant SampledEvery(samples, gap) && gap <= period / 2 ==> samples[k - 1] <= samples[from] + delay
    {
      if SampledInTime(samples, from, delay, period, k) {
        ExpiredExactly(width, period, samples[from], delay, samples[k]);
      }
      if Expired(period, ticks, samples[k] % period) {
        return Some(k + 1);
      }
    }
    return None;
  }

  ghost predicate SampledInTime(samples: seq<nat>, from: nat, delay: nat, period: nat, k: nat)
    requires from <= k < |samples|
  {
    samples[from] <= samples[k] <= samples[from] + delay + period / 2
  }

  /** Lateness of a stall with `rounds` full rounds when the counter is read every `gap` ticks. */
  ghost function Overshoot(rounds: nat, gap: nat): nat {
    if rounds == 0 then gap else Overshoot(rounds - 1, gap) + 2 * gap
  }

  ghost function Total(rounds: nat, unit: nat): nat {
    if rounds == 0 then 0 else Total(rounds - 1, unit) + unit
  }

  lemma {:induction false} TotalIsProduct(rounds: nat, unit: nat)
    ensures Total(rounds, unit) == rounds * unit
  {
    if rounds > 0 {
      TotalIsProduct(rounds - 1, unit);
      assert rounds * unit == (rounds - 1) * unit + unit;
    }
  }

  lemma SplitDelay(delay: nat, unit: nat)
    requires unit > 0
    ensures delay % unit + Total(delay / unit, unit) == delay && delay % unit < unit
  {
    TotalIsProduct(delay / unit, unit);
  }

  lemma {:induction false} OvershootFormula(rounds: nat, gap: nat)
    ensures Overshoot(rounds, gap) == (2 * rounds + 1) * gap
  {
    if rounds > 0 {
      OvershootFormula(rounds - 1, gap);
      assert (2 * rounds + 1) * gap == (2 * (rounds - 1) + 1) * gap + 2 * gap;
    }
  }

  /**
   InternalAcpiDelay: it returns only after more than `delay` ticks, for every delay, every starting
   count and however rarely the counter is read; read at least every half period, it returns in time.
   */
  method AcpiDelay(width: nat, period: nat, delay: nat, samples: seq<nat>, ghost gap: nat) returns (read: Option<nat>)
    requires Width(width, period) && delay < U32 && Ordered(samples)
    ensures read.Some? ==>
              && 2 <= read.value <= |samples|
              && samples[read.value - 1] - samples[0] > delay
    ensures read.Some? && SampledEvery(samples, gap) && gap <= period / 2 ==>
              samples[read.value - 1] - samples[0] <= delay + Overshoot(delay / (period / 4), gap)
    ensures read.None? && samples != [] && SampledEvery(samples, gap) && gap <= period / 2 ==>
              samples[|samples| - 1] - samples[0] <= delay + Overshoot(delay / (period / 4), gap)
  {
    var unit := period / 4;
    SplitDelay(delay, unit);
    read := WaitRounds(width, period, unit, delay % unit, delay / unit, samples, gap);
  }

  /** The outer loop: one partial wait, then `times` full ones. */
  method WaitRounds(width: nat, period: nat, unit: nat, part: nat, times: nat, samples: seq<nat>, ghost gap: nat)
      returns (read: Option<nat>)
    requires Width(width, period) && unit == period / 4 && part <= unit && Ordered(samples)
    ensures read.Some? ==>
              && 2 <= read.value <= |samples|
              && samples[read.value - 1] - samples[0] > part + Total(times, unit)
    ensures read.Some? && SampledEvery(samples, gap) && gap <= period / 2 ==>
              samples[read.value - 1] - samples[0] <= part + Total(times, unit) + Overshoot(times, gap)
    ensures read.None? && samples != [] && SampledEvery(samples, gap) && gap <= period / 2 ==>
              samples[|samples| - 1] - samples[0] <= part + Total(times, unit) + Overshoot(times, gap)
  {
    read := Wait(width, period, part, samples, 0, gap);
    ghost var prompt := SampledEvery(samples, gap) && gap <= period / 2;
    for round := 0 to times
      invariant read.Some? ==>
                  && 2 <= read.value <= |samples|
                  && samples[read.value - 1] - samples[0] > part + Total(round, unit)
                  && (prompt ==> samples[read.value - 1] - samples[0] <= part + Total(round, unit) + Overshoot(round, gap))
      invariant read.None? && samples != [] && prompt ==>
                  samples[|samples| - 1] - samples[0] <= part + Total(round, unit) + Overshoot(round, gap)
    {
      if read.Some? {
        var from := read.value;
        assert prompt && from < |samples| ==> samples[from] <= samples[from - 1] + gap;
        assert from < |samples| ==> samples[from - 1] <= samples[from];
        read := Wait(width, period, unit, samples, from, gap);
      }
    }
  }

  /** GetTimeInNanoSecond is exact up to the 64-bit wrap of its result. */
  function NanoSeconds(ticks: nat): (time: nat)
    ensures time == (ticks * NANOSECONDS / FREQUENCY) % U64
  {
    var seconds := (ticks / FREQUENCY * NANOSECONDS) % U64;
    var rest := (ticks % FREQUENCY) * NANOSECONDS % U64 / FREQUENCY;
    NanoSecondsExact(ticks);
    (seconds + rest) % U64
  }

  lemma NanoSecondsExact(ticks: nat)
    ensures ((ticks / FREQUENCY * NANOSECONDS) % U64 + (ticks % FREQUENCY) * NANOSECONDS % U64 / FREQUENCY) % U64
            == (ticks * NANOSECONDS / FREQUENCY) % U64
  {
    var q, r := ticks / FREQUENCY, ticks % FREQUENCY;
    assert r * NANOSECONDS < U64;
    assert ticks * NANOSECONDS == (q * NANOSECONDS + r * NANOSECONDS / FREQUENCY) * FREQUENCY + r * NANOSECONDS % FREQUENCY;
    DivModUnique(ticks * NANOSECONDS, q * NANOSECONDS + r * NANOSECONDS / FREQUENCY, r * NANOSECONDS % FREQUENCY, FREQUENCY);
    ModAdd(q * NANOSECONDS, r * NANOSECONDS / FREQUENCY, U64);
  }
}
