/** The pulse renderer: `flash_led` blinks one LED a counted number of times
    at a frequency between 1 and 4 Hz. GPIO writes and sleeps are recorded as
    a trace of effects; whether each write succeeds comes from an oracle. */
module Pulse {

  /** The four output LEDs (devicetree aliases led0 .. led3). */
  datatype Led = Led0 | Led1 | Led2 | Led3

  /** One observable effect: a GPIO write of a logic level to an LED, or a
      sleep of a number of milliseconds. A write that the driver rejected is
      still recorded: the call was made. */
  datatype Effect = Set(led: Led, level: int) | Sleep(ms: int)

  /** What one call of `flash_led` returns, with the effects it caused. */
  datatype Flash = Flash(code: int, trace: seq<Effect>)

  /** The driver's answer to GPIO write number `k` (counted from 0):
      true when `gpio_pin_set_dt` returns a non-negative value. */
  type GpioOracle = nat -> bool

  /** Return codes of `flash_led`. */
  const Success: int := 0
  const Failure: int := -1

  /** Bounds on the blink frequency, in Hz. */
  const MinFrequency: int := 1
  const MaxFrequency: int := 4

  const MsPerSecond: int := 1000

  predicate ValidFrequency(f: int) {
    MinFrequency <= f <= MaxFrequency
  }

  /** The blink period in milliseconds. The operands are positive, so
      Dafny's division agrees with C's truncating division. */
  function PeriodMs(f: int): (p: int)
    requires ValidFrequency(f)
    ensures MsPerSecond / MaxFrequency <= p <= MsPerSecond
  {
    MsPerSecond / f
  }

  /** Each pulse sleeps half a period after each of its two writes. */
  function HalfPeriodMs(f: int): (h: int)
    requires ValidFrequency(f)
    ensures 0 < h && h * 2 <= PeriodMs(f) < h * 2 + 2
  {
    PeriodMs(f) / 2
  }

  /** One pulse: LED on, hold, LED off, hold. */
  function PulseEffects(led: Led, half: int): seq<Effect> {
    [Set(led, 1), Sleep(half), Set(led, 0), Sleep(half)]
  }

  /** The effects of `n` complete pulses, with no write failing. */
  function FullTrace(led: Led, half: int, n: nat): (t: seq<Effect>)
    ensures |t| == 4 * n
  {
    if n == 0 then [] else FullTrace(led, half, n - 1) + PulseEffects(led, half)
  }

  /** Element `i` of the complete pulses is element `i % 4` of one pulse. */
  lemma {:induction false} FullTraceAt(led: Led, half: int, n: nat, i: nat)
    requires i < 4 * n
    ensures FullTrace(led, half, n)[i] == PulseEffects(led, half)[i % 4]
  {
    var prev := FullTrace(led, half, n - 1);
    if i < |prev| {
      FullTraceAt(led, half, n - 1, i);
    } else {
      assert i % 4 == i - |prev|;
    }
  }

  /** The number of GPIO writes in a trace. */
  function Writes(t: seq<Effect>): nat {
    if t == [] then 0 else (if t[0].Set? then 1 else 0) + Writes(t[1..])
  }

  /** The total sleeping time of a trace, in milliseconds. */
  function SleepTotal(t: seq<Effect>): int {
    if t == [] then 0 else (if t[0].Sleep? then t[0].ms else 0) + SleepTotal(t[1..])
  }

  lemma {:induction false} WritesAppend(a: seq<Effect>, b: seq<Effect>)
    ensures Writes(a + b) == Writes(a) + Writes(b)
  {
    if a == [] {
      assert a + b == b;
    } else {
      assert (a + b)[1..] == a[1..] + b;
      WritesAppend(a[1..], b);
    }
  }

  lemma {:induction false} SleepTotalAppend(a: seq<Effect>, b: seq<Effect>)
    ensures SleepTotal(a + b) == SleepTotal(a) + SleepTotal(b)
  {
    if a == [] {
      assert a + b == b;
    } else {
      assert (a + b)[1..] == a[1..] + b;
      SleepTotalAppend(a[1..], b);
    }
  }

  /** One pulse makes two writes and sleeps two holds. */
  lemma PulseTotals(led: Led, half: int)
    ensures Writes(PulseEffects(led, half)) == 2
    ensures SleepTotal(PulseEffects(led, half)) == 2 * half
  {
    var p := PulseEffects(led, half);
    assert p[1..] == [Sleep(half), Set(led, 0), Sleep(half)];
    assert p[1..][1..] == [Set(led, 0), Sleep(half)];
    assert p[1..][1..][1..] == [Sleep(half)];
    assert p[1..][1..][1..][1..] == [];
    assert Writes(p[1..][1..][1..]) == 0 && SleepTotal(p[1..][1..][1..]) == half;
    assert Writes(p[1..][1..]) == 1 && SleepTotal(p[1..][1..]) == half;
    assert Writes(p[1..]) == 1 && SleepTotal(p[1..]) == 2 * half;
  }

  /** `n` full pulses make two writes each and sleep a whole period each,
      rounded down to an even number of milliseconds. */
  lemma {:induction false} FullTraceTotals(led: Led, half: int, n: nat)
    ensures Writes(FullTrace(led, half, n)) == 2 * n
    ensures SleepTotal(FullTrace(led, half, n)) == n * 2 * half
  {
    if n > 0 {
      var prev := FullTrace(led, half, n - 1);
      var p := PulseEffects(led, half);
      FullTraceTotals(led, half, n - 1);
      PulseTotals(led, half);
      WritesAppend(prev, p);
      SleepTotalAppend(prev, p);
      assert n * 2 * half == (n - 1) * 2 * half + 2 * half;
    }
  }

  /** The first `k` writes succeed. */
  ghost predicate AllWritesOk(ok: GpioOracle, k: nat) {
    forall j: nat :: j < k ==> ok(j)
  }

  /** Write `k` is the first one the driver rejects. */
  ghost predicate FirstFailureAt(ok: GpioOracle, k: nat) {
    !ok(k) && AllWritesOk(ok, k)
  }

  /** Unless the first `m` writes all succeed, one of them is the first
      rejected write. */
  lemma {:induction false} FirstFailureExists(ok: GpioOracle, m: nat)
    requires !AllWritesOk(ok, m)
    ensures exists k: nat :: k < m && FirstFailureAt(ok, k)
  {
    if AllWritesOk(ok, m - 1) {
      assert FirstFailureAt(ok, m - 1);
    } else {
      FirstFailureExists(ok, m - 1);
    }
  }

  /** The loop of `flash_led` after `n` iterations: pulse `i` makes writes
      `2 * i` (on) and `2 * i + 1` (off), and the loop returns at the first
      rejected write. */
  function Run(led: Led, half: int, n: nat, ok: GpioOracle): (r: Flash)
    ensures r.code == Success || r.code == Failure
  {
    if n == 0 then Flash(Success, [])
    else
      var prev := Run(led, half, n - 1, ok);
      if prev.code != Success then prev
      else if !ok(2 * (n - 1)) then Flash(Failure, prev.trace + [Set(led, 1)])
      else if !ok(2 * (n - 1) + 1) then Flash(Failure, prev.trace + [Set(led, 1), Sleep(half), Set(led, 0)])
      else Flash(Success, prev.trace + PulseEffects(led, half))
  }

  /** The number of loop iterations `flash_led` runs: none for a count at or
      below zero. */
  function PulseCount(cnt: int): nat {
    if cnt <= 0 then 0 else cnt
  }

  /** `flash_led(led, flash_per_sec, flash_cnt)`: rejects a frequency outside
      [1, 4] before touching the LED, otherwise blinks `flash_cnt` times. */
  function FlashLed(led: Led, f: int, cnt: int, ok: GpioOracle): (r: Flash)
    ensures !ValidFrequency(f) ==> r == Flash(Failure, [])
    ensures ValidFrequency(f) && cnt <= 0 ==> r == Flash(Success, [])
    ensures r.code == Success || r.code == Failure
  {
    if f > MaxFrequency || f < MinFrequency then Flash(Failure, [])
    else Run(led, HalfPeriodMs(f), PulseCount(cnt), ok)
  }

  /** When the first `2 * n` writes succeed, the loop completes every pulse. */
  lemma {:induction false} RunAllOk(led: Led, half: int, n: nat, ok: GpioOracle)
    requires AllWritesOk(ok, 2 * n)
    ensures Run(led, half, n, ok) == Flash(Success, FullTrace(led, half, n))
  {
    if n > 0 {
      RunAllOk(led, half, n - 1, ok);
      assert ok(2 * (n - 1)) && ok(2 * (n - 1) + 1);
    }
  }

  /** When write `k` is the first rejected one and falls inside the loop,
      the loop stops right after it: the trace is the full trace cut just
      after write `k`, which sits at position `2 * k`. */
  lemma {:induction false} RunFirstFailure(led: Led, half: int, n: nat, ok: GpioOracle, k: nat)
    requires k < 2 * n
    requires FirstFailureAt(ok, k)
    ensures Run(led, half, n, ok) == Flash(Failure, FullTrace(led, half, n)[..2 * k + 1])
  {
    var full := FullTrace(led, half, n);
    var prev := FullTrace(led, half, n - 1);
    assert full == prev + PulseEffects(led, half);
    if k < 2 * (n - 1) {
      RunFirstFailure(led, half, n - 1, ok, k);
      assert full[..2 * k + 1] == prev[..2 * k + 1];
    } else {
      RunAllOk(led, half, n - 1, ok);
      if k == 2 * (n - 1) {
        assert full[..2 * k + 1] == prev + [Set(led, 1)];
      } else {
        assert ok(2 * (n - 1));
        assert full[..2 * k + 1] == prev + [Set(led, 1), Sleep(half), Set(led, 0)];
      }
    }
  }

  /** Once the loop has returned -1, later iterations never run. */
  lemma {:induction false} RunFailureSticks(led: Led, half: int, m: nat, n: nat, ok: GpioOracle)
    requires m <= n
    requires Run(led, half, m, ok).code == Failure
    ensures Run(led, half, n, ok) == Run(led, half, m, ok)
  {
    if m < n {
      RunFailureSticks(led, half, m, n - 1, ok);
    }
  }

  /** With a valid frequency and no rejected write, `flash_led` returns 0
      after exactly `flash_cnt` pulses of half-period holds, sleeping
      `flash_cnt * 2 * ((1000 / f) / 2)` milliseconds in all. */
  lemma FlashLedAllOk(led: Led, f: int, cnt: int, ok: GpioOracle)
    requires ValidFrequency(f)
    requires AllWritesOk(ok, 2 * PulseCount(cnt))
    ensures FlashLed(led, f, cnt, ok) == Flash(Success, FullTrace(led, HalfPeriodMs(f), PulseCount(cnt)))
    ensures Writes(FlashLed(led, f, cnt, ok).trace) == 2 * PulseCount(cnt)
    ensures SleepTotal(FlashLed(led, f, cnt, ok).trace) == PulseCount(cnt) * 2 * ((1000 / f) / 2)
  {
    RunAllOk(led, HalfPeriodMs(f), PulseCount(cnt), ok);
    FullTraceTotals(led, HalfPeriodMs(f), PulseCount(cnt));
  }

  /** A rejected write makes `flash_led` return -1 at once: its trace is a
      strict prefix of the complete one and ends with the rejected write. */
  lemma FlashLedFailure(led: Led, f: int, cnt: int, ok: GpioOracle, k: nat)
    requires ValidFrequency(f)
    requires k < 2 * PulseCount(cnt)
    requires FirstFailureAt(ok, k)
    ensures FlashLed(led, f, cnt, ok).code == Failure
    ensures FlashLed(led, f, cnt, ok).trace == FullTrace(led, HalfPeriodMs(f), PulseCount(cnt))[..2 * k + 1]
    ensures |FlashLed(led, f, cnt, ok).trace| < 4 * PulseCount(cnt)
    ensures FlashLed(led, f, cnt, ok).trace[2 * k] == Set(led, if k % 2 == 0 then 1 else 0)
  {
    var half := HalfPeriodMs(f);
    var n := PulseCount(cnt);
    RunFirstFailure(led, half, n, ok, k);
    FullTraceAt(led, half, n, 2 * k);
  }

  /** With a valid frequency, `flash_led` returns 0 exactly when every write
      of its `flash_cnt` pulses succeeds. */
  lemma FlashLedSucceedsIff(led: Led, f: int, cnt: int, ok: GpioOracle)
    requires ValidFrequency(f)
    ensures FlashLed(led, f, cnt, ok).code == Success <==> AllWritesOk(ok, 2 * PulseCount(cnt))
  {
    if AllWritesOk(ok, 2 * PulseCount(cnt)) {
      FlashLedAllOk(led, f, cnt, ok);
    } else {
      FirstFailureExists(ok, 2 * PulseCount(cnt));
      var k: nat :| k < 2 * PulseCount(cnt) && FirstFailureAt(ok, k);
      FlashLedFailure(led, f, cnt, ok, k);
    }
  }

  /** The sleeps of the C loop of `flash_led` add up to the whole period only when the period
      is even: at 3 Hz each pulse is 1 ms shorter than `1000 / 3`. */
  lemma PeriodRounding(f: int)
    requires ValidFrequency(f)
    ensures f != 3 ==> 2 * HalfPeriodMs(f) == PeriodMs(f)
    ensures f == 3 ==> 2 * HalfPeriodMs(f) == PeriodMs(f) - 1
  {
  }

  /** The C loop of `flash_led`, statement by statement. */
  method FlashLedLoop(led: Led, f: int, cnt: int, ok: GpioOracle) returns (code: int, trace: seq<Effect>)
    ensures Flash(code, trace) == FlashLed(led, f, cnt, ok)
  {
    if f > MaxFrequency || f < MinFrequency {
      return Failure, [];
    }
    var period := MsPerSecond / f;
    trace := [];
    var i := 0;
    while i < cnt
      invariant 0 <= i <= PulseCount(cnt)
      invariant Run(led, period / 2, i, ok) == Flash(Success, trace)
    {
      trace := trace + [Set(led, 1)];
      if !ok(2 * i) {
        RunFailureSticks(led, period / 2, i + 1, PulseCount(cnt), ok);
        return Failure, trace;
      }
      trace := trace + [Sleep(period / 2)];
      trace := trace + [Set(led, 0)];
      if !ok(2 * i + 1) {
        assert trace == Run(led, period / 2, i, ok).trace + [Set(led, 1), Sleep(period / 2), Set(led, 0)];
        RunFailureSticks(led, period / 2, i + 1, PulseCount(cnt), ok);
        return Failure, trace;
      }
      trace := trace + [Sleep(period / 2)];
      i := i + 1;
    }
    return Success, trace;
  }
}
