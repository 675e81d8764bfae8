/** `display_active_time`: the counters are split into four digits and each
    digit is blinked on its own LED, hours-tens on led3 down to minutes-units
    on led0, stopping after the first `flash_led` call that fails. */
module Display {
  import opened ActiveTime
  import opened BlinkCode
  import opened Pulse

  /** The blink frequency used for the display, in Hz. */
  const TimerLedsFreq: int := 2

  /** One `flash_led` call of the display: an LED and its pulse count. */
  datatype Step = Step(led: Led, count: nat)

  /** The four calls, in the order the display makes them. */
  function Plan(d: Digits): seq<Step> {
    [Step(Led3, d.hoursTens), Step(Led2, d.hoursUnits), Step(Led1, d.minutesTens), Step(Led0, d.minutesUnits)]
  }

  /** The display makes two writes per pulse of its four digits. */
  lemma PlanWritesIsDigitSum(d: Digits)
    ensures PlanWrites(Plan(d)) == 2 * DigitSum(d)
  {
    var p := Plan(d);
    assert p[1..][1..][1..][1..] == [];
    assert PlanWrites(p[1..][1..][1..]) == 2 * d.minutesUnits;
    assert PlanWrites(p[1..][1..]) == 2 * (d.minutesTens + d.minutesUnits);
  }

  /** The oracle seen by a later call, after `w` writes have been made. */
  function Shift(ok: GpioOracle, w: nat): GpioOracle {
    (k: nat) => ok(w + k)
  }

  /** Calls `flash_led` for each step in turn and returns as soon as one of
      them does not return 0. */
  function RenderPlan(plan: seq<Step>, f: int, ok: GpioOracle): seq<Effect>
    decreases |plan|
  {
    if plan == [] then []
    else
      var r := FlashLed(plan[0].led, f, plan[0].count, ok);
      if r.code != Success then r.trace
      else r.trace + RenderPlan(plan[1..], f, Shift(ok, Writes(r.trace)))
  }

  /** `display_active_time` on the given counters. */
  function DisplayActiveTime(c: Counter, ok: GpioOracle): seq<Effect> {
    RenderPlan(Plan(Encode(c)), TimerLedsFreq, ok)
  }

  /** Reference trace: every step pulses its full count, one after the
      other, with no rejected write. */
  function IdealTrace(plan: seq<Step>, half: int): (t: seq<Effect>)
    ensures |t| == 2 * PlanWrites(plan)
    decreases |plan|
  {
    if plan == [] then []
    else FullTrace(plan[0].led, half, plan[0].count) + IdealTrace(plan[1..], half)
  }

  /** The number of GPIO writes of the reference trace. */
  function PlanWrites(plan: seq<Step>): nat
    decreases |plan|
  {
    if plan == [] then 0 else 2 * plan[0].count + PlanWrites(plan[1..])
  }

  /** The reference trace makes `PlanWrites` writes and sleeps
      `half` milliseconds after each of them. */
  lemma IdealTraceTotals(plan: seq<Step>, half: int)
    ensures Writes(IdealTrace(plan, half)) == PlanWrites(plan)
    ensures SleepTotal(IdealTrace(plan, half)) == PlanWrites(plan) * half
  {
    IdealTraceWrites(plan, half);
    IdealTraceSleep(plan, half);
  }

  lemma {:induction false} IdealTraceWrites(plan: seq<Step>, half: int)
    ensures Writes(IdealTrace(plan, half)) == PlanWrites(plan)
    decreases |plan|
  {
    if plan != [] {
      var head := FullTrace(plan[0].led, half, plan[0].count);
      FullTraceTotals(plan[0].led, half, plan[0].count);
      IdealTraceWrites(plan[1..], half);
      WritesAppend(head, IdealTrace(plan[1..], half));
    }
  }

  lemma {:induction false} IdealTraceSleep(plan: seq<Step>, half: int)
    ensures SleepTotal(IdealTrace(plan, half)) == PlanWrites(plan) * half
    decreases |plan|
  {
    if plan != [] {
      var n, w := plan[0].count, PlanWrites(plan[1..]);
      var head := FullTrace(plan[0].led, half, n);
      var rest := IdealTrace(plan[1..], half);
      FullTraceTotals(plan[0].led, half, n);
      IdealTraceSleep(plan[1..], half);
      SleepTotalAppend(head, rest);
      assert IdealTrace(plan, half) == head + rest;
      Distribute(n, w, half);
    }
  }

  lemma Distribute(n: int, w: int, half: int)
    ensures n * 2 * half + w * half == (2 * n + w) * half
  {
  }

  /** With no rejected write, every step pulses its full count in order. */
  lemma {:induction false} RenderPlanAllOk(plan: seq<Step>, f: int, ok: GpioOracle)
    requires ValidFrequency(f)
    requires AllWritesOk(ok, PlanWrites(plan))
    ensures RenderPlan(plan, f, ok) == IdealTrace(plan, HalfPeriodMs(f))
    decreases |plan|
  {
    if plan != [] {
      var w := 2 * plan[0].count;
      FlashLedAllOk(plan[0].led, f, plan[0].count, ok);
      assert AllWritesOk(Shift(ok, w), PlanWrites(plan[1..])) by {
        forall j: nat | j < PlanWrites(plan[1..])
          ensures Shift(ok, w)(j)
        {
          assert ok(w + j);
        }
      }
      RenderPlanAllOk(plan[1..], f, Shift(ok, w));
    }
  }

  /** When write `k` is the first rejected one, rendering stops right after
      it, in the middle of whichever step made it; later steps never run. */
  lemma {:induction false} RenderPlanFirstFailure(plan: seq<Step>, f: int, ok: GpioOracle, k: nat)
    requires ValidFrequency(f)
    requires k < PlanWrites(plan)
    requires FirstFailureAt(ok, k)
    ensures RenderPlan(plan, f, ok) == IdealTrace(plan, HalfPeriodMs(f))[..2 * k + 1]
    decreases |plan|
  {
    var half := HalfPeriodMs(f);
    var w := 2 * plan[0].count;
    var head := FullTrace(plan[0].led, half, plan[0].count);
    var rest := IdealTrace(plan[1..], half);
    if k < w {
      FlashLedFailure(plan[0].led, f, plan[0].count, ok, k);
      assert (head + rest)[..2 * k + 1] == head[..2 * k + 1];
    } else {
      FlashLedAllOk(plan[0].led, f, plan[0].count, ok);
      assert FirstFailureAt(Shift(ok, w), k - w) by {
        forall j: nat | j < k - w
          ensures Shift(ok, w)(j)
        {
          assert ok(w + j);
        }
      }
      RenderPlanFirstFailure(plan[1..], f, Shift(ok, w), k - w);
      assert (head + rest)[..2 * k + 1] == head + rest[..2 * (k - w) + 1];
    }
  }

  /** Rendering always emits a prefix of the reference trace, and the whole
      of it exactly when no write among the reference's is rejected. */
  lemma RenderPlanIsPrefix(plan: seq<Step>, f: int, ok: GpioOracle)
    requires ValidFrequency(f)
    ensures RenderPlan(plan, f, ok) <= IdealTrace(plan, HalfPeriodMs(f))
    ensures RenderPlan(plan, f, ok) == IdealTrace(plan, HalfPeriodMs(f)) <==> AllWritesOk(ok, PlanWrites(plan))
  {
    if AllWritesOk(ok, PlanWrites(plan)) {
      RenderPlanAllOk(plan, f, ok);
    } else {
      FirstFailureExists(ok, PlanWrites(plan));
      var k: nat :| k < PlanWrites(plan) && FirstFailureAt(ok, k);
      RenderPlanFirstFailure(plan, f, ok, k);
    }
  }

  /** The display frequency passes the check in `flash_led`. */
  lemma TimerFrequencyIsValid()
    ensures ValidFrequency(TimerLedsFreq)
    ensures HalfPeriodMs(TimerLedsFreq) == 250
  {
  }

  /** The complete blink code of a counter: led3, led2, led1 and led0 pulse
      the hours-tens, hours-units, minutes-tens and minutes-units digits. */
  function IdealDisplay(c: Counter): (t: seq<Effect>)
    ensures |t| == 4 * DigitSum(Encode(c))
  {
    PlanWritesIsDigitSum(Encode(c));
    IdealTrace(Plan(Encode(c)), HalfPeriodMs(TimerLedsFreq))
  }

  /** With no rejected write, the display pulses the four digits on led3,
      led2, led1 and led0 in that order, and sleeps two holds per pulse. */
  lemma DisplayAllOk(c: Counter, ok: GpioOracle)
    requires AllWritesOk(ok, 2 * DigitSum(Encode(c)))
    ensures DisplayActiveTime(c, ok) ==
      FullTrace(Led3, HalfPeriodMs(TimerLedsFreq), Encode(c).hoursTens) +
      FullTrace(Led2, HalfPeriodMs(TimerLedsFreq), Encode(c).hoursUnits) +
      FullTrace(Led1, HalfPeriodMs(TimerLedsFreq), Encode(c).minutesTens) +
      FullTrace(Led0, HalfPeriodMs(TimerLedsFreq), Encode(c).minutesUnits)
    ensures SleepTotal(DisplayActiveTime(c, ok)) == DigitSum(Encode(c)) * 2 * HalfPeriodMs(TimerLedsFreq)
  {
    var d := Encode(c);
    var p := Plan(d);
    var half := HalfPeriodMs(TimerLedsFreq);
    PlanWritesIsDigitSum(d);
    RenderPlanAllOk(p, TimerLedsFreq, ok);
    IdealTraceTotals(p, half);
    IdealTraceOfPlan(d, half);
  }

  /** The reference trace of the four display steps, spelled out. */
  lemma IdealTraceOfPlan(d: Digits, half: int)
    ensures IdealTrace(Plan(d), half) ==
      FullTrace(Led3, half, d.hoursTens) + FullTrace(Led2, half, d.hoursUnits) +
      FullTrace(Led1, half, d.minutesTens) + FullTrace(Led0, half, d.minutesUnits)
  {
    var p := Plan(d);
    var t0 := FullTrace(Led3, half, d.hoursTens);
    var t1 := FullTrace(Led2, half, d.hoursUnits);
    var t2 := FullTrace(Led1, half, d.minutesTens);
    var t3 := FullTrace(Led0, half, d.minutesUnits);
    assert p[1..][1..][1..][1..] == [];
    assert IdealTrace(p[1..][1..][1..], half) == t3 + [];
    assert IdealTrace(p[1..][1..], half) == t2 + t3;
    assert IdealTrace(p[1..], half) == t1 + (t2 + t3);
    assert IdealTrace(p, half) == t0 + (t1 + (t2 + t3));
  }

  /** A rejected write ends the display at once: the effects are the
      complete blink code cut right after the rejected write, which is the
      last effect; nothing is written or slept afterwards. */
  lemma DisplayFirstFailure(c: Counter, ok: GpioOracle, k: nat)
    requires k < 2 * DigitSum(Encode(c))
    requires FirstFailureAt(ok, k)
    ensures DisplayActiveTime(c, ok) == IdealDisplay(c)[..2 * k + 1]
    ensures |DisplayActiveTime(c, ok)| < |IdealDisplay(c)|
    ensures DisplayActiveTime(c, ok)[2 * k].Set?
  {
    var p := Plan(Encode(c));
    PlanWritesIsDigitSum(Encode(c));
    RenderPlanFirstFailure(p, TimerLedsFreq, ok, k);
    IdealTraceWriteAt(p, HalfPeriodMs(TimerLedsFreq), k);
  }

  /** Write `k` of the reference trace sits at position `2 * k`. */
  lemma {:induction false} IdealTraceWriteAt(plan: seq<Step>, half: int, k: nat)
    requires k < PlanWrites(plan)
    ensures IdealTrace(plan, half)[2 * k].Set?
    decreases |plan|
  {
    var n := plan[0].count;
    var head := FullTrace(plan[0].led, half, n);
    if k < 2 * n {
      FullTraceAt(plan[0].led, half, n, 2 * k);
    } else {
      IdealTraceWriteAt(plan[1..], half, k - 2 * n);
    }
  }

  /** Whatever the driver answers, the display emits a prefix of the
      complete blink code, and all of it exactly when no write fails. */
  lemma DisplayIsPrefix(c: Counter, ok: GpioOracle)
    ensures DisplayActiveTime(c, ok) <= IdealDisplay(c)
    ensures DisplayActiveTime(c, ok) == IdealDisplay(c) <==> AllWritesOk(ok, 2 * DigitSum(Encode(c)))
  {
    var p := Plan(Encode(c));
    PlanWritesIsDigitSum(Encode(c));
    RenderPlanIsPrefix(p, TimerLedsFreq, ok);
  }

  /** Fifty-nine ticks from power-up show 0, 0, 5 and 9 pulses; the sixtieth
      rolls over to one hour and shows 0, 1, 0 and 0. */
  lemma FirstHourScenario()
    ensures Encode(AdvanceN(Start, 59)) == Digits(0, 0, 5, 9)
    ensures Encode(AdvanceN(Start, 60)) == Digits(0, 1, 0, 0)
  {
    TicksSinceReset(Start, 59);
    assert FromMinutes(59) == Counter(0, 59);
    TicksSinceReset(Start, 60);
    assert FromMinutes(60) == Counter(1, 0);
  }

  /** Counters whose digits are all zero blink nothing. */
  lemma DisplayOfZero(c: Counter, ok: GpioOracle)
    requires c.hours == 0 && c.minutes == 0
    ensures DisplayActiveTime(c, ok) == []
  {
    DisplayIsPrefix(c, ok);
  }

  /** `display_active_time` on counters just cleared by `reset_count`
      blinks no LED and sleeps not at all. */
  lemma DisplayAfterReset(c: Counter, ok: GpioOracle)
    ensures Encode(Reset(c)) == Digits(0, 0, 0, 0)
    ensures DisplayActiveTime(Reset(c), ok) == []
  {
    DisplayOfZero(Reset(c), ok);
  }

  /** `leds_work_handler`: one minute tick followed by the display of the
      updated counters. The counters move on by one minute, and what is
      blinked is a prefix of the complete blink code of the new counters,
      all of it exactly when no write fails. */
  function WorkHandler(c: Counter, ok: GpioOracle): (r: (Counter, seq<Effect>))
    ensures Valid(c) ==> Valid(r.0)
    ensures ToMinutes(r.0) == ToMinutes(c) + 1
    ensures r.1 <= IdealDisplay(r.0)
    ensures r.1 == IdealDisplay(r.0) <==> AllWritesOk(ok, 2 * DigitSum(Encode(r.0)))
  {
    var next := Advance(c);
    DisplayIsPrefix(next, ok);
    (next, DisplayActiveTime(next, ok))
  }

  /** With no rejected write, the work item after a button press advances
      the cleared counters to one minute first, so it blinks led0 exactly
      once. */
  lemma NextCycleAfterReset(c: Counter, ok: GpioOracle)
    requires AllWritesOk(ok, 2)
    ensures WorkHandler(Reset(c), ok).0 == Counter(0, 1)
    ensures WorkHandler(Reset(c), ok).1 == FullTrace(Led0, HalfPeriodMs(TimerLedsFreq), 1)
  {
    DisplayOfFirstMinutes(Advance(Reset(c)), ok);
  }

  /** In the first ten minutes, with no rejected write, only led0 blinks,
      once per minute. */
  lemma DisplayOfFirstMinutes(c: Counter, ok: GpioOracle)
    requires c.hours == 0 && c.minutes < Base
    requires AllWritesOk(ok, 2 * c.minutes)
    ensures DisplayActiveTime(c, ok) == FullTrace(Led0, HalfPeriodMs(TimerLedsFreq), c.minutes)
  {
    var d := Encode(c);
    var half := HalfPeriodMs(TimerLedsFreq);
    assert d == Digits(0, 0, 0, c.minutes);
    PlanWritesIsDigitSum(d);
    RenderPlanAllOk(Plan(d), TimerLedsFreq, ok);
    IdealTraceOfPlan(d, half);
    assert FullTrace(Led3, half, 0) == [];
    assert FullTrace(Led2, half, 0) == [];
    assert FullTrace(Led1, half, 0) == [];
  }
}
