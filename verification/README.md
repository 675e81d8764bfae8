# Uptime blink-code indicator: Dafny model

The device counts the minutes it has been active, in an hours counter and a
minutes counter, and once a minute shows that count on four LEDs. Each LED
blinks a number of times equal to one decimal digit: led3 shows the tens of
the hours, led2 the units of the hours, led1 the tens of the minutes and led0
the units of the minutes. A button resets both counters to zero.

This project models the time accounting and the blink code of `src/main.c`:

- `ActiveTime` (`active_time.dfy`): the counter pair as an immutable
  `Counter(hours, minutes)`. `Advance` is `update_active_time` and `Reset` is
  `reset_count`. Both statics start at zero (`Start`). A counter is read as a
  count of elapsed minutes (`ToMinutes`, `FromMinutes`). This reading is the
  reference that the rollover rule is proved against.
- `BlinkCode` (`blink_code.dfy`): the split of the counters into four digits
  that `display_active_time` does first (`Encode`), and its inverse `Decode`.
- `Pulse` (`pulse.dfy`): `flash_led`. Every GPIO write is a `Set(led, level)`
  effect and every `k_msleep` is a `Sleep(ms)` effect. The result is the
  return code with the trace of effects. Whether write number `k` succeeds is
  decided by an oracle `GpioOracle = nat -> bool`, which stands for the GPIO
  driver. A rejected write still appears in the trace, because the call was
  made. `FlashLed` is the function; `FlashLedLoop` is the C loop of `flash_led`,
  proved equal to it.
- `Display` (`display.dfy`): `display_active_time`. The four `flash_led`
  calls are the steps of a `Plan`, rendered in order by `RenderPlan`. Each
  later call sees the oracle shifted by the writes already made. The first
  call that returns non-zero ends the display. The reference is
  `IdealTrace`: every step pulses its full count, with no write rejected.
  `WorkHandler` is `leds_work_handler`: one tick, then the display of the
  updated counters.

Integer division appears in `1000 / f`, `p / 2`, `h / 10` and `h % 10`. All
its operands are non-negative, so Dafny's Euclidean division agrees with C's
truncating division there.

Two facts about the code deserve a note:

- Each pulse sleeps `(1000 / f) / 2` twice. At 3 Hz that is 332 ms per
  pulse, 1 ms less than the period `1000 / 3`; see `Pulse.PeriodRounding`.
  `Pulse.FlashLedAllOk` gives the exact total.
- From 100 hours on, the hours-tens count passed to `flash_led` exceeds 9;
  see `BlinkCode.EncodeLargeHours`. No cap is applied.

## Model

| member | source | states |
|---|---|---|
| ActiveTime.Advance | src/main.c:107-117 | one tick keeps `minutes <= 59` and adds exactly one minute to the elapsed-minute reading `60 * hours + minutes` |
| ActiveTime.AdvanceIsNextMinute | src/main.c:109-116 | a valid counter advances to the reading of one more minute: from minute 59 to `(hours + 1, 0)`, from any earlier minute to `(hours, minutes + 1)` |
| ActiveTime.AdvanceN | src/main.c:107-117 | `n` ticks keep the invariant and add exactly `n` minutes to the reading |
| ActiveTime.AdvanceNIsElapsedMinutes | src/main.c:107-117 | from a valid counter, `n` ticks land on the hours/minutes split of the old reading plus `n` |
| ActiveTime.HourAfterSixtyTicks | src/main.c:107-117 | sixty ticks from `(h, 0)` give `(h + 1, 0)` |
| ActiveTime.Reset | src/main.c:124-130 | the button leaves a valid counter that reads zero minutes, whatever the counters held |
| ActiveTime.ResetIdempotent | src/main.c:124-130 | a reset lands on the zero-initialised start state `(0, 0)` of both statics (`src/main.c:33`), which keeps `minutes <= 59`; resetting twice equals resetting once |
| ActiveTime.TicksSinceReset | src/main.c:107-130 | from power-up or after a reset, `t` ticks show `t / 60` hours and `t % 60` minutes |
| BlinkCode.Encode | src/main.c:179-182 | the tens and units digits recombine to the hours and to the minutes; the units digits are below 10 |
| BlinkCode.DecodeEncode | src/main.c:179-182 | decoding the four digits gives back the counters |
| BlinkCode.EncodeDecode | src/main.c:179-182 | digits whose units are below 10 are exactly the split of the counter they recombine to |
| BlinkCode.EncodeInRange | src/main.c:179-182 | for minutes up to 59 and hours up to 99, every digit is in 0..9 and the minutes-tens digit is at most 5 |
| BlinkCode.EncodeLargeHours | src/main.c:179-182 | from 100 hours on, the hours-tens count is 10 or more, since there is no cap |
| Pulse.PeriodMs | src/main.c:152 | for a frequency in 1..4 Hz the period `1000 / f` lies between 250 and 1000 ms |
| Pulse.HalfPeriodMs | src/main.c:160-167 | each hold is positive and two holds make the period, less at most 1 ms |
| Pulse.FullTrace | src/main.c:153-168 | `n` complete pulses are `4 * n` effects |
| Pulse.FullTraceAt | src/main.c:153-168 | effect `i` of the complete pulses is effect `i % 4` of on, hold, off, hold |
| Pulse.FullTraceTotals | src/main.c:153-168 | `n` complete pulses make `2 * n` writes and sleep `n * 2 * half` ms |
| Pulse.Run | src/main.c:153-170 | the loop returns only 0 or -1 |
| Pulse.RunFailureSticks | src/main.c:155-166 | once the loop has returned -1, further iterations change nothing |
| Pulse.FlashLed | src/main.c:139-171 | a frequency above 4 or below 1 returns -1 with no write or sleep; a valid frequency with a count at or below zero returns 0 with no effects; the code is always 0 or -1 |
| Pulse.RunAllOk | src/main.c:153-170 | when the first `2 * n` writes succeed, the loop returns 0 after exactly `n` full pulses |
| Pulse.RunFirstFailure | src/main.c:153-170 | when write `k` is the first rejected one, the loop returns -1 with the full trace cut right after write `k` |
| Pulse.FlashLedAllOk | src/main.c:146-170 | with a valid frequency and no rejected write, the result is 0 with `flash_cnt` repetitions of on, hold `p / 2`, off, hold `p / 2`; there are `2 * flash_cnt` writes and `flash_cnt * 2 * ((1000 / f) / 2)` ms of sleep |
| Pulse.FlashLedFailure | src/main.c:155-166 | a rejected write returns -1 at once, with a strict prefix of the full trace that ends at the rejected write |
| Pulse.FlashLedSucceedsIff | src/main.c:146-170 | with a valid frequency, the result is 0 exactly when every write of the `flash_cnt` pulses succeeds |
| Pulse.PeriodRounding | src/main.c:152-167 | the two holds make the whole period at 1, 2 and 4 Hz, and 1 ms less at 3 Hz |
| Pulse.FlashLedLoop | src/main.c:139-171 | the C loop of `flash_led` returns the same code and effects as `FlashLed` |
| Display.PlanWritesIsDigitSum | src/main.c:186-208 | the four calls make two writes per pulse of the digits, `2 * digit sum` in all |
| Display.IdealTrace | src/main.c:186-208 | the reference trace has two effects per write of the plan |
| Display.IdealTraceTotals | src/main.c:186-208 | the reference trace makes the plan's writes and sleeps one hold after each write |
| Display.RenderPlan | src/main.c:184-208 | the calls run in order and the first non-zero return ends the display; its contract is carried by `Display.RenderPlanIsPrefix`, `Display.RenderPlanAllOk` and `Display.RenderPlanFirstFailure` |
| Display.RenderPlanAllOk | src/main.c:186-208 | with no rejected write, every call pulses its full count, in order |
| Display.RenderPlanFirstFailure | src/main.c:186-208 | when write `k` is the first rejected one, rendering stops right after it, and no later call runs |
| Display.RenderPlanIsPrefix | src/main.c:186-208 | rendering emits a prefix of the reference trace, and all of it exactly when no write is rejected |
| Display.TimerFrequencyIsValid | src/main.c:7 | the display frequency of 2 Hz passes the range check, with a 250 ms hold |
| Display.IdealDisplay | src/main.c:179-208 | the complete blink code of a counter has four effects per pulse of its digits |
| Display.IdealTraceOfPlan | src/main.c:186-204 | the complete blink code is the pulses of led3, then led2, then led1, then led0 |
| Display.DisplayActiveTime | src/main.c:177-209 | the digits go out on led3, led2, led1 and led0 at 2 Hz; its contract is carried by `Display.DisplayIsPrefix` (a prefix of the complete blink code, all of it exactly when no write fails) and `Display.DisplayFirstFailure` |
| Display.DisplayAllOk | src/main.c:177-209 | with no rejected write, the display is led3, led2, led1 and led0 pulsing their digits in that order, and sleeps two 250 ms holds per pulse |
| Display.DisplayFirstFailure | src/main.c:184-209 | a rejected write ends the display, with a strict prefix of the complete blink code whose last effect is the rejected write |
| Display.DisplayIsPrefix | src/main.c:177-209 | for any driver answers, the display is a prefix of the complete blink code, and all of it exactly when no write fails |
| Display.FirstHourScenario | src/main.c:107-117 | 59 ticks from power-up show digits 0, 0, 5, 9; the sixtieth shows 0, 1, 0, 0 |
| Display.DisplayOfZero | src/main.c:177-209 | counters at zero blink nothing |
| Display.DisplayAfterReset | src/main.c:124-130 | `display_active_time` on counters just cleared by `reset_count` shows digits 0, 0, 0, 0 and blinks nothing |
| Display.DisplayOfFirstMinutes | src/main.c:177-209 | with fewer than ten minutes and no hours, and with no rejected write, only led0 blinks, once per minute |
| Display.WorkHandler | src/main.c:215-219 | one work item adds exactly one minute to the counters, keeps them valid, and blinks a prefix of the complete blink code of the new counters, all of it exactly when no write fails |
| Display.NextCycleAfterReset | src/main.c:215-219 | with no rejected write, the work item after a reset first advances the counters to `(0, 1)`, then blinks led0 exactly once |

## Left out

- Timer, work queue and interrupt plumbing are not modelled. This covers `timer_handler`, `K_WORK_DEFINE`, `K_TIMER_DEFINE`, `k_timer_start` and the busy loop in `main`. This is platform scheduling.
- `leds_work_handler` is modelled only as `Display.WorkHandler`, an advance followed by a display of the new counters. How the work queue schedules it is not modelled.
- The race between the button callback and the work handler is not modelled. This includes torn `(hours, minutes)` reads. The code has no synchronisation, and concurrency is outside the model. In particular, the all-zero display is seen only when a reset lands between the update and the display of one work item; the model runs the work item as one step.
- `reset_count` takes `dev`, `cb` and `pins` arguments. It ignores them, so the model drops them.
- `configure_LEDS`, `configure_button` and the `gpio_is_ready_dt` checks in `main` are not modelled. They are hardware set-up over driver calls that are not visible.
- Sleeping is only a `Sleep(ms)` effect. Real timing and its tolerance are not modelled.
- The GPIO driver is an oracle on the write number. Why a write fails is not modelled.
- ActiveTime.Advance: hours are an unbounded `nat`, so the C `int` overflow of `hours_counter` is not modelled.
