/** The active-time accountant of the uptime indicator: a pair of counters,
    hours and minutes, advanced once per elapsed minute and cleared by the
    button callback. The counters are immutable values here; each operation
    returns the next state. */
module ActiveTime {

  /** The two counters. `hours` is unbounded (the model does not wrap a C
      `int`); `minutes` is kept below `MinutesPerHour` by `Advance`. */
  datatype Counter = Counter(hours: nat, minutes: nat)

  /** The minute counter rolls over to zero after this many values. */
  const MinutesPerHour: nat := 60

  /** The largest value the minute counter shows before rolling over. */
  const LastMinute: nat := MinutesPerHour - 1

  /** The invariant every reachable counter keeps. */
  predicate Valid(c: Counter) {
    c.minutes <= LastMinute
  }

  /** Both counters are zero-initialised statics. */
  const Start: Counter := Counter(0, 0)

  /** The number of elapsed minutes a counter stands for. */
  function ToMinutes(c: Counter): nat {
    c.hours * MinutesPerHour + c.minutes
  }

  /** Reference reading of an elapsed-minute count as hours and minutes. */
  function FromMinutes(t: nat): (c: Counter)
    ensures Valid(c)
    ensures ToMinutes(c) == t
  {
    Counter(t / MinutesPerHour, t % MinutesPerHour)
  }

  /** Quotient and remainder are determined by any decomposition with a
      remainder in range. */
  lemma SplitIsUnique(t: nat, h: nat, m: nat)
    requires m < MinutesPerHour
    requires t == h * MinutesPerHour + m
    ensures FromMinutes(t) == Counter(h, m)
  {
  }

  /** One elapsed minute: at the last minute the hour goes up and the
      minutes go back to zero, otherwise the minutes go up by one. */
  function Advance(c: Counter): (r: Counter)
    ensures Valid(c) ==> Valid(r)
    ensures ToMinutes(r) == ToMinutes(c) + 1
  {
    if c.minutes == LastMinute then Counter(c.hours + 1, 0)
    else Counter(c.hours, c.minutes + 1)
  }

  /** The two branches of the rollover rule, seen from the elapsed-minute
      reading: a valid counter advances to the reading of one more minute. */
  lemma AdvanceIsNextMinute(c: Counter)
    requires Valid(c)
    ensures Advance(c) == FromMinutes(ToMinutes(c) + 1)
    ensures c.minutes == LastMinute ==> Advance(c) == Counter(c.hours + 1, 0)
    ensures c.minutes < LastMinute ==> Advance(c) == Counter(c.hours, c.minutes + 1)
  {
    var r := Advance(c);
    SplitIsUnique(ToMinutes(c) + 1, r.hours, r.minutes);
  }

  /** `n` successive minute ticks. */
  function AdvanceN(c: Counter, n: nat): (r: Counter)
    ensures Valid(c) ==> Valid(r)
    ensures ToMinutes(r) == ToMinutes(c) + n
  {
    if n == 0 then c else Advance(AdvanceN(c, n - 1))
  }

  /** From a valid counter, `n` ticks land on the reading of `n` more
      minutes. */
  lemma AdvanceNIsElapsedMinutes(c: Counter, n: nat)
    requires Valid(c)
    ensures AdvanceN(c, n) == FromMinutes(ToMinutes(c) + n)
  {
    var r := AdvanceN(c, n);
    SplitIsUnique(ToMinutes(c) + n, r.hours, r.minutes);
  }

  /** Sixty ticks from the top of an hour reach the top of the next hour. */
  lemma HourAfterSixtyTicks(h: nat)
    ensures AdvanceN(Counter(h, 0), MinutesPerHour) == Counter(h + 1, 0)
  {
    AdvanceNIsElapsedMinutes(Counter(h, 0), MinutesPerHour);
    SplitIsUnique(ToMinutes(Counter(h, 0)) + MinutesPerHour, h + 1, 0);
  }

  /** The button callback: both counters go back to zero whatever they held. */
  function Reset(c: Counter): (r: Counter)
    ensures Valid(r)
    ensures ToMinutes(r) == 0
  {
    Start
  }

  /** Resetting twice is resetting once, and a reset lands on the
      zero-initialised start state, which keeps the invariant. */
  lemma ResetIdempotent(c: Counter)
    ensures Reset(Reset(c)) == Reset(c)
    ensures Reset(c) == Start
    ensures Valid(Start)
  {
  }

  /** After a reset (or at power-up) the counters read exactly the minutes
      ticked since: `t / 60` hours and `t % 60` minutes. */
  lemma TicksSinceReset(c: Counter, t: nat)
    ensures AdvanceN(Reset(c), t) == FromMinutes(t)
    ensures AdvanceN(Start, t) == FromMinutes(t)
  {
    AdvanceNIsElapsedMinutes(Start, t);
  }
}
