/** The blink-code encoder: the counters are split into four decimal digits,
    each later shown as a number of pulses on one LED. */
module BlinkCode {
  import opened ActiveTime

  /** Pulse counts for the four LEDs, most significant hours digit first. */
  datatype Digits = Digits(hoursTens: nat, hoursUnits: nat, minutesTens: nat, minutesUnits: nat)

  const Base: nat := 10

  /** Every digit is a single decimal digit. */
  predicate SingleDigits(d: Digits) {
    d.hoursTens < Base && d.hoursUnits < Base && d.minutesTens < Base && d.minutesUnits < Base
  }

  /** Tens and units of each counter. The counters are never negative, so
      Dafny's division and remainder agree with C's. Hours are not capped: a
      count of 100 hours or more yields a tens digit above 9. */
  function Encode(c: Counter): (d: Digits)
    ensures Base * d.hoursTens + d.hoursUnits == c.hours
    ensures Base * d.minutesTens + d.minutesUnits == c.minutes
    ensures d.hoursUnits < Base && d.minutesUnits < Base
  {
    Digits(c.hours / Base, c.hours % Base, c.minutes / Base, c.minutes % Base)
  }

  /** Reading four digits back as counters. */
  function Decode(d: Digits): Counter {
    Counter(Base * d.hoursTens + d.hoursUnits, Base * d.minutesTens + d.minutesUnits)
  }

  /** The digits recombine to the counters they were split from. */
  lemma DecodeEncode(c: Counter)
    ensures Decode(Encode(c)) == c
  {
  }

  /** Splitting is the only way to obtain digits with units below ten that
      recombine to a counter. */
  lemma EncodeDecode(d: Digits)
    requires d.hoursUnits < Base && d.minutesUnits < Base
    ensures Encode(Decode(d)) == d
  {
  }

  /** A valid counter of at most 99 hours shows single digits only, and its
      minutes-tens digit is at most 5. */
  lemma EncodeInRange(c: Counter)
    requires Valid(c) && c.hours < Base * Base
    ensures SingleDigits(Encode(c))
    ensures Encode(c).minutesTens <= LastMinute / Base
  {
  }

  /** From 100 hours on, the hours-tens count is above 9. */
  lemma EncodeLargeHours(c: Counter)
    requires c.hours >= Base * Base
    ensures Encode(c).hoursTens >= Base
  {
  }

  /** The total number of pulses the four digits ask for. */
  function DigitSum(d: Digits): nat {
    d.hoursTens + d.hoursUnits + d.minutesTens + d.minutesUnits
  }
}
