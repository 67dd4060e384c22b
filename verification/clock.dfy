/** The clock resolver: the am/pm block that telegramWebhookHandler.py repeats in
    each of the four grammars that accept a time of day. */
module Clock {
  import opened Calendar

  datatype Meridiem = NoMeridiem | Am | Pm

  /** The numerals of a matched time fragment (`H:MM am`, `H:MM` or `H pm`): one or
      two hour digits, two minute digits or none (then the minute is 0), and the
      am/pm marker if there was one. */
  datatype ClockText = ClockText(hour: nat, minute: nat, meridiem: Meridiem)

  /** The 24-hour (hour, minute) a time fragment stands for, before any range check:
      "pm" adds 12 to an hour below 12, "am" turns 12 into 0, anything else is kept. */
  function ResolveClock(c: ClockText): (r: (nat, nat))
    ensures r.1 == c.minute
    // without a marker the numeral already is a 24-hour reading
    ensures c.meridiem == NoMeridiem ==> r.0 == c.hour
    // a 12-hour reading lands on the 24-hour reading with the same position on the dial,
    // in the morning half for "am" and the afternoon half for "pm"
    ensures 1 <= c.hour <= 12 && c.meridiem == Am ==> r.0 < 12 && r.0 % 12 == c.hour % 12
    ensures 1 <= c.hour <= 12 && c.meridiem == Pm ==> 12 <= r.0 < 24 && r.0 % 12 == c.hour % 12
    // hours that are not 12-hour readings pass through, except that "0pm" reads as noon
    ensures c.hour > 12 ==> r.0 == c.hour
    ensures c.hour == 0 ==> r.0 == (if c.meridiem == Pm then 12 else 0)
  {
    if c.meridiem == Pm && c.hour < 12 then (c.hour + 12, c.minute)
    else if c.meridiem == Am && c.hour == 12 then (0, c.minute)
    else (c.hour, c.minute)
  }

  /** How a 24-hour reading is written on a 12-hour clock. */
  function TwelveHourText(hour: nat, minute: nat): (c: ClockText)
    requires hour < 24
    ensures 1 <= c.hour <= 12 && c.meridiem != NoMeridiem
  {
    ClockText(if hour % 12 == 0 then 12 else hour % 12, minute, if hour < 12 then Am else Pm)
  }

  /** Every valid time of day is reached from its 12-hour spelling and from its 24-hour
      spelling, so the resolver loses nothing. */
  lemma ClockRoundTrip(hour: nat, minute: nat)
    requires ValidTime(hour, minute)
    ensures ResolveClock(TwelveHourText(hour, minute)) == (hour, minute)
    ensures ResolveClock(ClockText(hour, minute, NoMeridiem)) == (hour, minute)
  {
  }

  /** The boundary readings: 12am, 12pm, 1pm, 11:59pm, and 13pm kept as 13. */
  lemma ClockExamples()
    ensures ResolveClock(ClockText(12, 0, Am)) == (0, 0)
    ensures ResolveClock(ClockText(12, 0, Pm)) == (12, 0)
    ensures ResolveClock(ClockText(1, 0, Pm)) == (13, 0)
    ensures ResolveClock(ClockText(11, 59, Pm)) == (23, 59)
    ensures ResolveClock(ClockText(13, 0, Pm)) == (13, 0)
  {
  }

  /** datetime.replace(hour=..., minute=...) raises unless the resolved reading is a
      time of day; this is exactly when the fragment is usable. */
  predicate ClockFits(c: ClockText) {
    ValidTime(ResolveClock(c).0, ResolveClock(c).1)
  }
}
