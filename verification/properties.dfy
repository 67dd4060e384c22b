/** What a successful or failed parse means, grammar by grammar: the properties
    of parse_reminder_command that the chosen time expression determines. */
module Properties {
  import opened Text
  import opened Calendar
  import opened Clock
  import opened Patterns
  import opened Parser
  import opened Spellings

  /** The body the time grammars see. */
  function Remaining(text: string): string {
    ExtractEarly(CommandBody(text)).text
  }

  /** The time expression that decides the parse, when there is one. */
  predicate Decides(text: string, h: Hit<TimeExpr>) {
    Remaining(text) != [] && FindTimeExpression(Remaining(text)) == Some(h)
  }

  // ---------------------------------------------------------------------------
  // The early modifier as written

  /** A body ending with an early modifier, where the word "early" stands nowhere
      before it: the offset is the number written in the modifier, and what the time
      grammars see is the rest of the body, stripped. */
  lemma {:induction false} EarlyTrailing(t: string, reminder: bool, digits: string, unit: Option<nat>)
    requires digits != [] && AllDigits(digits) && (unit.Some? ==> unit.value < |EarlyUnits|)
    requires forall k :: 0 <= k <= |t| ==> !HasWordAt(t, k, "early")
    ensures ExtractEarly(t + " " + EarlySpelling(reminder, digits, unit))
      == Body(Strip(t), DigitsValue(digits))
  {
    var s := t + " " + EarlySpelling(reminder, digits, unit);
    var e := EarlyFound(s, t, reminder, digits, unit);
    EarlyCut(s, t, reminder, digits, unit);
    var r := ExtractEarly(s);
    assert r.text == Strip(t);
    assert r.early == DigitsValue(digits);
  }

  /** The leftmost early modifier of such a body is the one at its end. */
  lemma {:induction false} EarlyFound(s: string, t: string, reminder: bool, digits: string, unit: Option<nat>)
    returns (e: nat)
    requires digits != [] && AllDigits(digits) && (unit.Some? ==> unit.value < |EarlyUnits|)
    requires forall k :: 0 <= k <= |t| ==> !HasWordAt(t, k, "early")
    requires s == t + " " + EarlySpelling(reminder, digits, unit)
    ensures e == |s| && EarlyMatch(s) == Some(Hit(|t| + 1, EarlyHit(e, DigitsValue(digits))))
  {
    var frag := EarlySpelling(reminder, digits, unit);
    var i := |t| + 1;
    assert s[i..] == frag + [];
    e := EarlyAtRecognises(s, i, reminder, digits, unit, []);
    NoEarlierEarly(s, t, frag);
    SearchSkip(EarlyAt, s, 0, i);
  }

  /** It occurs only there, and cutting it out leaves the text before it. */
  lemma {:induction false} EarlyCut(s: string, t: string, reminder: bool, digits: string, unit: Option<nat>)
    requires unit.Some? ==> unit.value < |EarlyUnits|
    requires forall k :: 0 <= k <= |t| ==> !HasWordAt(t, k, "early")
    requires s == t + " " + EarlySpelling(reminder, digits, unit)
    ensures |t| + 1 < |s| && OccursOnlyAt(s, |t| + 1, |s|)
    ensures Strip(s[..|t| + 1] + s[|s|..]) == Strip(t)
  {
    var frag := EarlySpelling(reminder, digits, unit);
    assert frag[..5] == "early";
    FragmentOnce(t, frag);
    TrailingCut(s, t, |t| + 1);
  }

  /** Cutting out everything from i on, where a single space stands before i. */
  lemma {:induction false} TrailingCut(s: string, t: string, i: nat)
    requires i == |t| + 1 && i <= |s| && s[..i] == t + " "
    ensures Strip(s[..i] + s[|s|..]) == Strip(t)
  {
    assert s[..i] + s[|s|..] == t + " ";
    StripPadded(t, " ");
  }

  lemma {:induction false} EarlyWordAt(s: string, j: nat)
    ensures EarlyAt(s, j).Some? ==> HasWordAt(s, j, "early")
  {
    if EarlyAt(s, j).Some? {
      var a, b, c, u, x := EarlyAtCaptures(s, j);
    }
  }

  lemma {:induction false} EarlyNeedsWord(s: string, t: string, rest: string, j: nat)
    requires s == t + " " + rest && j <= |t|
    ensures EarlyAt(s, j).Some? ==> HasWordAt(t, j, "early")
  {
    EarlyWordAt(s, j);
    if HasWordAt(s, j, "early") {
      WordBeforeSpace(t, rest, j, "early");
    }
  }

  lemma {:induction false} NoEarlierEarly(s: string, t: string, rest: string)
    requires s == t + " " + rest
    requires forall k :: 0 <= k <= |t| ==> !HasWordAt(t, k, "early")
    ensures forall j :: 0 <= j < |t| + 1 ==> EarlyAt(s, j).None?
  {
    forall j | 0 <= j < |t| + 1 ensures EarlyAt(s, j).None? {
      EarlyNeedsWord(s, t, rest, j);
    }
  }

  lemma {:induction false} FragmentAt(t: string, frag: string)
    requires |frag| >= 5 && frag[..5] == "early"
    ensures Contains((t + " " + frag)[..|t| + |frag|], frag) ==>
      exists k :: 0 <= k <= |t| && HasWordAt(t, k, "early")
  {
    var s := t + " " + frag;
    var p := s[..|t| + |frag|];
    if Contains(p, frag) {
      var k := ContainsIndex(p, frag);
      assert k <= |t|;
      forall m | 0 <= m < 5 ensures Lower(s[k + m]) == "early"[m] {
        assert s[k + m] == p[k..k + |frag|][m] == frag[m];
      }
      CharsHaveWord(s, k, "early");
      WordBeforeSpace(t, frag, k, "early");
    }
  }

  /** The modifier written at the end occurs nowhere else in the body. */
  lemma {:induction false} FragmentOnce(t: string, frag: string)
    requires |frag| >= 5 && frag[..5] == "early"
    requires forall k :: 0 <= k <= |t| ==> !HasWordAt(t, k, "early")
    ensures OccursOnlyAt(t + " " + frag, |t| + 1, |t| + 1 + |frag|)
  {
    var s := t + " " + frag;
    FragmentAt(t, frag);
    assert s[|t| + 1..|t| + 1 + |frag|] == frag;
    assert s[..|t| + 1 + |frag| - 1] == s[..|t| + |frag|];
    assert s[|t| + 1 + |frag|..] == [];
  }

  /** Once the time expression is found, the outcome depends only on it, the body
      and the clock. */
  lemma Parsed(text: string, now: DateTime, h: Hit<TimeExpr>)
    requires ValidDateTime(now) && Decides(text, h)
    ensures h.start <= |Remaining(text)|
    ensures h.capture.DayName? && h.capture.dayWord.DayOfWeek? ==> h.capture.dayWord.index < 7
    ensures ParseReminderCommand(text, now) == ReminderAt(ExtractEarly(CommandBody(text)), h, now)
  {
  }

  /** Whatever the grammar, a successful parse takes its task from the text before
      the match, or uses "Reminder" when nothing is left there. */
  lemma TaskBeforeMatch(text: string, now: DateTime, h: Hit<TimeExpr>)
    requires ValidDateTime(now) && Decides(text, h)
    requires ParseReminderCommand(text, now).Ok?
    ensures h.start <= |Remaining(text)|
    ensures ParseReminderCommand(text, now).value.task
      == TaskOrDefault(Strip(Remaining(text)[..h.start]))
  {
    Parsed(text, now, h);
  }

  /** "in N minutes" and "in N hours" land exactly N minutes or N hours after now;
      "in 0 minutes" is in the past. Only running past the year 9999 fails. */
  lemma RelativeReminder(text: string, now: DateTime, h: Hit<TimeExpr>)
    requires ValidDateTime(now) && Decides(text, h) && h.capture.InRelative?
    ensures var minutes := if h.capture.inMinutes then h.capture.amount else 60 * h.capture.amount;
      var r := ParseReminderCommand(text, now);
      (r.Ok? <==> minutes > 0 && AddMinutes(now, minutes).date.year <= MaxYear)
      && (r.Ok? ==> Stamp(r.value.target) == Stamp(now) + minutes)
      && (minutes == 0 ==> r == Err(PastTime))
      && (r.Err? ==> r.error in {PastTime, DateOverflow})
  {
    Parsed(text, now, h);
    var minutes := if h.capture.inMinutes then h.capture.amount else 60 * h.capture.amount;
    assert ResolveTarget(h.capture, now) == ResolveRelative(h.capture.amount, h.capture.inMinutes, now);
  }

  /** A bare time of day is never in the past: it names the next time the clock
      shows that reading, within the coming 24 hours. */
  lemma TimeOnlyReminder(text: string, now: DateTime, h: Hit<TimeExpr>)
    requires ValidDateTime(now) && Decides(text, h) && h.capture.TimeOnly?
    ensures var r := ParseReminderCommand(text, now);
      r != Err(PastTime)
      && (!ClockFits(h.capture.time) ==> r == Err(InvalidTime))
      && (r.Ok? ==> (r.value.target.hour, r.value.target.minute) == ResolveClock(h.capture.time)
                    && Stamp(r.value.target) <= Stamp(now) + 1440)
      // a valid clock is always accepted, unless tomorrow would run past the year 9999
      && (r.Ok? <==> ClockFits(h.capture.time)
                     && (SlotAhead(h.capture.time, now) || NextDay(now.date).year <= MaxYear))
      && (r.Ok? ==> r.value.target.date == (if SlotAhead(h.capture.time, now) then now.date
                                            else NextDay(now.date)))
  {
    Parsed(text, now, h);
    assert ResolveTarget(h.capture, now) == ResolveTimeOnly(h.capture.time, now);
  }

  /** A named weekday lands on that weekday, no more than a week ahead. */
  lemma WeekdayReminder(text: string, now: DateTime, h: Hit<TimeExpr>)
    requires ValidDateTime(now) && Decides(text, h)
    requires h.capture.DayName? && h.capture.dayWord.DayOfWeek?
    ensures h.capture.dayWord.index < 7
    ensures var r := ParseReminderCommand(text, now);
      r.Ok? ==> Weekday(r.value.target.date) == h.capture.dayWord.index
                && Ordinal(now.date) <= Ordinal(r.value.target.date) <= Ordinal(now.date) + 7
    // another weekday than today's is always accepted when the date stays within the
    // year 9999 and any time clause is a time of day
    ensures var e := h.capture;
      e.dayWord.index != Weekday(now.date)
      && AddDays(now.date, DayOffset(e, Weekday(now.date))).year <= MaxYear
      && (e.clock.Some? ==> ClockFits(e.clock.value))
      ==> ParseReminderCommand(text, now).Ok?
  {
    Parsed(text, now, h);
    assert ResolveTarget(h.capture, now) == ResolveDayName(h.capture, now);
  }

  /** A date written with a month name is the date of the reminder, in the current
      year unless a year is given; a date that does not exist is rejected. */
  lemma MonthDateReminder(text: string, now: DateTime, h: Hit<TimeExpr>)
    requires ValidDateTime(now) && Decides(text, h) && h.capture.MonthDate?
    ensures var e := h.capture;
      var d := Date(if e.year.Some? then e.year.value else now.date.year, e.month, e.day);
      var r := ParseReminderCommand(text, now);
      (!ValidDate(d) ==> r == Err(InvalidDate))
      && (r.Ok? ==> r.value.target.date == d)
      && (r.Ok? && e.clock.None? ==> r.value.target.hour == 0 && r.value.target.minute == 0)
      && (r.Ok? && e.clock.Some? ==>
            (r.value.target.hour, r.value.target.minute) == ResolveClock(e.clock.value))
  {
    Parsed(text, now, h);
    var e := h.capture;
    assert ResolveTarget(e, now) == ResolveMonthDate(e.day, e.month, e.year, e.clock, now);
  }

  /** A numeric date is read year first or day first according to where its
      four-digit field stands; a date that does not exist is rejected. */
  lemma NumericDateReminder(text: string, now: DateTime, h: Hit<TimeExpr>)
    requires ValidDateTime(now) && Decides(text, h) && h.capture.NumericDate?
    ensures var e := h.capture;
      var d := NumericDateOf(e.first, e.second, e.third, e.yearFirst);
      var r := ParseReminderCommand(text, now);
      (!ValidDate(d) ==> r == Err(InvalidDate))
      && (r.Ok? ==> r.value.target.date == d)
      && (r.Ok? && e.clock.None? ==> r.value.target.hour == 0 && r.value.target.minute == 0)
      && (r.Ok? && e.clock.Some? ==>
            (r.value.target.hour, r.value.target.minute) == ResolveClock(e.clock.value))
  {
    Parsed(text, now, h);
    var e := h.capture;
    assert ResolveTarget(e, now) == ResolveNumericDate(e.first, e.second, e.third, e.yearFirst, e.clock);
  }

  /** "today", "tomorrow" and "day after tomorrow" move the date by 0, 1 and 2 days. */
  lemma NamedDayReminder(text: string, now: DateTime, h: Hit<TimeExpr>)
    requires ValidDateTime(now) && Decides(text, h)
    requires h.capture.DayName? && !h.capture.dayWord.DayOfWeek?
    ensures var days := if h.capture.dayWord.Today? then 0
                        else if h.capture.dayWord.Tomorrow? then 1 else 2;
      var r := ParseReminderCommand(text, now);
      (r.Ok? ==> Ordinal(r.value.target.date) == Ordinal(now.date) + days)
      && (r.Ok? && h.capture.clock.None? ==> r.value.target.hour == 0 && r.value.target.minute == 0)
      && (r.Ok? && h.capture.clock.Some? ==>
            (r.value.target.hour, r.value.target.minute) == ResolveClock(h.capture.clock.value))
    // "tomorrow" and "day after tomorrow" are always accepted when the date stays within
    // the year 9999 and any time clause is a time of day
    ensures var e := h.capture;
      !e.dayWord.Today?
      && AddDays(now.date, DayOffset(e, Weekday(now.date))).year <= MaxYear
      && (e.clock.Some? ==> ClockFits(e.clock.value))
      ==> ParseReminderCommand(text, now).Ok?
  {
    Parsed(text, now, h);
    assert ResolveTarget(h.capture, now) == ResolveDayName(h.capture, now);
  }
}
