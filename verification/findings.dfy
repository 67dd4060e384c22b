/** The day-name grammar as the code runs it: its day-offset rule and the whole
    parser built on it (ParseAsWritten), beside the corrected rule of
    Parser.DayOffset, with the two commands that show where they part. */
module Findings {
  import opened Text
  import opened Calendar
  import opened Clock
  import opened Patterns
  import opened Parser
  import opened Properties

  /** The code's rule: "tomorrow" is 1 and "day after tomorrow" is 2 only when the
      matched words are separated by single spaces (otherwise the lookup among the
      weekday names fails); a weekday equal to today's jumps a week when the
      lower-cased match contains "next" or "on" anywhere. */
  function DayOffsetAsWritten(e: TimeExpr, today: nat): (r: Result<nat>)
    requires e.DayName? && today < 7
    requires e.dayWord.DayOfWeek? ==> e.dayWord.index < 7
    ensures r.Err? <==> e.dayWord.DayAfterTomorrow? && e.dayWord.spelled != "day after tomorrow"
    ensures r.Err? ==> r.error == UnknownDayName
    ensures r.Ok? ==> r.value <= 7
  {
    match e.dayWord
    case Tomorrow => Ok(1)
    case DayAfterTomorrow(spelled) =>
      if spelled == "day after tomorrow" then Ok(2) else Err(UnknownDayName)
    case Today => Ok(0)
    case DayOfWeek(k) =>
      var ahead := (k - today + 7) % 7;
      if ahead == 0 && (Contains(e.matched, "next") || Contains(e.matched, "on")) then Ok(7)
      else Ok(ahead)
  }

  /** "day after tomorrow" matched with other whitespace than single spaces: the
      spelling the code's comparison misses. */
  predicate SpacedOut(e: TimeExpr) {
    e.DayName? && e.dayWord.DayAfterTomorrow? && e.dayWord.spelled != "day after tomorrow"
  }

  /** Grammar 4 as the code runs it: the offset by the code's rule, whose failure
      escapes as the ValueError of days.index, then the date and the clock. */
  function ResolveDayNameAsWritten(e: TimeExpr, now: DateTime): (r: Result<DateTime>)
    requires e.DayName? && ValidDateTime(now)
    requires e.dayWord.DayOfWeek? ==> e.dayWord.index < 7
    ensures r.Ok? ==> ValidDateTime(r.value)
    ensures r == Err(UnknownDayName) <==> SpacedOut(e)
    ensures r.Err? ==> r.error in {UnknownDayName, DateOverflow, InvalidTime}
    // a weekday still lands on that weekday, from today to a week ahead
    ensures r.Ok? && e.dayWord.DayOfWeek? ==>
      Weekday(r.value.date) == e.dayWord.index
      && Ordinal(now.date) <= Ordinal(r.value.date) <= Ordinal(now.date) + 7
  {
    match DayOffsetAsWritten(e, Weekday(now.date))
    case Err(x) => Err(x)
    case Ok(n) =>
      var d := AddDays(now.date, n);
      WeekdayAheadAsWritten(e, now.date);
      if d.year > MaxYear then Err(DateOverflow) else AtClock(d, e.clock)
  }

  lemma WeekdayAheadAsWritten(e: TimeExpr, d: Date)
    requires e.DayName? && WellFormed(d)
    requires e.dayWord.DayOfWeek? ==> e.dayWord.index < 7
    ensures e.dayWord.DayOfWeek? ==>
      Weekday(AddDays(d, DayOffsetAsWritten(e, Weekday(d)).value)) == e.dayWord.index
  {
    if e.dayWord.DayOfWeek? {
      var today := Weekday(d);
      var n := DayOffsetAsWritten(e, today).value;
      LandsOn(d, today, n, e.dayWord.index);
    }
  }

  /** ResolveTarget with grammar 4 as the code runs it. */
  function ResolveTargetAsWritten(e: TimeExpr, now: DateTime): (r: Result<DateTime>)
    requires ValidDateTime(now)
    requires e.DayName? && e.dayWord.DayOfWeek? ==> e.dayWord.index < 7
    ensures r.Ok? ==> ValidDateTime(r.value)
    ensures !e.DayName? ==> r == ResolveTarget(e, now)
  {
    if e.DayName? then ResolveDayNameAsWritten(e, now) else ResolveTarget(e, now)
  }

  /** parse_reminder_command exactly as the code runs it, grammar 4 included. */
  function ParseAsWritten(text: string, now: DateTime): (r: Result<Reminder>)
    requires ValidDateTime(now)
    ensures r.Ok? ==> ValidDateTime(r.value.target) && Stamp(r.value.target) > Stamp(now)
    ensures r.Ok? ==> r.value.task != [] && r.value.early == ExtractEarly(CommandBody(text)).early
    // the ValueError of days.index comes exactly from a spaced-out "day after tomorrow"
    ensures r == Err(UnknownDayName) <==>
      Remaining(text) != [] && FindTimeExpression(Remaining(text)).Some?
      && SpacedOut(FindTimeExpression(Remaining(text)).value.capture)
  {
    var body := ExtractEarly(CommandBody(text));
    if body.text == [] then Err(EmptyCommand)
    else match FindTimeExpression(body.text)
      case None => Err(NoTimeExpression)
      case Some(h) => Conclude(body, h.start, ResolveTargetAsWritten(h.capture, now), now)
  }

  /** The code and the corrected parser give the same outcome for every command
      whose deciding time expression is not one of the two cases of the findings. */
  lemma {:induction false} ParsesAgree(text: string, now: DateTime)
    requires ValidDateTime(now)
    requires Remaining(text) != [] && FindTimeExpression(Remaining(text)).Some? ==>
      var e := FindTimeExpression(Remaining(text)).value.capture;
      !(e.DayName? && OffsetsPart(e, Weekday(now.date)))
    ensures ParseAsWritten(text, now) == ParseReminderCommand(text, now)
  {
    var s := Remaining(text);
    if s != [] && FindTimeExpression(s).Some? {
      TargetsAgree(s, FindTimeExpression(s).value, now);
    }
  }

  lemma {:induction false} TargetsAgree(s: string, h: Hit<TimeExpr>, now: DateTime)
    requires ValidDateTime(now) && FindTimeExpression(s) == Some(h)
    requires h.capture.DayName? ==> !OffsetsPart(h.capture, Weekday(now.date))
    ensures ResolveTargetAsWritten(h.capture, now) == ResolveTarget(h.capture, now)
  {
    if h.capture.DayName? {
      assert DayNameAt(s, h.start) == Some(h.capture);
      if h.capture.qualifier in {On, Next} {
        QualifierLeadsMatch(s, h.start);
        StartsWithContains(h.capture.matched, QualifierWord(h.capture.qualifier));
      }
      OffsetsPartExactly(h.capture, Weekday(now.date));
    }
  }

  lemma StartsWithContains(t: string, w: string)
    requires StartsWith(t, w)
    ensures Contains(t, w)
  {
  }

  /** A qualified day name's match begins with its qualifier, lower-cased. */
  lemma QualifierLeadsMatch(s: string, i: nat)
    requires DayNameAt(s, i).Some? && DayNameAt(s, i).value.qualifier != NoQualifier
    ensures StartsWith(DayNameAt(s, i).value.matched, QualifierWord(DayNameAt(s, i).value.qualifier))
  {
    var e := DayNameAt(s, i).value;
    var w := QualifierWord(e.qualifier);
    assert HasWordAt(s, i, w);
    HasWordAtChars(s, i, w);
    var t := LowerStr(s[i..]);
    LowerStrIndex(s[i..]);
    forall k | 0 <= k < |w| ensures t[k] == w[k] {
      assert s[i..][k] == s[i + k];
    }
    assert t[..|w|] == w;
  }

  /** The code's rule and the corrected one part only in the two cases the findings
      describe: "day after tomorrow" with other whitespace than single spaces, and
      today's weekday written without "on"/"next" in front yet with "on" or "next"
      somewhere in the match (as in "monday"). */
  lemma AsWrittenAgreesOtherwise(s: string, i: nat, today: nat)
    requires DayNameAt(s, i).Some? && today < 7
    ensures var e := DayNameAt(s, i).value;
      DayOffsetAsWritten(e, today) != Ok(DayOffset(e, today)) <==> OffsetsPart(e, today)
  {
    var e := DayNameAt(s, i).value;
    if e.qualifier in {On, Next} {
      QualifierLeadsMatch(s, i);
      StartsWithContains(e.matched, QualifierWord(e.qualifier));
    }
    OffsetsPartExactly(e, today);
  }

  /** The two cases in which the code's rule departs from the corrected one. */
  predicate OffsetsPart(e: TimeExpr, today: nat)
    requires e.DayName?
  {
    (e.dayWord.DayAfterTomorrow? && e.dayWord.spelled != "day after tomorrow")
    || (e.dayWord.DayOfWeek? && e.dayWord.index == today && e.qualifier !in {On, Next}
        && (Contains(e.matched, "next") || Contains(e.matched, "on")))
  }

  lemma OffsetsPartExactly(e: TimeExpr, today: nat)
    requires e.DayName? && today < 7
    requires e.dayWord.DayOfWeek? ==> e.dayWord.index < 7
    requires e.qualifier in {On, Next} ==> Contains(e.matched, QualifierWord(e.qualifier))
    ensures DayOffsetAsWritten(e, today) != Ok(DayOffset(e, today)) <==> OffsetsPart(e, today)
  {
  }

  // ---------------------------------------------------------------------------
  // "Gym monday at 6pm", sent on Monday 2025-08-04 at 08:00

  const MondayNow := DateTime(Date(2025, 8, 4), 8, 0)
  const GymBody := "Gym monday at 6pm"
  const GymCommand := "/remind " + GymBody
  const SixPm := ClockText(6, 0, Pm)
  const GymExpr := DayName(NoQualifier, "monday at 6pm", DayOfWeek(0), Some(SixPm))

  lemma MondayIsMonday()
    ensures ValidDateTime(MondayNow) && Weekday(MondayNow.date) == 0
  {
  }

  lemma GymCommandBody()
    ensures CommandBody(GymCommand) == GymBody
  {
    assert GymCommand[PrefixLength..] == " " + GymBody + "";
    StripSurrounded(" ", GymBody, "");
  }

  lemma GymNoEarly()
    ensures ExtractEarly(GymBody) == Body(GymBody, 0)
  {
    assert forall j :: 0 <= j < |GymBody| ==> Lower(GymBody[j]) != 'e';
    SearchNone(EarlyAt, GymBody, 0);
  }

  lemma GymClock()
    ensures AtTimeTail(GymBody, 10) == Some(Some(SixPm))
  {
    var s := GymBody;
    assert SkipSpaces(s, 10) == 11;
    assert HasWordAt(s, 11, "at");
    assert SkipSpaces(s, 13) == 14;
    assert SkipDigits(s, 14) == 15;
    assert s[14..15] == "6";
    assert SkipSpaces(s, 15) == 15;
    assert HasWordAt(s, 15, "pm");
    assert TimeAt(s, 14) == Some(SixPm);
  }

  lemma GymMonday()
    ensures DayBody(GymBody, 4) == Some((DayOfWeek(0), Some(SixPm)))
  {
    assert DayWords[0] == "monday";
    assert HasWordAt(GymBody, 4, "monday");
    GymClock();
    FirstWordPicks(GymBody, 4, DayWords, 0, 0, AtTime);
  }

  lemma GymMatched()
    ensures LowerStr(GymBody[4..]) == "monday at 6pm"
  {
    var t := GymBody[4..];
    assert t == "monday at 6pm";
    LowerStrIndex(t);
    assert forall k :: 0 <= k < |t| ==> LowerStr(t)[k] == t[k];
  }

  lemma GymDayNameHere()
    ensures DayNameAt(GymBody, 4) == Some(GymExpr)
  {
    GymMonday();
    GymMatched();
    assert Lower(GymBody[4]) == 'm';
    Unqualified(GymBody, 4);
  }

  lemma GymNotMondayAtTwo()
    ensures forall j :: 0 <= j < |DayWords| ==> !HasWordAt(GymBody, 2, DayWords[j])
  {
    var s := GymBody;
    assert !HasWordAt(s, 3, "onday");
    assert !HasWordAt(s, 2, DayWords[0]);
    assert forall j :: 1 <= j < |DayWords| ==> DayWords[j][0] != 'm';
  }

  lemma GymNoDayBodyAtTwo()
    ensures DayBody(GymBody, 2).None?
  {
    GymNotMondayAtTwo();
    FirstWordNone(GymBody, 2, DayWords, 0, AtTime);
    assert Lower(GymBody[2]) == 'm';
  }

  /** A day-name match at a position where no qualifier word stands is the bare day
      words. */
  lemma Unqualified(s: string, i: nat)
    requires i < |s| && Lower(s[i]) !in {'o', 'n', 'a'}
    ensures DayNameAt(s, i).None? <==> DayBody(s, i).None?
    ensures DayBody(s, i).Some? ==>
      (DayNameAt(s, i)
       == Some(DayName(NoQualifier, LowerStr(s[i..]), DayBody(s, i).value.0, DayBody(s, i).value.1)))
  {
    assert !HasWordAt(s, i, "on") && !HasWordAt(s, i, "next") && !HasWordAt(s, i, "at");
  }

  lemma GymNoDayNameAtTwo()
    ensures DayNameAt(GymBody, 2).None?
  {
    GymNoDayBodyAtTwo();
    assert Lower(GymBody[2]) == 'm';
    Unqualified(GymBody, 2);
  }

  lemma GymNoDayNameBefore()
    ensures forall j :: 0 <= j < 4 ==> DayNameAt(GymBody, j).None?
  {
    assert forall j :: 0 <= j < 4 && j != 2 ==> Lower(GymBody[j]) !in DayNameInitials;
    GymNoDayNameAtTwo();
  }

  lemma GymNoDateAtFive()
    ensures MonthDateAt(GymBody, 5).None? && NumericDateAt(GymBody, 5).None?
  {
    assert SkipDigits(GymBody, 5) == 5 && SkipSpaces(GymBody, 7) == 7;
  }

  lemma GymNoDateAtFourteen()
    ensures MonthDateAt(GymBody, 14).None? && NumericDateAt(GymBody, 14).None?
  {
    var s := GymBody;
    assert !HasWordAt(s, 14, "on");
    assert SkipDigits(s, 14) == 15 && !OrdinalSuffixAt(s, 15) && SkipSpaces(s, 15) == 15;
  }

  lemma GymNoDate()
    ensures forall j :: 0 <= j <= |GymBody| ==> MonthDateAt(GymBody, j).None? && NumericDateAt(GymBody, j).None?
  {
    var s := GymBody;
    assert forall j :: 0 <= j < |s| && j != 5 && j != 14 ==> !IsDigit(s[j]) && Lower(s[j]) != 'o';
    GymNoDateAtFive();
    GymNoDateAtFourteen();
  }

  lemma GymNoRelative()
    ensures Search(RelativeAt, GymBody, 0).None?
  {
    assert forall j :: 0 <= j < |GymBody| ==> Lower(GymBody[j]) != 'i';
    SearchNone(RelativeAt, GymBody, 0);
  }

  lemma GymNoDateSearch()
    ensures Search(MonthDateAt, GymBody, 0).None? && Search(NumericDateAt, GymBody, 0).None?
  {
    GymNoMonthDateSearch();
    GymNoNumericDateSearch();
  }

  lemma GymNoMonthDateSearch()
    ensures Search(MonthDateAt, GymBody, 0).None?
  {
    GymNoDate();
    SearchNone(MonthDateAt, GymBody, 0);
  }

  lemma GymNoNumericDateSearch()
    ensures Search(NumericDateAt, GymBody, 0).None?
  {
    GymNoDate();
    SearchNone(NumericDateAt, GymBody, 0);
  }

  lemma GymDayNameSearch()
    ensures Search(DayNameAt, GymBody, 0) == Some(Hit(4, GymExpr))
  {
    GymNoDayNameBefore();
    SearchSkip(DayNameAt, GymBody, 0, 4);
    GymDayNameHere();
  }

  lemma GymFind()
    ensures FindTimeExpression(GymBody) == Some(Hit(4, GymExpr))
  {
    GymNoRelative();
    GymNoDateSearch();
    GymDayNameSearch();
  }

  /** The code moves a bare "monday" said on a Monday a week ahead, because the
      word "monday" itself contains "on". */
  lemma MondayAsWritten()
    ensures DayOffsetAsWritten(GymExpr, 0) == Ok(7)
  {
    assert StartsWith(GymExpr.matched[1..], "on");
  }

  const GymTarget := DateTime(Date(2025, 8, 4), 18, 0)
  const GymNextWeek := DateTime(Date(2025, 8, 11), 18, 0)

  lemma GymResolveAsWritten()
    ensures ResolveTargetAsWritten(GymExpr, MondayNow) == Ok(GymNextWeek)
    ensures Stamp(GymNextWeek) > Stamp(MondayNow)
  {
    MondayIsMonday();
    MondayAsWritten();
    assert AddDays(MondayNow.date, 7) == Date(2025, 8, 11);
    assert ClockFits(SixPm);
  }

  /** Run as written, "/remind Gym monday at 6pm" sent on Monday at 08:00 is set for
      18:00 on the following Monday. */
  lemma MondayParsedAsWritten()
    ensures ParseAsWritten(GymCommand, MondayNow) == Ok(Reminder("Gym", GymNextWeek, 0))
  {
    GymCommandBody();
    GymNoEarly();
    GymFind();
    GymResolveAsWritten();
    GymTask();
  }

  lemma GymResolve()
    ensures DayOffset(GymExpr, 0) == 0
    ensures ResolveTarget(GymExpr, MondayNow) == Ok(GymTarget)
    ensures Stamp(GymTarget) > Stamp(MondayNow)
  {
    MondayIsMonday();
    assert AddDays(MondayNow.date, 0) == MondayNow.date;
    assert ClockFits(SixPm);
  }

  lemma GymTask()
    ensures TaskOrDefault(Strip(GymBody[..4])) == "Gym"
  {
    assert GymBody[..4] == [] + "Gym" + " ";
    StripSurrounded([], "Gym", " ");
  }

  /** The corrected rule keeps it today: the reminder is for 18:00 the same day. */
  lemma MondayCorrected()
    ensures DayOffset(GymExpr, 0) == 0
    ensures ParseReminderCommand(GymCommand, MondayNow) == Ok(Reminder("Gym", GymTarget, 0))
  {
    GymCommandBody();
    GymNoEarly();
    GymFind();
    GymResolve();
    GymTask();
  }

  // ---------------------------------------------------------------------------
  // "Gym day  after tomorrow" (two spaces), sent on Monday 2025-08-04 at 08:00

  const LaterBody := "Gym day  after tomorrow"
  const LaterCommand := "/remind " + LaterBody
  const LaterExpr := DayName(NoQualifier, "day  after tomorrow", DayAfterTomorrow("day  after tomorrow"), None)
  const LaterTarget := DateTime(Date(2025, 8, 6), 0, 0)

  lemma LaterCommandBody()
    ensures CommandBody(LaterCommand) == LaterBody
  {
    assert LaterCommand[PrefixLength..] == " " + LaterBody + "";
    StripSurrounded(" ", LaterBody, "");
  }

  lemma LaterNoEarly()
    ensures ExtractEarly(LaterBody) == Body(LaterBody, 0)
  {
    var s := LaterBody;
    assert forall j :: 0 <= j < |s| && j != 12 ==> Lower(s[j]) != 'e';
    assert !BoundaryAt(s, 12);
    SearchNone(EarlyAt, s, 0);
  }

  lemma LaterNoRelative()
    ensures Search(RelativeAt, LaterBody, 0).None?
  {
    assert forall j :: 0 <= j < |LaterBody| ==> Lower(LaterBody[j]) != 'i';
    SearchNone(RelativeAt, LaterBody, 0);
  }

  lemma LaterNoDate()
    ensures forall j :: 0 <= j <= |LaterBody| ==> MonthDateAt(LaterBody, j).None? && NumericDateAt(LaterBody, j).None?
  {
    var s := LaterBody;
    assert forall j :: 0 <= j < |s| ==> !IsDigit(s[j]);
    assert forall j :: 0 <= j < |s| && j != 16 && j != 18 && j != 21 ==> Lower(s[j]) != 'o';
    assert !HasWordAt(s, 16, "on") && !HasWordAt(s, 18, "on") && !HasWordAt(s, 21, "on");
  }

  lemma LaterNoDateSearch()
    ensures Search(MonthDateAt, LaterBody, 0).None? && Search(NumericDateAt, LaterBody, 0).None?
  {
    LaterNoMonthDateSearch();
    LaterNoNumericDateSearch();
  }

  lemma LaterNoMonthDateSearch()
    ensures Search(MonthDateAt, LaterBody, 0).None?
  {
    LaterNoDate();
    SearchNone(MonthDateAt, LaterBody, 0);
  }

  lemma LaterNoNumericDateSearch()
    ensures Search(NumericDateAt, LaterBody, 0).None?
  {
    LaterNoDate();
    SearchNone(NumericDateAt, LaterBody, 0);
  }

  lemma LaterNotMondayAtTwo()
    ensures forall j :: 0 <= j < |DayWords| ==> !HasWordAt(LaterBody, 2, DayWords[j])
  {
    var s := LaterBody;
    assert !HasWordAt(s, 3, "onday");
    assert !HasWordAt(s, 2, DayWords[0]);
    assert forall j :: 1 <= j < |DayWords| ==> DayWords[j][0] != 'm';
  }

  lemma LaterNoDayBodyAtTwo()
    ensures DayBody(LaterBody, 2).None?
  {
    LaterNotMondayAtTwo();
    FirstWordNone(LaterBody, 2, DayWords, 0, AtTime);
    assert Lower(LaterBody[2]) == 'm';
  }

  lemma LaterNoDayNameAtTwo()
    ensures DayNameAt(LaterBody, 2).None?
  {
    LaterNoDayBodyAtTwo();
    assert Lower(LaterBody[2]) == 'm';
    Unqualified(LaterBody, 2);
  }

  lemma LaterNoDayNameBefore()
    ensures forall j :: 0 <= j < 4 ==> DayNameAt(LaterBody, j).None?
  {
    assert forall j :: 0 <= j < 4 && j != 2 ==> Lower(LaterBody[j]) !in DayNameInitials;
    LaterNoDayNameAtTwo();
  }

  lemma LaterNoDayWordAtFour()
    ensures FirstWord(LaterBody, 4, DayWords, 0, AtTime).None?
  {
    assert Lower(LaterBody[4]) == 'd';
    assert forall j :: 0 <= j < |DayWords| ==> DayWords[j] != [] && DayWords[j][0] != 'd';
  }

  lemma LaterDay()
    ensures WordThenSpace(LaterBody, 4, "day") == Some(9)
  {
    assert HasWordAt(LaterBody, 4, "day");
    assert SkipSpaces(LaterBody, 7) == 9;
  }

  lemma LaterAfter()
    ensures WordThenSpace(LaterBody, 9, "after") == Some(15)
  {
    assert HasWordAt(LaterBody, 9, "after");
    assert SkipSpaces(LaterBody, 14) == 15;
  }

  lemma LaterTomorrow()
    ensures HasWordAt(LaterBody, 15, "tomorrow")
  {
  }

  lemma LaterNoClock()
    ensures AtTimeTail(LaterBody, 23) == Some(None)
  {
  }

  lemma LaterAfterTomorrowEnd()
    ensures AfterTomorrowEnd(LaterBody, 4) == Some(23)
  {
    LaterDay();
    LaterAfter();
    LaterTomorrow();
  }

  lemma LaterSpelled()
    ensures LowerStr(LaterBody[4..23]) == "day  after tomorrow"
    ensures LowerStr(LaterBody[4..]) == "day  after tomorrow"
  {
    var t := "day  after tomorrow";
    assert LaterBody[4..23] == t && LaterBody[4..] == t;
    LowerStrKeeps(t);
  }

  lemma LaterAfterTomorrow()
    ensures AfterTomorrowAt(LaterBody, 4) == Some((DayAfterTomorrow("day  after tomorrow"), None))
  {
    LaterAfterTomorrowEnd();
    LaterNoClock();
    LaterSpelled();
  }

  lemma LaterDayBody()
    ensures DayBody(LaterBody, 4) == Some((DayAfterTomorrow("day  after tomorrow"), None))
  {
    LaterNoDayWordAtFour();
    LaterAfterTomorrow();
  }

  lemma LaterDayNameHere()
    ensures DayNameAt(LaterBody, 4) == Some(LaterExpr)
  {
    LaterDayBody();
    LaterSpelled();
    assert Lower(LaterBody[4]) == 'd';
    Unqualified(LaterBody, 4);
  }

  lemma LaterFind()
    ensures FindTimeExpression(LaterBody) == Some(Hit(4, LaterExpr))
  {
    LaterNoRelative();
    LaterNoDateSearch();
    LaterDayNameSearch();
  }

  lemma LaterDayNameSearch()
    ensures Search(DayNameAt, LaterBody, 0) == Some(Hit(4, LaterExpr))
  {
    LaterNoDayNameBefore();
    SearchSkip(DayNameAt, LaterBody, 0, 4);
    LaterDayNameHere();
  }

  /** The code looks the spelling with two spaces up among the weekday names, fails,
      and turns the command away. */
  lemma LaterAsWritten()
    ensures DayOffsetAsWritten(LaterExpr, 0) == Err(UnknownDayName)
  {
  }

  /** Run as written, "/remind Gym day  after tomorrow" is turned away. */
  lemma LaterParsedAsWritten()
    ensures ParseAsWritten(LaterCommand, MondayNow) == Err(UnknownDayName)
  {
    LaterCommandBody();
    LaterNoEarly();
    LaterFind();
    LaterResolveAsWritten();
  }

  lemma LaterResolveAsWritten()
    ensures ResolveTargetAsWritten(LaterExpr, MondayNow) == Err(UnknownDayName)
  {
    MondayIsMonday();
  }

  lemma LaterResolve()
    ensures ResolveTarget(LaterExpr, MondayNow) == Ok(LaterTarget)
    ensures Stamp(LaterTarget) > Stamp(MondayNow)
  {
    MondayIsMonday();
    assert AddDays(MondayNow.date, 2) == Date(2025, 8, 6);
  }

  lemma LaterTask()
    ensures TaskOrDefault(Strip(LaterBody[..4])) == "Gym"
  {
    assert LaterBody[..4] == [] + "Gym" + " ";
    StripSurrounded([], "Gym", " ");
  }

  /** The corrected rule reads it as two days ahead: midnight on Wednesday. */
  lemma LaterCorrected()
    ensures ParseReminderCommand(LaterCommand, MondayNow) == Ok(Reminder("Gym", LaterTarget, 0))
  {
    LaterCommandBody();
    LaterNoEarly();
    LaterFind();
    LaterResolve();
    LaterTask();
  }
}
