/** Worked commands, each parsed from end to end. */
module Scenarios {
  import opened Text
  import opened Calendar
  import opened Clock
  import opened Patterns
  import opened Parser

  // ---------------------------------------------------------------------------
  // "Pay rent on 15th August at 6pm early 30", sent on Friday 2025-08-01 at 09:00

  const RentNow := DateTime(Date(2025, 8, 1), 9, 0)
  const RentCommand := "/remind " + RentBody
  const RentBody := RentRest + " early 30"
  const RentRest := "Pay rent on 15th August at 6pm"

  lemma RentCommandBody()
    ensures CommandBody(RentCommand) == RentBody
  {
    assert RentCommand[PrefixLength..] == " " + RentBody + "";
    StripSurrounded(" ", RentBody, "");
  }

  lemma RentEarlyHere()
    ensures EarlyAt(RentBody, 31) == Some(EarlyHit(39, 30))
  {
    var s := RentBody;
    assert BoundaryAt(s, 31);
    assert HasWordAt(s, 31, "early");
    assert SkipSpaces(s, 36) == 37;
    assert !HasWordAt(s, 37, "reminder");
    assert SkipDigits(s, 37) == 39;
    assert s[37..39] == "30";
    assert DigitsValue("30") == 30 by {
      assert "30"[..1] == "3";
      assert "3"[..0] == [];
    }
    assert BoundaryAt(s, 39);
  }

  lemma RentEarlyNowhereBefore()
    ensures forall j :: 0 <= j < 31 ==> EarlyAt(RentBody, j).None?
  {
    var s := RentBody;
    assert forall j :: 0 <= j < 31 && j != 5 ==> Lower(s[j]) != 'e';
    assert !BoundaryAt(s, 5);
  }

  lemma RentEarly()
    ensures Search(EarlyAt, RentBody, 0) == Some(Hit(31, EarlyHit(39, 30)))
  {
    RentEarlyNowhereBefore();
    SearchSkip(EarlyAt, RentBody, 0, 31);
    RentEarlyHere();
  }

  lemma RentFragmentOnce()
    ensures !Contains(RentBody[..38], RentBody[31..39]) && !Contains(RentBody[39..], RentBody[31..39])
  {
    var s := RentBody;
    var frag := s[31..39];
    assert frag[0] == 'e' && frag[1] == 'a';
    NotContained(s[..38], frag);
    assert s[39..] == [];
  }

  lemma RentDeleted()
    ensures Strip(ReplaceAll(RentBody, RentBody[31..39])) == RentRest
  {
    RentFragmentOnce();
    DeleteSpan(RentBody, 31, 39);
    assert RentBody[..31] + RentBody[39..] == [] + RentRest + " ";
    StripSurrounded([], RentRest, " ");
  }

  lemma RentExtract()
    ensures ExtractEarly(RentBody) == Body(RentRest, 30)
  {
    RentEarly();
    RentDeleted();
  }

  const RentClock := ClockText(6, 0, Pm)
  const RentExpr := MonthDate(15, 8, None, Some(RentClock))

  lemma RentNoRelative()
    ensures Search(RelativeAt, RentRest, 0).None?
  {
    assert forall j :: 0 <= j < |RentRest| ==> Lower(RentRest[j]) != 'i';
    SearchNone(RelativeAt, RentRest, 0);
  }

  lemma RentClockTail()
    ensures AtTimeTail(RentRest, 23) == Some(Some(RentClock))
  {
    var s := RentRest;
    assert SkipSpaces(s, 23) == 24;
    assert HasWordAt(s, 24, "at");
    assert SkipSpaces(s, 26) == 27;
    assert SkipDigits(s, 27) == 28;
    assert s[27..28] == "6";
    assert SkipSpaces(s, 28) == 28;
    assert HasWordAt(s, 28, "pm");
    assert TimeAt(s, 27) == Some(RentClock);
  }

  lemma RentYearTail()
    ensures YearTimeTail(RentRest, 23) == Some((None, Some(RentClock)))
  {
    assert SkipSpaces(RentRest, 23) == 24 && SkipDigits(RentRest, 24) == 24;
    RentClockTail();
  }

  lemma RentMonthName()
    ensures FirstWord(RentRest, 17, MonthNames, 0, YearTime) == Some(7)
  {
    RentNotEarlierMonth();
    RentAugust();
    FirstWordPicks(RentRest, 17, MonthNames, 0, 7, YearTime);
  }

  lemma RentNotEarlierMonth()
    ensures forall j :: 0 <= j < 7 ==> !WordFits(RentRest, 17, MonthNames[j], YearTime)
  {
    assert forall j :: 0 <= j < 7 ==> !HasWordAt(RentRest, 17, MonthNames[j]);
  }

  lemma AugustName()
    ensures MonthNames[7] == "august"
  {
  }

  lemma RentAugust()
    ensures WordFits(RentRest, 17, MonthNames[7], YearTime)
  {
    AugustName();
    assert HasWordAt(RentRest, 17, "august");
    RentYearTail();
  }

  lemma RentDay()
    ensures SkipDigits(RentRest, 12) == 14 && Numeral(RentRest, 12, 14) == 15
  {
    assert RentRest[12..14] == "15";
    assert DigitsValue("15") == 15 by {
      assert "15"[..1] == "1";
      assert "1"[..0] == [];
    }
  }

  lemma RentMonthNameTail()
    ensures MonthNameAt(RentRest, 17) == Some((7, None, Some(RentClock)))
  {
    AugustName();
    RentMonthName();
    RentYearTail();
    MonthNameAtPicks(RentRest, 17, 7, None, Some(RentClock));
  }

  lemma RentMonthBody()
    ensures MonthBody(RentRest, 12) == Some(RentExpr)
  {
    RentDay();
    assert OrdinalSuffixAt(RentRest, 14) by {
      assert HasWordAt(RentRest, 14, "th");
    }
    assert SkipSpaces(RentRest, 16) == 17;
    RentMonthNameTail();
  }

  lemma RentMonthHere()
    ensures MonthDateAt(RentRest, 9) == Some(RentExpr)
  {
    assert HasWordAt(RentRest, 9, "on");
    assert SkipSpaces(RentRest, 11) == 12;
    RentMonthBody();
  }

  lemma RentNoMonthBefore()
    ensures forall j :: 0 <= j < 9 ==> MonthDateAt(RentRest, j).None?
  {
    assert forall j :: 0 <= j < 9 ==> !IsDigit(RentRest[j]) && Lower(RentRest[j]) != 'o';
  }

  lemma RentFind()
    ensures FindTimeExpression(RentRest) == Some(Hit(9, RentExpr))
  {
    RentNoRelative();
    RentNoMonthBefore();
    SearchSkip(MonthDateAt, RentRest, 0, 9);
    RentMonthHere();
  }

  const RentTarget := DateTime(Date(2025, 8, 15), 18, 0)

  lemma RentResolve()
    ensures ResolveTarget(RentExpr, RentNow) == Ok(RentTarget)
    ensures Stamp(RentTarget) > Stamp(RentNow)
  {
    assert ValidDate(Date(2025, 8, 15));
    assert ClockFits(RentClock);
  }

  lemma RentTask()
    ensures TaskOrDefault(Strip(RentRest[..9])) == "Pay rent"
  {
    assert RentRest[..9] == [] + "Pay rent" + " ";
    StripSurrounded([], "Pay rent", " ");
  }

  /** The worked example: the early modifier gives 30 minutes, the month-name
      grammar gives 15 August of the current year at 18:00, and the words before
      it become its task text. */
  lemma RentScenario()
    ensures ParseReminderCommand(RentCommand, RentNow) == Ok(Reminder("Pay rent", RentTarget, 30))
  {
    RentCommandBody();
    RentExtract();
    RentFind();
    RentResolve();
    RentTask();
  }

  // ---------------------------------------------------------------------------
  // Resolving a bare time and a named day

  /** "9:00am" said at 10:00 on 2025-06-10 has passed for today, so it is tomorrow at 09:00. */
  lemma MorningTomorrow()
    ensures ResolveTimeOnly(ClockText(9, 0, Am), DateTime(Date(2025, 6, 10), 10, 0))
      == Ok(DateTime(Date(2025, 6, 11), 9, 0))
  {
    assert NextDay(Date(2025, 6, 10)) == Date(2025, 6, 11);
  }

  /** "tomorrow" said at 09:00 on 2025-08-01 is midnight on 2025-08-02. */
  lemma StandupTomorrow()
    ensures ResolveDayName(DayName(NoQualifier, "tomorrow", Tomorrow, None), DateTime(Date(2025, 8, 1), 9, 0))
      == Ok(DateTime(Date(2025, 8, 2), 0, 0))
  {
    assert AddDays(Date(2025, 8, 1), 1) == Date(2025, 8, 2);
  }
}
