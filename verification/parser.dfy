/** parse_reminder_command: from the text of a `/remind` command and the current
    time to a task, a target time and an early-warning offset, or an error. */
module Parser {
  import opened Text
  import opened Calendar
  import opened Clock
  import opened Patterns

  /** The ways the parser gives up. Each stands for a ValueError (or, for
      DateOverflow, an OverflowError) raised by the parser or by the datetime
      calls it makes. */
  datatype ParseError =
    | EmptyCommand      // nothing left once the early modifier is taken out
    | NoTimeExpression  // none of the five grammars matches
    | InvalidDate       // datetime(...) or strptime rejects the written date
    | InvalidTime       // replace(hour=..., minute=...) rejects the resolved clock
    | DateOverflow      // adding the offset runs past datetime.MAXYEAR
    | PastTime          // the target is not after the current minute
    | UnknownDayName    // days.index() finds no weekday (reachable only as written)

  datatype Result<T> = Ok(value: T) | Err(error: ParseError)

  datatype Reminder = Reminder(task: string, target: DateTime, early: nat)

  /** The body with the early modifier taken out, and the minutes it asked for. */
  datatype Body = Body(text: string, early: nat)

  /** len("/remind") */
  const PrefixLength := 7

  /** command_text[len("/remind"):].strip(): the prefix is cut by length, whatever
      the first seven characters are. Nothing is left exactly when the rest of the
      command is blank, and what is left neither starts nor ends with whitespace. */
  function CommandBody(text: string): (r: string)
    ensures r == [] <==> |text| <= PrefixLength || AllSpace(text[PrefixLength..])
    ensures r != [] ==> !IsSpace(r[0]) && !IsSpace(r[|r| - 1])
  {
    Strip(if |text| <= PrefixLength then [] else text[PrefixLength..])
  }

  /** Whatever seven characters stand in front, the text written after them comes
      back without the whitespace around it. */
  lemma {:induction false} CommandBodyOf(prefix: string, pre: string, t: string, post: string)
    requires |prefix| == PrefixLength && AllSpace(pre) && AllSpace(post)
    requires t == [] || (!IsSpace(t[0]) && !IsSpace(t[|t| - 1]))
    ensures CommandBody(prefix + pre + t + post) == t
  {
    assert (prefix + pre + t + post)[PrefixLength..] == pre + t + post;
    StripSurrounded(pre, t, post);
  }

  // ---------------------------------------------------------------------------
  // The early modifier

  /** Takes the early modifier out of the body: the text of the leftmost match is
      deleted wherever it occurs (str.replace), the rest is stripped, and its number
      becomes the offset. Without a modifier the body stays as it is and no early
      warning is asked for. */
  function ExtractEarly(body: string): (r: Body)
    ensures EarlyMatch(body).None? ==> r == Body(body, 0)
    ensures EarlyMatch(body).Some? ==> r.early == EarlyMatch(body).value.capture.minutes
    // what is left is never longer, and never starts or ends with whitespace
    ensures |r.text| <= |body|
    ensures EarlyMatch(body).Some? && r.text != [] ==>
      !IsSpace(r.text[0]) && !IsSpace(r.text[|r.text| - 1])
    // every copy of the matched text is deleted, then the ends are stripped
    ensures EarlyMatch(body).Some? ==>
      r.text == Strip(ReplaceAll(body, body[EarlyMatch(body).value.start..EarlyMatch(body).value.capture.end]))
    // when the matched text occurs nowhere else, exactly its span is cut out
    ensures EarlyMatch(body).Some?
      && OccursOnlyAt(body, EarlyMatch(body).value.start, EarlyMatch(body).value.capture.end)
      ==> r.text == Strip(body[..EarlyMatch(body).value.start] + body[EarlyMatch(body).value.capture.end..])
  {
    match EarlyMatch(body)
    case None => Body(body, 0)
    case Some(h) => TakeOut(body, h.start, h.capture.end, h.capture.minutes)
  }

  /** re.search(p_early, body, re.IGNORECASE): the leftmost early modifier. */
  function EarlyMatch(body: string): (r: Option<Hit<EarlyHit>>)
    ensures r.Some? ==> r.value.start < r.value.capture.end <= |body|
  {
    Search(EarlyAt, body, 0)
  }

  /** The text at [i, j) occurs nowhere else in the body, not even overlapping it. */
  predicate OccursOnlyAt(body: string, i: nat, j: nat)
    requires i < j <= |body|
  {
    !Contains(body[..j - 1], body[i..j]) && !Contains(body[j..], body[i..j])
  }

  /** `body.replace(body[i:j], "").strip()`, with the offset that goes with it. */
  function TakeOut(body: string, i: nat, j: nat, minutes: nat): (r: Body)
    requires i < j <= |body|
    ensures r.early == minutes && |r.text| <= |body|
    ensures r.text != [] ==> !IsSpace(r.text[0]) && !IsSpace(r.text[|r.text| - 1])
    ensures r.text == Strip(ReplaceAll(body, body[i..j]))
    ensures OccursOnlyAt(body, i, j) ==> r.text == Strip(body[..i] + body[j..])
  {
    if OccursOnlyAt(body, i, j) then
      DeleteSpan(body, i, j);
      Body(Strip(ReplaceAll(body, body[i..j])), minutes)
    else Body(Strip(ReplaceAll(body, body[i..j])), minutes)
  }

  // ---------------------------------------------------------------------------
  // Resolving a time expression against the current time

  /** datetime.combine(date, midnight).replace(hour=h, minute=m): midnight without a
      time clause, the resolved clock with one, and an error when the clock is
      not a time of day. */
  function AtClock(d: Date, clock: Option<ClockText>): (r: Result<DateTime>)
    requires ValidDate(d)
    ensures r.Ok? ==> ValidDateTime(r.value) && r.value.date == d
    ensures clock.None? ==> r == Ok(DateTime(d, 0, 0))
    ensures clock.Some? ==> (r.Ok? <==> ClockFits(clock.value))
    ensures clock.Some? && r.Ok? ==>
      (r.value.hour, r.value.minute) == ResolveClock(clock.value)
    ensures r.Err? ==> r.error == InvalidTime
  {
    match clock
    case None => Ok(DateTime(d, 0, 0))
    case Some(c) =>
      if ClockFits(c) then Ok(DateTime(d, ResolveClock(c).0, ResolveClock(c).1))
      else Err(InvalidTime)
  }

  /** Grammar 1: now + timedelta(minutes=v) or now + timedelta(hours=v). */
  function ResolveRelative(amount: nat, inMinutes: bool, now: DateTime): (r: Result<DateTime>)
    requires ValidDateTime(now)
    ensures r.Ok? ==> ValidDateTime(r.value)
    ensures r.Ok? ==> Stamp(r.value) == Stamp(now) + (if inMinutes then amount else 60 * amount)
    ensures r.Err? ==> r.error == DateOverflow
  {
    var t := AddMinutes(now, if inMinutes then amount else 60 * amount);
    if t.date.year > MaxYear then Err(DateOverflow) else Ok(t)
  }

  /** Grammar 2: the year defaults to the current one; the date is checked before
      the clock. */
  function ResolveMonthDate(day: nat, month: nat, year: Option<nat>, clock: Option<ClockText>,
                            now: DateTime): (r: Result<DateTime>)
    requires ValidDateTime(now)
    // the target is on the written day and month, in the written year or else this one
    ensures var d := Date(if year.Some? then year.value else now.date.year, month, day);
      (r.Ok? <==> ValidDate(d) && (clock.None? || ClockFits(clock.value)))
      && (r.Ok? ==> ValidDateTime(r.value) && r.value.date == d)
      && (r.Err? ==> (r.error == InvalidDate <==> !ValidDate(d)))
    // midnight without a time clause, the resolved reading with one
    ensures r.Ok? && clock.None? ==> r.value.hour == 0 && r.value.minute == 0
    ensures r.Ok? && clock.Some? ==> (r.value.hour, r.value.minute) == ResolveClock(clock.value)
    ensures r.Err? ==> r.error in {InvalidDate, InvalidTime}
  {
    var d := Date(if year.Some? then year.value else now.date.year, month, day);
    if !ValidDate(d) then Err(InvalidDate) else AtClock(d, clock)
  }

  /** The date a numeric date spells: year-month-day when the four-digit field comes
      first, day-month-year when it comes last. strptime's %m takes exactly the
      values 1 to 12 and %d exactly 1 to 31, and a year-first spelling can never be
      read day-first or the other way round, so the two attempts of the code come
      down to this one reading. */
  function NumericDateOf(first: nat, second: nat, third: nat, yearFirst: bool): (d: Date)
    ensures d.month == second
    ensures yearFirst ==> d.year == first && d.day == third
    ensures !yearFirst ==> d.year == third && d.day == first
  {
    if yearFirst then Date(first, second, third) else Date(third, second, first)
  }

  /** The directives of the two formats the code tries: %Y, %m and %d. */
  datatype Directive = YearField | MonthField | DayField

  /** A field of a numeric date as written: its value and its number of digits. */
  datatype Field = Field(value: nat, width: nat)

  /** Whether a strptime directive takes a written field: %Y takes exactly four
      digits, %m one or two digits from 1 to 12, %d one or two digits from 1 to 31. */
  predicate Takes(d: Directive, f: Field) {
    match d
    case YearField => f.width == 4
    case MonthField => 1 <= f.width <= 2 && 1 <= f.value <= 12
    case DayField => 1 <= f.width <= 2 && 1 <= f.value <= 31
  }

  /** The value of the field that a format reads with directive `d`. */
  function FieldFor(fields: seq<Field>, format: seq<Directive>, d: Directive): nat
    requires |fields| == 3 && |format| == 3
  {
    if format[0] == d then fields[0].value
    else if format[1] == d then fields[1].value
    else fields[2].value
  }

  /** datetime.strptime(date_str, format).date() for a date of three fields joined by
      dashes. None stands for the ValueError raised when a field does not fit its
      directive or when the fields do not make a date. */
  function Strptime(fields: seq<Field>, format: seq<Directive>): (r: Option<Date>)
    requires |fields| == 3 && |format| == 3
    ensures r.Some? ==> ValidDate(r.value)
    ensures r.Some? ==> forall k :: 0 <= k < 3 ==> Takes(format[k], fields[k])
  {
    if forall k :: 0 <= k < 3 ==> Takes(format[k], fields[k]) then
      var d := Date(FieldFor(fields, format, YearField), FieldFor(fields, format, MonthField),
                    FieldFor(fields, format, DayField));
      if ValidDate(d) then Some(d) else None
    else None
  }

  /** '%Y-%m-%d' and '%d-%m-%Y' */
  const YearMonthDay := [YearField, MonthField, DayField]
  const DayMonthYear := [DayField, MonthField, YearField]

  /** The code's reading of a numeric date: '%Y-%m-%d' first and, when that raises,
      '%d-%m-%Y', whose ValueError is the one that escapes. */
  function ReadDate(fields: seq<Field>): Option<Date>
    requires |fields| == 3
  {
    match Strptime(fields, YearMonthDay)
    case Some(d) => Some(d)
    case None => Strptime(fields, DayMonthYear)
  }

  /** Of the two formats, only the one whose year sits where the four digits were
      written can read a date the numeric grammar admits, so the code's two attempts
      come to the single reading NumericDateOf, and they fail exactly when that reading
      is not a date. */
  lemma {:induction false} NumericDateRead(first: nat, second: nat, third: nat, yearFirst: bool,
                                           widths: seq<nat>)
    requires |widths| == 3 && 1 <= widths[1] <= 2
    requires yearFirst ==> widths[0] == 4 && 1 <= widths[2] <= 2
    requires !yearFirst ==> 1 <= widths[0] <= 2 && widths[2] == 4
    ensures var read := ReadDate([Field(first, widths[0]), Field(second, widths[1]), Field(third, widths[2])]);
      var d := NumericDateOf(first, second, third, yearFirst);
      (read.Some? <==> ValidDate(d)) && (read.Some? ==> read.value == d)
  {
    var fields := [Field(first, widths[0]), Field(second, widths[1]), Field(third, widths[2])];
    var d := NumericDateOf(first, second, third, yearFirst);
    if yearFirst {
      assert !Takes(DayMonthYear[0], fields[0]);
      if ValidDate(d) {
        assert forall k :: 0 <= k < 3 ==> Takes(YearMonthDay[k], fields[k]);
      }
    } else {
      assert !Takes(YearMonthDay[0], fields[0]);
      if ValidDate(d) {
        assert forall k :: 0 <= k < 3 ==> Takes(DayMonthYear[k], fields[k]);
      }
    }
  }

  /** Grammar 3: the date is checked before the clock. */
  function ResolveNumericDate(first: nat, second: nat, third: nat, yearFirst: bool,
                              clock: Option<ClockText>): (r: Result<DateTime>)
    // the target is on the date as written, in the order it was written
    ensures var d := NumericDateOf(first, second, third, yearFirst);
      (r.Ok? <==> ValidDate(d) && (clock.None? || ClockFits(clock.value)))
      && (r.Ok? ==> ValidDateTime(r.value) && r.value.date == d)
      && (r.Err? ==> (r.error == InvalidDate <==> !ValidDate(d)))
    // midnight without a time clause, the resolved reading with one
    ensures r.Ok? && clock.None? ==> r.value.hour == 0 && r.value.minute == 0
    ensures r.Ok? && clock.Some? ==> (r.value.hour, r.value.minute) == ResolveClock(clock.value)
    ensures r.Err? ==> r.error in {InvalidDate, InvalidTime}
  {
    var d := NumericDateOf(first, second, third, yearFirst);
    if !ValidDate(d) then Err(InvalidDate) else AtClock(d, clock)
  }

  /** How many days ahead a day name points, seen from a day whose weekday is
      `today`: a weekday is the next one on or after today, and today's own weekday
      means a week ahead only when the user wrote "on" or "next" before it. */
  function DayOffset(e: TimeExpr, today: nat): (r: nat)
    requires e.DayName? && today < 7
    requires e.dayWord.DayOfWeek? ==> e.dayWord.index < 7
    ensures r <= 7
    ensures e.dayWord.Today? ==> r == 0
    ensures e.dayWord.Tomorrow? ==> r == 1
    ensures e.dayWord.DayAfterTomorrow? ==> r == 2
    ensures e.dayWord.DayOfWeek? ==> (today + r) % 7 == e.dayWord.index
    ensures e.dayWord.DayOfWeek? ==>
      (r == 7 <==> e.dayWord.index == today && e.qualifier in {On, Next})
  {
    match e.dayWord
    case Today => 0
    case Tomorrow => 1
    case DayAfterTomorrow(_) => 2
    case DayOfWeek(k) =>
      var ahead := (k - today + 7) % 7;
      if ahead == 0 && e.qualifier in {On, Next} then 7 else ahead
  }

  /** Grammar 4: the date moves by the day offset (which can overflow), then the
      clock is applied. */
  function ResolveDayName(e: TimeExpr, now: DateTime): (r: Result<DateTime>)
    requires e.DayName? && ValidDateTime(now)
    requires e.dayWord.DayOfWeek? ==> e.dayWord.index < 7
    ensures r.Ok? ==> ValidDateTime(r.value)
    // "today", "tomorrow" and "day after tomorrow" move the date by 0, 1 and 2 days
    ensures r.Ok? && e.dayWord.Today? ==> Ordinal(r.value.date) == Ordinal(now.date)
    ensures r.Ok? && e.dayWord.Tomorrow? ==> Ordinal(r.value.date) == Ordinal(now.date) + 1
    ensures r.Ok? && e.dayWord.DayAfterTomorrow? ==> Ordinal(r.value.date) == Ordinal(now.date) + 2
    // a weekday lands on that weekday, from today to a week ahead; a week ahead exactly
    // when it is today's weekday written after "on" or "next"
    ensures r.Ok? && e.dayWord.DayOfWeek? ==>
      Weekday(r.value.date) == e.dayWord.index
      && Ordinal(now.date) <= Ordinal(r.value.date) <= Ordinal(now.date) + 7
    ensures r.Ok? && e.dayWord.DayOfWeek? ==>
      (Ordinal(r.value.date) == Ordinal(now.date) + 7
       <==> e.dayWord.index == Weekday(now.date) && e.qualifier in {On, Next})
    // midnight without a time clause, the resolved reading with one
    ensures r.Ok? && e.clock.None? ==> r.value.hour == 0 && r.value.minute == 0
    ensures r.Ok? && e.clock.Some? ==> (r.value.hour, r.value.minute) == ResolveClock(e.clock.value)
    // the only failures: a date past the year 9999, or a clock that is no time of day
    ensures r.Err? ==> r.error in {DateOverflow, InvalidTime}
    ensures r.Err? && r.error == InvalidTime ==> e.clock.Some? && !ClockFits(e.clock.value)
    // it succeeds exactly when the moved date stays within the year 9999 and any
    // time clause is a time of day
    ensures r.Ok? <==> AddDays(now.date, DayOffset(e, Weekday(now.date))).year <= MaxYear
                       && (e.clock.Some? ==> ClockFits(e.clock.value))
  {
    var d := AddDays(now.date, DayOffset(e, Weekday(now.date)));
    WeekdayAhead(e, now.date);
    if d.year > MaxYear then Err(DateOverflow) else AtClock(d, e.clock)
  }

  /** Moving a date ahead by the offset of a weekday name lands on that weekday. */
  lemma WeekdayAhead(e: TimeExpr, d: Date)
    requires e.DayName? && WellFormed(d)
    requires e.dayWord.DayOfWeek? ==> e.dayWord.index < 7
    ensures e.dayWord.DayOfWeek? ==> Weekday(AddDays(d, DayOffset(e, Weekday(d)))) == e.dayWord.index
  {
    if e.dayWord.DayOfWeek? {
      var today := Weekday(d);
      var n := DayOffset(e, today);
      LandsOn(d, today, n, e.dayWord.index);
    }
  }

  lemma LandsOn(d: Date, today: nat, n: nat, k: nat)
    requires WellFormed(d) && today == Weekday(d) && (today + n) % 7 == k
    ensures Weekday(AddDays(d, n)) == k
  {
    AddDaysWeekday(d, n);
  }

  /** Grammar 5: today's date at the resolved clock, or tomorrow's when that minute
      has already come. */
  function ResolveTimeOnly(c: ClockText, now: DateTime): (r: Result<DateTime>)
    requires ValidDateTime(now)
    ensures !ClockFits(c) ==> r == Err(InvalidTime)
    ensures r.Ok? ==> (ValidDateTime(r.value)
                       && (r.value.hour, r.value.minute) == ResolveClock(c)
                       && Stamp(now) < Stamp(r.value) <= Stamp(now) + 1440)
    // it succeeds exactly when the clock is a time of day and either that reading is
    // still ahead today or tomorrow is within the year 9999
    ensures r.Ok? <==> ClockFits(c) && (SlotAhead(c, now) || NextDay(now.date).year <= MaxYear)
    // today's slot when it is still ahead, tomorrow's otherwise
    ensures r.Ok? && SlotAhead(c, now) ==> r.value.date == now.date
    ensures r.Ok? && !SlotAhead(c, now) ==> r.value.date == NextDay(now.date)
    ensures r.Err? ==> r.error in {InvalidTime, DateOverflow}
  {
    if !ClockFits(c) then Err(InvalidTime)
    else
      var (hour, minute) := ResolveClock(c);
      var slot := DateTime(now.date, hour, minute);
      if Stamp(slot) > Stamp(now) then Ok(slot)
      else
        var next := NextDay(now.date);
        if next.year > MaxYear then Err(DateOverflow) else Ok(DateTime(next, hour, minute))
  }

  /** The clock's reading today is still ahead of now. */
  predicate SlotAhead(c: ClockText, now: DateTime)
    requires ValidDateTime(now)
  {
    Stamp(DateTime(now.date, ResolveClock(c).0, ResolveClock(c).1)) > Stamp(now)
  }

  /** The target a time expression names, before the check against the past. */
  function ResolveTarget(e: TimeExpr, now: DateTime): (r: Result<DateTime>)
    requires ValidDateTime(now)
    requires e.DayName? && e.dayWord.DayOfWeek? ==> e.dayWord.index < 7
    ensures r.Ok? ==> ValidDateTime(r.value)
    ensures r.Err? ==> r.error in {InvalidDate, InvalidTime, DateOverflow}
  {
    match e
    case InRelative(amount, inMinutes) => ResolveRelative(amount, inMinutes, now)
    case MonthDate(day, month, year, clock) => ResolveMonthDate(day, month, year, clock, now)
    case NumericDate(first, second, third, yearFirst, clock) =>
      ResolveNumericDate(first, second, third, yearFirst, clock)
    case DayName(_, _, _, _) => ResolveDayName(e, now)
    case TimeOnly(c) => ResolveTimeOnly(c, now)
  }

  // ---------------------------------------------------------------------------
  // The parser

  /** `task_text or "Reminder"` */
  function TaskOrDefault(task: string): (r: string)
    ensures r != []
    ensures task != [] ==> r == task
    ensures task == [] ==> r == "Reminder"
  {
    if task == [] then "Reminder" else task
  }

  /** parse_reminder_command. `now` is the current time in the parser's zone,
      truncated to the minute (the seconds of the clock never change the outcome). */
  function ParseReminderCommand(text: string, now: DateTime): (r: Result<Reminder>)
    requires ValidDateTime(now)
    // a reminder is always for a real minute that is still to come
    ensures r.Ok? ==> ValidDateTime(r.value.target) && Stamp(r.value.target) > Stamp(now)
    // its task is never empty and never starts or ends with whitespace
    ensures r.Ok? ==> (r.value.task != [] && !IsSpace(r.value.task[0])
                       && !IsSpace(r.value.task[|r.value.task| - 1]))
    ensures r.Ok? ==> r.value.early == ExtractEarly(CommandBody(text)).early
    ensures (r == Err(EmptyCommand)) <==> ExtractEarly(CommandBody(text)).text == []
    ensures (r == Err(NoTimeExpression)) <==>
      (ExtractEarly(CommandBody(text)).text != []
       && FindTimeExpression(ExtractEarly(CommandBody(text)).text).None?)
    ensures r.Err? ==> r.error != UnknownDayName
  {
    var body := ExtractEarly(CommandBody(text));
    if body.text == [] then Err(EmptyCommand) else ReminderIn(body, now)
  }

  /** A non-empty body: the first grammar that matches decides the reminder. */
  function ReminderIn(body: Body, now: DateTime): (r: Result<Reminder>)
    requires ValidDateTime(now)
    ensures r.Ok? ==> ValidDateTime(r.value.target) && Stamp(r.value.target) > Stamp(now)
    ensures r.Ok? ==> (r.value.task != [] && !IsSpace(r.value.task[0])
                       && !IsSpace(r.value.task[|r.value.task| - 1]))
    ensures r.Ok? ==> r.value.early == body.early
    ensures r == Err(NoTimeExpression) <==> FindTimeExpression(body.text).None?
    ensures r.Err? ==> r.error != UnknownDayName && r.error != EmptyCommand
  {
    match FindTimeExpression(body.text)
    case None => Err(NoTimeExpression)
    case Some(h) => ReminderAt(body, h, now)
  }

  /** What the matched expression makes of the body: its target unless that minute
      is not in the future, and the words before the match as its task text. */
  function ReminderAt(body: Body, h: Hit<TimeExpr>, now: DateTime): (r: Result<Reminder>)
    requires ValidDateTime(now) && h.start <= |body.text|
    requires h.capture.DayName? && h.capture.dayWord.DayOfWeek? ==> h.capture.dayWord.index < 7
    ensures r.Ok? ==> ValidDateTime(r.value.target) && Stamp(r.value.target) > Stamp(now)
    ensures r.Ok? ==> (r.value.task != [] && !IsSpace(r.value.task[0])
                       && !IsSpace(r.value.task[|r.value.task| - 1]))
    ensures r.Ok? ==> r.value.early == body.early
    ensures r.Err? ==> r.error in {InvalidDate, InvalidTime, DateOverflow, PastTime}
  {
    Conclude(body, h.start, ResolveTarget(h.capture, now), now)
  }

  /** The final processing once the target is resolved: a target that is not after
      the current minute is turned away, and the words before the match, stripped,
      become its task text. */
  function Conclude(body: Body, start: nat, target: Result<DateTime>, now: DateTime): (r: Result<Reminder>)
    requires ValidDateTime(now) && start <= |body.text|
    requires target.Ok? ==> ValidDateTime(target.value)
    ensures target.Err? ==> r == Err(target.error)
    ensures target.Ok? ==> (r.Ok? <==> Stamp(target.value) > Stamp(now))
    ensures target.Ok? && r.Err? ==> r.error == PastTime
    ensures r.Ok? ==> target.Ok? && r.value.target == target.value
    ensures r.Ok? ==> r.value.task == TaskOrDefault(Strip(body.text[..start])) && r.value.early == body.early
  {
    match target
    case Err(e) => Err(e)
    case Ok(t) =>
      if Stamp(t) <= Stamp(now) then Err(PastTime)
      else Ok(Reminder(TaskOrDefault(Strip(body.text[..start])), t, body.early))
  }
}
