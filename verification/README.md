# Reminder command parser

A Dafny model of `parse_reminder_command`, the parser behind the `/remind` command of
the Telegram reminder bot (`telegramWebhookHandler.py`). Given the text of a command and
the current time, the parser returns three things, or rejects the command:

- a task text;
- the target time;
- the number of minutes ahead of the target at which an early warning is due.

The model follows the code step by step, with one exception. The main parser
(`Parser.ParseReminderCommand`) resolves day names by the corrected rule of
`Parser.DayOffset`. The code as written, day-name rule included, is `Findings.ParseAsWritten`,
and `Findings.ParsesAgree` proves that the two give the same outcome on every command
outside the two cases listed under Findings below.

The steps:

- `/remind` is cut off and the rest is stripped (`Parser.CommandBody`).
- The optional `early [reminder] N [min|mins|minute|minutes]` modifier is found with
  `re.search`. Its text is deleted from the body with `str.replace` and the result is
  stripped (`Parser.ExtractEarly`).
- Five trailing-anchored grammars are tried in the code's order (`Patterns.FindTimeExpression`):
  1. relative: `in N minutes`, `in N hours`;
  2. a day and a month name;
  3. a numeric date;
  4. a day name: `monday` … `sunday`, `tomorrow`, `today`, `day after tomorrow`, with an
     optional `on`, `next` or `at` in front;
  5. a time of day alone.

  Each grammar is a recogniser `XAt(s, i)` that follows the backtracking order of Python's
  `re` engine. `Patterns.Search` plays `re.search`: the first start position at which the
  recogniser succeeds.
- The match is resolved against the current time (`Parser.ResolveTarget`). The am/pm rule
  the code repeats in four places is `Clock.ResolveClock`.
- The final checks come last (`Parser.ReminderAt`):
  - a target that is not after the current minute is rejected;
  - task text is what comes before the match, stripped, or `"Reminder"` when nothing is left.

Dates are proleptic Gregorian dates, as in Python's `datetime`, from year 1 to
`datetime.MAXYEAR` (module `Calendar`). Time is kept to the minute in the parser's fixed
zone (UTC+05:30, no daylight saving). Each exception the parser or its `datetime` calls
can raise becomes a `Parser.ParseError` value.

Files:

- `text.dfy` holds the string operations: whitespace, `\b`, `strip`, `str.replace`.
- `calendar.dfy` holds the calendar.
- `clock.dfy` holds the am/pm resolver.
- `patterns.dfy` holds the regular expressions and the cascade.
- `parser.dfy` holds the parser itself.
- `spellings.dfy` ties each grammar to the text it reads, in both directions. A "Recognises"
  lemma takes a written spelling to what the grammar captures from it. A "Captures" lemma
  takes any match back to the pieces of text it was read from.
- `properties.dfy` states what a parse means, grammar by grammar.
- `scenarios.dfy` works the command "Pay rent on 15th August at 6pm early 30" through the
  whole parser, and resolves a bare "9:00am" and a bare "tomorrow" against a given time.
- `findings.dfy` holds the day-offset rule and the whole parser as the code runs them, the
  proof that they agree with the corrected ones outside two cases, and the inputs that show
  those two cases.

`str.replace` deletes every copy of the matched early text, and only the two ends of the
result are stripped, so a task text can keep a double space inside it. `Parser.ExtractEarly`
shows that this comes to deleting the matched span when the text occurs only there.

## Model

| member | source | states |
|---|---|---|
| `Text.Strip` | telegramWebhookHandler.py:85 | `str.strip()`: the result is empty exactly when the text is all whitespace. Otherwise it is the slice from the first to the last non-whitespace character, so it neither starts nor ends with whitespace. |
| `Text.StripSurrounded` | telegramWebhookHandler.py:93 | Stripping a text wrapped in whitespace on both sides gives back the text, when the text itself has no whitespace at its ends. |
| `Text.StripIdempotent` | telegramWebhookHandler.py:93 | Stripping twice is the same as stripping once. |
| `Text.ReplaceAll` | telegramWebhookHandler.py:93 | `str.replace(fragment, "")` never makes the text longer. |
| `Text.ReplaceAllAbsent` | telegramWebhookHandler.py:93 | Replacing a fragment that does not occur leaves the text unchanged. |
| `Text.ReplaceAllFirst` | telegramWebhookHandler.py:93 | The first occurrence is deleted, the text before it is kept, and scanning resumes right after it. |
| `Text.DeleteSpan` | telegramWebhookHandler.py:93 | If the span s[i..j] occurs nowhere else, deleting every occurrence deletes exactly that span. |
| `Text.SkipSpaces` | telegramWebhookHandler.py:89 | `\s*` taken greedily: everything skipped is whitespace, and the next character is not. |
| `Text.SkipDigits` | telegramWebhookHandler.py:89 | `\d*` taken greedily: everything skipped is a digit, and the next character is not. |
| `Text.DigitsValueBound` | telegramWebhookHandler.py:92 | `int()` of an n-digit numeral is below 10^n. |
| `Calendar.DaysInMonth` | telegramWebhookHandler.py:132 | The month lengths `datetime` accepts: 28 to 31 days, and 29 exactly for February of a leap year. |
| `Calendar.NextDay` | telegramWebhookHandler.py:216 | `+ timedelta(days=1)` gives a well-formed date whose day number is one more. |
| `Calendar.AddDays` | telegramWebhookHandler.py:178-188 | `+ timedelta(days=n)` gives a well-formed date whose day number is n more, and never an earlier year. |
| `Calendar.AddDaysWeekday` | telegramWebhookHandler.py:182 | Adding n days moves `weekday()` forward by n, modulo 7. |
| `Calendar.Weekday` | telegramWebhookHandler.py:182 | `date.weekday()` lies in 0..6, with Monday 0. |
| `Calendar.DaysBeforeYearStep` | telegramWebhookHandler.py:178 | The closed form for the days before a year grows by that year's length, so day numbers stay consecutive across New Year. |
| `Calendar.AddMinutes` | telegramWebhookHandler.py:113-115 | `+ timedelta(minutes=n)` gives a valid time of day whose minute stamp is n more. |
| `Clock.ResolveClock` | telegramWebhookHandler.py:207-213 | The am/pm rule: "pm" gives the afternoon reading of hours 1 to 12, "am" gives the morning reading, a marker-free time passes through, and "0pm" reads as noon. |
| `Clock.TwelveHourText` | telegramWebhookHandler.py:103 | How a 24-hour reading is written on the 12-hour clock: an hour from 1 to 12 and a marker. This is the inverse partner of ResolveClock. |
| `Clock.ClockRoundTrip` | telegramWebhookHandler.py:207-213 | Every valid time of day is reached both from its 12-hour spelling and from its 24-hour spelling. |
| `Clock.ClockExamples` | telegramWebhookHandler.py:212-213 | 12am is 00:00, 12pm is 12:00, 1pm is 13:00, 11:59pm is 23:59, and 13pm stays 13:00. |
| `Patterns.Search` | telegramWebhookHandler.py:108 | `re.search`: a reported match really matches, and no position before it does. No match means no position matches. |
| `Patterns.SearchIsLeftmost` | telegramWebhookHandler.py:108 | Search reports a hit if and only if that hit is the leftmost match. |
| `Patterns.SearchSkip` | telegramWebhookHandler.py:108 | Positions where the pattern cannot match do not change the result of the search. |
| `Patterns.SearchNone` | telegramWebhookHandler.py:219-220 | When no position matches, the search finds nothing. |
| `Patterns.FirstWord` | telegramWebhookHandler.py:120 | An alternation picks one of the listed words, and that word lies within the text. |
| `Patterns.FirstWordIsFirst` | telegramWebhookHandler.py:120-122 | The alternative chosen fits with the rest of the pattern and no earlier one does. Nothing is chosen exactly when none fits. |
| `Patterns.FirstWordPicks` | telegramWebhookHandler.py:120-122 | The first fitting alternative is the one the engine takes. |
| `Patterns.FirstWordNone` | telegramWebhookHandler.py:169-170 | When no alternative occurs, nothing is chosen. |
| `Patterns.WordInitial` | telegramWebhookHandler.py:108 | A word matched case-insensitively begins with the lower-cased character at the match position. |
| `Patterns.WordThenSpace` | telegramWebhookHandler.py:107 | `word\s+` matches only where the word stands and at least one whitespace character follows it. |
| `Patterns.RelativeAt` | telegramWebhookHandler.py:107 | Grammar 1 yields only relative expressions, and only where an "in" starts. |
| `Spellings.RelativeAtRecognises` | telegramWebhookHandler.py:107 | Every spelling `in N unit[s]` matches and captures N, in minutes exactly for the minute units. |
| `Spellings.RelativeAtCaptures` | telegramWebhookHandler.py:107 | Every relative match reads "in", whitespace, the digits it captures, whitespace and one of the four units, optionally plural, and counts minutes exactly for "minute" and "min". |
| `Patterns.MonthBody` | telegramWebhookHandler.py:122-123 | A day-and-month match yields a month from 1 to 12. |
| `Patterns.MonthNameAt` | telegramWebhookHandler.py:120-123 | The month name chosen is one of the 24 listed spellings. |
| `Patterns.MonthNameAtPicks` | telegramWebhookHandler.py:122-123 | The chosen name, followed by the year and time tail, is what the month group and the tail capture. |
| `Patterns.MonthDateAt` | telegramWebhookHandler.py:121-125 | Grammar 2 yields a month from 1 to 12, and matches only at a digit or at "on". |
| `Spellings.MonthBodyRecognises` | telegramWebhookHandler.py:122-123 | Every spelling day[suffix] month [year] [at time] is read as that day, that month's number, that year and that clock. |
| `Spellings.MonthDateAtRecognises` | telegramWebhookHandler.py:121-125 | The same, with or without a leading "on". |
| `Spellings.MonthBodyCaptures` | telegramWebhookHandler.py:122-123 | Every day-and-month match reads one or two digits, an optional ordinal suffix, whitespace, a month name whose number is captured, then the year and time tail it captures. |
| `Spellings.MonthDateAtCaptures` | telegramWebhookHandler.py:121-125 | The same, after an optional "on" and whitespace. |
| `Patterns.DateFields` | telegramWebhookHandler.py:147 | A numeric date keeps the order in which it was written. |
| `Patterns.NumericBody` | telegramWebhookHandler.py:147 | The body of a numeric date yields a numeric date. |
| `Patterns.NumericDateAt` | telegramWebhookHandler.py:147-148 | Grammar 3 yields numeric dates, and matches only at a digit or at "on". |
| `Spellings.DateFieldsRecognises` | telegramWebhookHandler.py:147 | Every numeric spelling with separators `-` or `/` is read field by field, in written order, with its clock. |
| `Spellings.NumericBodyRecognises` | telegramWebhookHandler.py:147 | The body reads a four-digit-first spelling year-first and a four-digit-last spelling year-last. |
| `Spellings.NumericDateAtRecognises` | telegramWebhookHandler.py:147-148 | The same, with or without a leading "on". |
| `Spellings.DateFieldsCaptures` | telegramWebhookHandler.py:147 | Every match reads three digit runs of the allowed widths, joined by separators, then the time tail it captures. |
| `Spellings.NumericBodyCaptures` | telegramWebhookHandler.py:147 | Every numeric match is year-first with widths 4, 1-2, 1-2, or year-last with widths 1-2, 1-2, 4. |
| `Spellings.NumericDateAtCaptures` | telegramWebhookHandler.py:147-148 | The same, after an optional "on" and whitespace. |
| `Patterns.DayBody` | telegramWebhookHandler.py:169-171 | A weekday index is below 7, and a match starts with one of the initials of the day words. |
| `Patterns.AfterTomorrowEnd` | telegramWebhookHandler.py:170 | `day\s+after\s+tomorrow` matches only at a "d" and ends inside the text. |
| `Patterns.AfterTomorrowAt` | telegramWebhookHandler.py:170-171 | That alternative yields "day after tomorrow" as spelled, and only at a "d". |
| `Patterns.DayNameAt` | telegramWebhookHandler.py:168-173 | Grammar 4 yields day names whose weekday index is below 7. The matched text, lower-cased, runs to the end of the body, as `match.group(0)` does. |
| `Spellings.AfterTomorrowRecognises` | telegramWebhookHandler.py:170 | "day after tomorrow", with or without a time clause, is recognised with its clock. |
| `Spellings.DayBodyRecognises` | telegramWebhookHandler.py:169-171 | Every day word, with or without a time clause, is read as that day and that clock. |
| `Spellings.DayNameAtRecognises` | telegramWebhookHandler.py:168-173 | The same after "on", "next" or "at" or none, with the qualifier and the lower-cased matched text. |
| `Spellings.AfterTomorrowEndCaptures` | telegramWebhookHandler.py:170 | A `day\s+after\s+tomorrow` match reads the three words with whitespace between them. |
| `Spellings.DayBodyCaptures` | telegramWebhookHandler.py:169-171 | Every day-word match is one of the listed day words, or that spaced phrase, followed by the time tail it captures. |
| `Spellings.DayNameAtCaptures` | telegramWebhookHandler.py:168-173 | Every day-name match starts with the qualifier it captures and whitespace, or starts at the day word when there is none. |
| `Patterns.TimeOnlyAt` | telegramWebhookHandler.py:203-204 | Grammar 5 yields a bare time, and matches only at a digit or at "at". |
| `Spellings.TimeAtRecognises` | telegramWebhookHandler.py:103 | Every clock spelling `H[:MM][ ][am|pm]` is read as that hour, minute and marker. |
| `Spellings.TimeAtCaptures` | telegramWebhookHandler.py:103 | Every time match reads one or two hour digits, then either a colon and two minute digits or a marker, and nothing but whitespace after. |
| `Spellings.AtTimeTailRecognises` | telegramWebhookHandler.py:123 | An optional `at TIME` tail is read as that clock, or none. |
| `Spellings.AtTimeTailCaptures` | telegramWebhookHandler.py:123 | A tail is whitespace alone, or whitespace, "at", whitespace and a time. |
| `Spellings.YearTimeTailRecognises` | telegramWebhookHandler.py:122-123 | An optional year and optional `at TIME` are read as that year and clock. |
| `Spellings.YearTimeTailCaptures` | telegramWebhookHandler.py:122-123 | A captured year is four digits after whitespace, followed by the time tail. |
| `Spellings.TimeOnlyAtRecognises` | telegramWebhookHandler.py:203-204 | Every time spelling, with or without "at", matches as a bare time with that clock. |
| `Spellings.TimeOnlyAtCaptures` | telegramWebhookHandler.py:203-204 | Every time-only match is a time, after an optional "at" and whitespace. |
| `Patterns.EarlyAt` | telegramWebhookHandler.py:89-90 | The early modifier matches only at a word boundary before an "e", and its match is longer than the word "early". |
| `Spellings.EarlyAtRecognises` | telegramWebhookHandler.py:89-90 | At a word boundary, every spelling of `early[ reminder] N[ unit]` that ends the word matches, up to its end, and captures N. |
| `Spellings.EarlyAtCaptures` | telegramWebhookHandler.py:89-90 | Every early match reads, at a boundary, "early", whitespace, optionally "reminder" and whitespace, the digits it captures, then optionally whitespace and a unit, ending at a boundary. |
| `Patterns.FindTimeExpression` | telegramWebhookHandler.py:106-220 | The grammars are tried in order: each later grammar decides only when every earlier one found nothing anywhere, and nothing is found only when all five fail. |
| `Parser.CommandBody` | telegramWebhookHandler.py:85 | The first seven characters are cut off whatever they are, and the rest is stripped. The result is empty exactly when nothing but whitespace follows them; otherwise it neither starts nor ends with whitespace. |
| `Parser.CommandBodyOf` | telegramWebhookHandler.py:85 | Any seven-character prefix, then whitespace, a text without whitespace at its ends and more whitespace, gives back exactly that text. |
| `Parser.ExtractEarly` | telegramWebhookHandler.py:88-93 | Without a modifier the body is unchanged and the offset is 0. With one, the offset is the number of the leftmost match, and the new body is the body with every copy of the matched text deleted, then stripped, so it neither starts nor ends with whitespace. When the matched text occurs only where it matched, this is the text before the match plus the text after it, stripped. |
| `Parser.AtClock` | telegramWebhookHandler.py:189-199 | Without a time clause the target is midnight. With one, the target is the resolved clock, and an error exactly when that clock is not a time of day. |
| `Parser.ResolveRelative` | telegramWebhookHandler.py:109-115 | The target lies exactly N minutes, or 60·N minutes, after now. Only running past year 9999 fails. |
| `Parser.ResolveMonthDate` | telegramWebhookHandler.py:126-143 | The target exists exactly when the written day and month, in the written year or else the current one, form a real date and any time clause is a time of day. It then falls on that date, at midnight or at the resolved reading. InvalidDate is reported exactly when the date does not exist. |
| `Parser.NumericDateOf` | telegramWebhookHandler.py:151-153 | A year-first date is read year-month-day and a year-last date is read day-month-year. |
| `Parser.Strptime` | telegramWebhookHandler.py:152-153 | `strptime` on three numeric fields: a result is always a real date, and each field fits its directive (%Y four digits, %m 1 to 12, %d 1 to 31, in one or two digits). |
| `Parser.NumericDateRead` | telegramWebhookHandler.py:151-153 | For every field widths the numeric grammar admits, trying `%Y-%m-%d` and then `%d-%m-%Y` succeeds exactly when NumericDateOf gives a real date, and then gives that date. |
| `Parser.ResolveNumericDate` | telegramWebhookHandler.py:150-164 | The target exists exactly when the date read from the fields is real and any time clause is a time of day. It then falls on that date, at midnight or at the resolved reading. InvalidDate is reported exactly when the date does not exist. |
| `Parser.DayOffset` | telegramWebhookHandler.py:176-188 | today is 0 days ahead, tomorrow 1, the day after 2. A weekday lands on that weekday within 7 days, and it is 7 days ahead exactly when it is today's weekday and "on" or "next" was written before it. |
| `Parser.ResolveDayName` | telegramWebhookHandler.py:174-199 | today, tomorrow and the day after tomorrow move the date by 0, 1 and 2 days. A weekday lands on that weekday within a week, and exactly 7 days ahead when it is today's weekday after "on" or "next". The clock is midnight or the resolved reading. It succeeds exactly when the moved date stays within year 9999 and any time clause is a time of day. |
| `Parser.WeekdayAhead` | telegramWebhookHandler.py:182-188 | Moving a date ahead by a weekday's offset lands on that weekday. |
| `Parser.LandsOn` | telegramWebhookHandler.py:182 | Moving n days from weekday w lands on weekday (w + n) mod 7. |
| `Parser.ResolveTimeOnly` | telegramWebhookHandler.py:205-217 | It succeeds exactly when the clock is a time of day and either today's slot is still ahead or tomorrow is within year 9999. The target is today's slot when that is still ahead, otherwise tomorrow's: strictly after now, at most 24 hours ahead, showing the resolved reading. |
| `Parser.ResolveTarget` | telegramWebhookHandler.py:106-217 | A resolved target is always a valid date and time. The only failures are an invalid date, an invalid time or an overflow. |
| `Parser.TaskOrDefault` | telegramWebhookHandler.py:228 | `task_text or "Reminder"`: an empty task becomes "Reminder", and a non-empty task is kept. |
| `Parser.ParseReminderCommand` | telegramWebhookHandler.py:80-228 | A reminder is always for a valid minute after now. Its task is never empty and has no whitespace at either end, and its offset is the early modifier's. EmptyCommand and NoTimeExpression occur exactly when the body is empty or no grammar matches. |
| `Parser.ReminderIn` | telegramWebhookHandler.py:219-228 | "No time expression" is reported exactly when no grammar matches. The other guarantees are those of ParseReminderCommand. |
| `Parser.ReminderAt` | telegramWebhookHandler.py:222-228 | A target that is not after the current minute is rejected. Its task text is what comes before the match. |
| `Parser.Conclude` | telegramWebhookHandler.py:222-228 | A resolution error passes through. A resolved target is accepted exactly when it is after the current minute, and is otherwise PastTime. The reminder keeps that target, the early offset and the stripped text before the match (or "Reminder"). |
| `Properties.Parsed` | telegramWebhookHandler.py:219-228 | Once the time expression is found, the outcome depends only on it, on the body and on now. |
| `Properties.TaskBeforeMatch` | telegramWebhookHandler.py:206 | Whatever the grammar, task text is what comes before the match, stripped, or "Reminder". |
| `Properties.RelativeReminder` | telegramWebhookHandler.py:106-116 | "in N minutes/hours" succeeds exactly when it is at least one minute ahead and stays within year 9999, and then lands exactly that far ahead. "in 0 minutes" is in the past. |
| `Properties.TimeOnlyReminder` | telegramWebhookHandler.py:201-217 | A bare time is never in the past. It is accepted exactly when the clock is a time of day and today's slot is ahead or tomorrow is within year 9999. It lands on today if the slot is still ahead and tomorrow otherwise, shows the resolved reading, and lies within the next 24 hours. |
| `Properties.WeekdayReminder` | telegramWebhookHandler.py:180-188 | A weekday name lands on that weekday, no more than a week ahead. A weekday other than today's is always accepted when the date stays within year 9999 and any time clause is a time of day. |
| `Properties.MonthDateReminder` | telegramWebhookHandler.py:118-143 | The date is the written day and month, in the current year unless a year is written. A nonexistent date is rejected. The target is midnight without a time clause, and the resolved reading with one. |
| `Properties.NumericDateReminder` | telegramWebhookHandler.py:145-164 | The date is the written one in its written order. A nonexistent date is rejected. The target is midnight without a time clause, and the resolved reading with one. |
| `Properties.NamedDayReminder` | telegramWebhookHandler.py:177-179 | "today", "tomorrow" and "day after tomorrow" move the date by 0, 1 and 2 days, at midnight or at the resolved reading. "tomorrow" and "day after tomorrow" are always accepted when the date stays within year 9999 and any time clause is a time of day. |
| `Properties.EarlyTrailing` | telegramWebhookHandler.py:89-93 | A task text free of the word "early", followed by any spelling of the early modifier, gives the stripped task and the modifier's number of minutes. |
| `Findings.DayOffsetAsWritten` | telegramWebhookHandler.py:176-188 | The code's rule: "day after tomorrow" not spelled with single spaces fails with UnknownDayName. Today's weekday jumps 7 days when "on" or "next" occurs anywhere in the match. |
| `Findings.ResolveDayNameAsWritten` | telegramWebhookHandler.py:174-199 | Grammar 4 as the code runs it. It fails with UnknownDayName exactly on a "day after tomorrow" not spelled with single spaces. A weekday still lands on that weekday within a week. |
| `Findings.ResolveTargetAsWritten` | telegramWebhookHandler.py:106-217 | The code's resolution: grammar 4 by the code's rule, and every other grammar exactly as in ResolveTarget. |
| `Findings.ParseAsWritten` | telegramWebhookHandler.py:80-228 | The whole parser as written. A reminder is for a valid minute after now, with a non-empty task and the early offset. UnknownDayName is raised exactly when the deciding expression is a spaced-out "day after tomorrow". |
| `Findings.ParsesAgree` | telegramWebhookHandler.py:183-188 | Whenever the deciding expression is not one of the two cases of the findings, the code and the corrected parser give the same outcome. |
| `Findings.TargetsAgree` | telegramWebhookHandler.py:183-188 | The code's and the corrected resolution agree for a found expression outside those two cases. |
| `Findings.QualifierLeadsMatch` | telegramWebhookHandler.py:168-173 | A qualified day name's matched text begins with the qualifier. |
| `Findings.AsWrittenAgreesOtherwise` | telegramWebhookHandler.py:183-188 | For every day-name match, the code's rule and the corrected rule differ exactly in the two cases of the findings. |
| `Findings.OffsetsPartExactly` | telegramWebhookHandler.py:183-188 | The two rules part exactly in those two cases. |
| `Findings.MondayAsWritten` | telegramWebhookHandler.py:186-187 | For a bare "monday at 6pm" said on a Monday, the code adds 7 days. |
| `Findings.MondayParsedAsWritten` | telegramWebhookHandler.py:80-228 | Run as written, "/remind Gym monday at 6pm" sent on Monday 2025-08-04 at 08:00 gives task "Gym" and 2025-08-11 18:00, a week late. |
| `Findings.MondayCorrected` | telegramWebhookHandler.py:183-185 | With the corrected rule, "/remind Gym monday at 6pm" on Monday at 08:00 is for 18:00 the same day. |
| `Findings.LaterAsWritten` | telegramWebhookHandler.py:179-182 | "day  after tomorrow" with two spaces is rejected by the code's rule. |
| `Findings.LaterParsedAsWritten` | telegramWebhookHandler.py:80-228 | Run as written, "/remind Gym day  after tomorrow" on Monday is turned away with UnknownDayName. |
| `Findings.LaterCorrected` | telegramWebhookHandler.py:179 | With the corrected rule, "/remind Gym day  after tomorrow" on Monday is for midnight on Wednesday. |
| `Scenarios.RentScenario` | telegramWebhookHandler.py:80-228 | "/remind Pay rent on 15th August at 6pm early 30", sent on 2025-08-01 at 09:00, gives task text "Pay rent", the target 2025-08-15 18:00 and an offset of 30 minutes. |
| `Scenarios.MorningTomorrow` | telegramWebhookHandler.py:205-217 | "9:00am" said at 10:00 on 2025-06-10 resolves to 2025-06-11 09:00. |
| `Scenarios.StandupTomorrow` | telegramWebhookHandler.py:176-178 | "tomorrow" said at 09:00 on 2025-08-01 resolves to 2025-08-02 00:00. |

## Left out

- `lambda_handler`, `send_message`, `get_friendly_time_string`, the DynamoDB and SSM calls and `reminderSender.py` are not part of this model. They are I/O and formatting around the parser.
- The current time (`datetime.now(IST)`) is a parameter that already stands in the parser's zone. The zone itself is not represented, because UTC+05:30 has no daylight saving, so wall-clock and instant arithmetic agree.
- Seconds and microseconds of the current time are not represented. The parser truncates the target to the minute and compares it with the current minute, so they never change the outcome.
- Exception messages are not modelled. Each exception is one `ParseError` value: `ValueError` from the parser or from `datetime`/`strptime`, and `OverflowError` from date arithmetic past year 9999.
- `\d` and `int()` are modelled on ASCII digits only. Python also accepts other Unicode decimal digits there.
- `\w` in `\b` is modelled on ASCII letters, digits and `_`, and `re.IGNORECASE` only on ASCII letters. Python's Unicode word characters and Unicode case folding (for example the Kelvin sign matching `k`) are not modelled.
- `strptime(..., '%b')` is taken to map the three-letter month names in the C/English locale. Other locales are not modelled.
- `Patterns.TimeAt`, `Patterns.AtTimeTail` and `Patterns.YearTimeTail` carry no contract of their own. They are the regex fragments `TIME\s*$`, `(\s+at\s+TIME)?\s*$` and `(\s+YEAR)?(\s+at\s+TIME)?\s*$`. Their behaviour is stated by the `Spellings` lemmas about them and through the grammars that use them.
- Patterns.RelativeAt: its own contract states only the shape of a match (what kind of value, where it can start). What it reads from the text is stated, in both directions, by the `Spellings` lemmas named after it.
- Patterns.MonthBody: its own contract states only the shape of a match (what kind of value, where it can start). What it reads from the text is stated, in both directions, by the `Spellings` lemmas named after it.
- Patterns.MonthDateAt: its own contract states only the shape of a match (what kind of value, where it can start). What it reads from the text is stated, in both directions, by the `Spellings` lemmas named after it.
- Patterns.DateFields: its own contract states only the shape of a match (what kind of value, where it can start). What it reads from the text is stated, in both directions, by the `Spellings` lemmas named after it.
- Patterns.NumericBody: its own contract states only the shape of a match (what kind of value, where it can start). What it reads from the text is stated, in both directions, by the `Spellings` lemmas named after it.
- Patterns.NumericDateAt: its own contract states only the shape of a match (what kind of value, where it can start). What it reads from the text is stated, in both directions, by the `Spellings` lemmas named after it.
- Patterns.DayBody: its own contract states only the shape of a match (what kind of value, where it can start). What it reads from the text is stated, in both directions, by the `Spellings` lemmas named after it.
- Patterns.AfterTomorrowEnd: its own contract states only the shape of a match (what kind of value, where it can start). What it reads from the text is stated, in both directions, by the `Spellings` lemmas named after it.
- Patterns.AfterTomorrowAt: its own contract states only the shape of a match (what kind of value, where it can start). What it reads from the text is stated, in both directions, by the `Spellings` lemmas named after it.
- Patterns.DayNameAt: its own contract states only the shape of a match (what kind of value, where it can start). What it reads from the text is stated, in both directions, by the `Spellings` lemmas named after it.
- Patterns.TimeOnlyAt: its own contract states only the shape of a match (what kind of value, where it can start). What it reads from the text is stated, in both directions, by the `Spellings` lemmas named after it.
- Patterns.EarlyAt: its own contract states only the shape of a match (what kind of value, where it can start). What it reads from the text is stated, in both directions, by the `Spellings` lemmas named after it.
- The `Spellings` "Recognises" lemmas spell every word in lower case and put single spaces between the words, except for the whitespace before an am/pm marker, which may be any run of whitespace. The "Captures" lemmas have no such restriction: they describe every match, upper case and longer whitespace included.
- Properties.EarlyTrailing: requires that the text before the modifier does not contain the word "early". With an earlier "early", `re.search` can match there instead, and `str.replace` can delete more than one copy.
- Parser.NumericDateRead: models `strptime` at the level of field values and widths. The digit runs, separators and the error message of `strptime` are not represented.
- Parser.DayOffset: follows the corrected day-name rule, not lines 179 and 186 as written. The code as written is Findings.ParseAsWritten, and Findings.ParsesAgree proves that the two agree outside the two cases of the findings.
- Parser.ResolveDayName: follows the corrected day-name rule, not lines 179 and 186 as written. The code as written is Findings.ParseAsWritten, and Findings.ParsesAgree proves that the two agree outside the two cases of the findings.
- Parser.ResolveTarget: follows the corrected day-name rule, not lines 179 and 186 as written. The code as written is Findings.ParseAsWritten, and Findings.ParsesAgree proves that the two agree outside the two cases of the findings.
- Parser.ReminderAt: follows the corrected day-name rule, not lines 179 and 186 as written. The code as written is Findings.ParseAsWritten, and Findings.ParsesAgree proves that the two agree outside the two cases of the findings.
- Parser.ReminderIn: follows the corrected day-name rule, not lines 179 and 186 as written. The code as written is Findings.ParseAsWritten, and Findings.ParsesAgree proves that the two agree outside the two cases of the findings.
- Parser.ParseReminderCommand: follows the corrected day-name rule, not lines 179 and 186 as written. The code as written is Findings.ParseAsWritten, and Findings.ParsesAgree proves that the two agree outside the two cases of the findings.

## Findings

| source | as written | input that shows it | evidently intended | confidence | as-written member | corrected member |
|---|---|---|---|---|---|---|
| telegramWebhookHandler.py:186 | The week jump tests `'on' in match.group(0).lower()`. "monday" contains "on", so a bare "monday" said on a Monday jumps a week. | "/remind Gym monday at 6pm" on Monday 2025-08-04 08:00 gives 2025-08-11 18:00. | The comment on lines 184-185 says a bare day name means today: 2025-08-04 18:00. The jump should need "on" or "next" written before the day name. | not executed | `Findings.MondayParsedAsWritten` | `Findings.MondayCorrected` |
| telegramWebhookHandler.py:179 | The regex admits `day\s+after\s+tomorrow`, but the code compares the group with "day after tomorrow". Any other whitespace falls through to `days.index`, which raises ValueError. | "/remind Gym day  after tomorrow" (two spaces) on Monday 2025-08-04 is rejected. | Every spelling the regex admits means two days ahead: 2025-08-06 00:00. | not executed | `Findings.LaterParsedAsWritten` | `Findings.LaterCorrected` |
