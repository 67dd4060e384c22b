/** The regular expressions of parse_reminder_command, each written out as a
    recogniser that follows the backtracking order of Python's `re` engine.

    `XAt(s, i)` answers: does the pattern match when the engine starts at
    position i of s, and what do its groups capture? Search then plays the part
    of re.search: it tries i = 0, 1, ..., |s| and keeps the first success. Every
    pattern is matched case-insensitively (re.IGNORECASE). */
module Patterns {
  import opened Text
  import opened Clock

  datatype Option<T> = None | Some(value: T)

  /** Where a search succeeded and what the groups captured there. */
  datatype Hit<T> = Hit(start: nat, capture: T)

  /** The word that qualified a day name: `(on|next|at)\s+`, or nothing. */
  datatype Qualifier = NoQualifier | On | Next | At

  /** The `day` group of the day-name grammar. `DayAfterTomorrow` keeps the group
      lower-cased, whitespace included, because the code compares that text. */
  datatype DayWord = DayOfWeek(index: nat) | Tomorrow | Today | DayAfterTomorrow(spelled: string)

  /** One variant per time grammar, holding what its groups captured. */
  datatype TimeExpr =
    | InRelative(amount: nat, inMinutes: bool)
    | MonthDate(day: nat, month: nat, year: Option<nat>, clock: Option<ClockText>)
    | NumericDate(first: nat, second: nat, third: nat, yearFirst: bool, clock: Option<ClockText>)
    | DayName(qualifier: Qualifier, matched: string, dayWord: DayWord, clock: Option<ClockText>)
    | TimeOnly(time: ClockText)

  /** The early modifier: where its match ends and the number of minutes it gives. */
  datatype EarlyHit = EarlyHit(end: nat, minutes: nat)

  // ---------------------------------------------------------------------------
  // re.search

  /** re.search: the first start position, from i on, at which `m` matches. */
  function Search<T(==)>(m: (string, nat) -> Option<T>, s: string, i: nat): (r: Option<Hit<T>>)
    requires i <= |s|
    ensures r.Some? ==> i <= r.value.start <= |s| && m(s, r.value.start) == Some(r.value.capture)
    ensures r.Some? ==> forall j :: i <= j < r.value.start ==> m(s, j).None?
    ensures r.None? ==> forall j :: i <= j <= |s| ==> m(s, j).None?
    decreases |s| - i
  {
    match m(s, i)
    case Some(c) => Some(Hit(i, c))
    case None => if i == |s| then None else Search(m, s, i + 1)
  }

  /** `h` is a match of `m` and no match starts further left. */
  predicate IsLeftmost<T(==)>(m: (string, nat) -> Option<T>, s: string, h: Hit<T>) {
    h.start <= |s| && m(s, h.start) == Some(h.capture)
    && forall j :: 0 <= j < h.start ==> m(s, j).None?
  }

  /** Search reports exactly the leftmost match. */
  lemma SearchIsLeftmost<T>(m: (string, nat) -> Option<T>, s: string, h: Hit<T>)
    ensures Search(m, s, 0) == Some(h) <==> IsLeftmost(m, s, h)
  {
  }

  /** Positions at which the pattern cannot match are passed over. */
  lemma {:induction false} SearchSkip<T>(m: (string, nat) -> Option<T>, s: string, i: nat, k: nat)
    requires i <= k <= |s|
    requires forall j :: i <= j < k ==> m(s, j).None?
    ensures Search(m, s, i) == Search(m, s, k)
    decreases k - i
  {
    if i < k {
      SearchSkip(m, s, i + 1, k);
    }
  }

  /** No match anywhere from i on: the search finds nothing. */
  lemma {:induction false} SearchNone<T>(m: (string, nat) -> Option<T>, s: string, i: nat)
    requires i <= |s|
    requires forall j :: i <= j <= |s| ==> m(s, j).None?
    ensures Search(m, s, i).None?
    decreases |s| - i
  {
    if i < |s| {
      SearchNone(m, s, i + 1);
    }
  }

  // ---------------------------------------------------------------------------
  // Building blocks

  /** What must follow a word of an alternation for the rest of its pattern to
      match: `s?\s*$`, the year and time tail, the time tail, or `\b`. */
  datatype Tail = PluralEnd | YearTime | AtTime | WordEnd

  predicate TailFits(s: string, e: nat, tail: Tail) {
    e <= |s| &&
    match tail
    case PluralEnd => PluralTail(s, e)
    case YearTime => YearTimeTail(s, e).Some?
    case AtTime => AtTimeTail(s, e).Some?
    case WordEnd => BoundaryAt(s, e)
  }

  /** The word `w` occurs at p and the tail fits after it. */
  predicate WordFits(s: string, p: nat, w: string, tail: Tail)
    requires p <= |s|
  {
    HasWordAt(s, p, w) && TailFits(s, p + |w|, tail)
  }

  /** The first of words[k..] that occurs at p and after which the tail fits: how
      the engine chooses among the branches of an alternation. */
  function FirstWord(s: string, p: nat, words: seq<string>, k: nat, tail: Tail): (r: Option<nat>)
    requires p <= |s| && k <= |words|
    ensures r.Some? ==> k <= r.value < |words| && p + |words[r.value]| <= |s|
    decreases |words| - k
  {
    if k == |words| then None
    else if WordFits(s, p, words[k], tail) then Some(k)
    else FirstWord(s, p, words, k + 1, tail)
  }

  /** The alternative chosen fits, none before it does, and none is chosen only when
      none fits. */
  lemma {:induction false} FirstWordIsFirst(s: string, p: nat, words: seq<string>, k: nat, tail: Tail)
    requires p <= |s| && k <= |words|
    ensures FirstWord(s, p, words, k, tail).Some? ==>
      WordFits(s, p, words[FirstWord(s, p, words, k, tail).value], tail)
    ensures FirstWord(s, p, words, k, tail).Some? && words[FirstWord(s, p, words, k, tail).value] != [] ==>
      p < |s| && Lower(s[p]) == words[FirstWord(s, p, words, k, tail).value][0]
    ensures FirstWord(s, p, words, k, tail).Some? ==>
      forall j :: k <= j < FirstWord(s, p, words, k, tail).value ==> !WordFits(s, p, words[j], tail)
    ensures FirstWord(s, p, words, k, tail).None? ==>
      forall j :: k <= j < |words| ==> !WordFits(s, p, words[j], tail)
    decreases |words| - k
  {
    if k == |words| {
    } else if WordFits(s, p, words[k], tail) {
      assert FirstWord(s, p, words, k, tail) == Some(k);
      WordInitial(s, p, words[k]);
    } else {
      FirstWordIsFirst(s, p, words, k + 1, tail);
      assert FirstWord(s, p, words, k, tail) == FirstWord(s, p, words, k + 1, tail);
    }
  }

  lemma WordInitial(s: string, p: nat, w: string)
    requires p <= |s| && HasWordAt(s, p, w)
    ensures w != [] ==> p < |s| && Lower(s[p]) == w[0]
  {
  }

  /** No alternative occurs at p: nothing is chosen. */
  lemma {:induction false} FirstWordNone(s: string, p: nat, words: seq<string>, k: nat, tail: Tail)
    requires p <= |s| && k <= |words|
    requires forall j :: k <= j < |words| ==> !HasWordAt(s, p, words[j])
    ensures FirstWord(s, p, words, k, tail).None?
    decreases |words| - k
  {
    if k < |words| {
      FirstWordNone(s, p, words, k + 1, tail);
    }
  }

  /** The alternative chosen is the first one that fits. */
  lemma {:induction false} FirstWordPicks(s: string, p: nat, words: seq<string>, k: nat, m: nat, tail: Tail)
    requires p <= |s| && k <= m < |words|
    requires forall j :: k <= j < m ==> !WordFits(s, p, words[j], tail)
    requires WordFits(s, p, words[m], tail)
    ensures FirstWord(s, p, words, k, tail) == Some(m)
    decreases m - k
  {
    if k < m {
      FirstWordPicks(s, p, words, k + 1, m, tail);
    }
  }

  /** `w\s+` at i: where the whitespace after the word ends. */
  function WordThenSpace(s: string, i: nat, w: string): (r: Option<nat>)
    requires i <= |s|
    ensures r.Some? ==> i + |w| < r.value <= |s| && HasWordAt(s, i, w)
  {
    if HasWordAt(s, i, w) && SkipSpaces(s, i + |w|) > i + |w| then Some(SkipSpaces(s, i + |w|)) else None
  }

  /** int() of the run of digits that starts at p. */
  function DigitRun(s: string, p: nat): nat
    requires p <= |s|
  {
    DigitsSkipped(s, p);
    Numeral(s, p, SkipDigits(s, p))
  }

  /** int() of the digits s[p..k]. */
  function Numeral(s: string, p: nat, k: nat): nat
    requires p <= k <= |s|
    requires forall j :: p <= j < k ==> IsDigit(s[j])
  {
    assert AllDigits(s[p..k]) by {
      forall j | 0 <= j < k - p ensures IsDigit(s[p..k][j]) {
        assert s[p..k][j] == s[p + j];
      }
    }
    DigitsValue(s[p..k])
  }

  // ---------------------------------------------------------------------------
  // The time fragment shared by grammars 2 to 5

  predicate MeridiemAt(s: string, w: nat)
    requires w <= |s|
  {
    HasWordAt(s, w, "am") || HasWordAt(s, w, "pm")
  }

  /** `(?P<time>\d{1,2}:\d{2}\s*[ap]m|\d{1,2}:\d{2}|\d{1,2}\s*[ap]m)\s*$` from p. */
  function TimeAt(s: string, p: nat): (r: Option<ClockText>)
    requires p <= |s|
  {
    var k := SkipDigits(s, p);
    DigitsSkipped(s, p);
    if k - p < 1 || k - p > 2 then None
    else
      var hour := Numeral(s, p, k);
      if k < |s| && s[k] == ':' then
        if k + 3 <= |s| && IsDigit(s[k + 1]) && IsDigit(s[k + 2]) then
          var minute := Numeral(s, k + 1, k + 3);
          var w := SkipSpaces(s, k + 3);
          if MeridiemAt(s, w) && OnlySpaceFrom(s, w + 2) then
            Some(ClockText(hour, minute, if HasWordAt(s, w, "pm") then Pm else Am))
          else if OnlySpaceFrom(s, k + 3) then
            Some(ClockText(hour, minute, NoMeridiem))
          else None
        else None
      else
        var w := SkipSpaces(s, k);
        if MeridiemAt(s, w) && OnlySpaceFrom(s, w + 2) then
          Some(ClockText(hour, 0, if HasWordAt(s, w, "pm") then Pm else Am))
        else None
  }

  /** `(\s+at\s+TIME)?\s*$` from q: Some(Some(clock)) with the clause, Some(None) without. */
  function AtTimeTail(s: string, q: nat): (r: Option<Option<ClockText>>)
    requires q <= |s|
  {
    var a := SkipSpaces(s, q);
    var clause := if a > q then WordThenSpace(s, a, "at") else None;
    if clause.Some? && TimeAt(s, clause.value).Some? then Some(TimeAt(s, clause.value))
    else if OnlySpaceFrom(s, q) then Some(None)
    else None
  }

  // ---------------------------------------------------------------------------
  // Grammar 1: `in\s+(?P<value>\d+)\s+(?P<unit>minute|min|hour|hr)s?\s*$`

  const RelativeUnits: seq<string> := ["minute", "min", "hour", "hr"]

  /** `s?\s*$` from e. */
  predicate PluralTail(s: string, e: nat)
    requires e <= |s|
  {
    (e < |s| && Lower(s[e]) == 's' && OnlySpaceFrom(s, e + 1)) || OnlySpaceFrom(s, e)
  }

  function RelativeAt(s: string, i: nat): (r: Option<TimeExpr>)
    ensures r.Some? ==> r.value.InRelative?
    ensures r.Some? ==> i < |s| && Lower(s[i]) == 'i'
  {
    if i > |s| then None
    else match WordThenSpace(s, i, "in")
      case None => None
      case Some(b) =>
        var c := SkipDigits(s, b);
        DigitsSkipped(s, b);
        var d := SkipSpaces(s, c);
        if c == b || d == c then None
        else match FirstWord(s, d, RelativeUnits, 0, PluralEnd)
          case None => None
          // the unit is minutes when it starts with "min"
          case Some(j) => Some(InRelative(Numeral(s, b, c), j <= 1))
  }

  // ---------------------------------------------------------------------------
  // Grammar 2: `(on\s+)?(?P<day>\d{1,2})(st|nd|rd|th)?\s+(?P<month>MONTHS)(\s+(?P<year>\d{4}))?`
  //            `(\s+at\s+TIME)?\s*$`

  /** The month alternatives in the order the pattern lists them: full names first. */
  const MonthNames: seq<string> := [
    "january", "february", "march", "april", "may", "june", "july", "august",
    "september", "october", "november", "december",
    "jan", "feb", "mar", "apr", "may", "jun", "jul", "aug", "sep", "oct", "nov", "dec"]

  predicate OrdinalSuffixAt(s: string, k: nat)
    requires k <= |s|
  {
    HasWordAt(s, k, "st") || HasWordAt(s, k, "nd") || HasWordAt(s, k, "rd") || HasWordAt(s, k, "th")
  }

  /** Where the optional `(st|nd|rd|th)?` after the day ends. An ordinal suffix not
      followed by whitespace fails either way, so taking it whenever it is there is
      the engine's greedy choice. */
  function SuffixEnd(s: string, k: nat): (r: nat)
    requires k <= |s|
    ensures k <= r <= |s|
  {
    if OrdinalSuffixAt(s, k) then k + 2 else k
  }

  /** `(\s+(\d{4}))?(\s+at\s+TIME)?\s*$` from q. */
  function YearTimeTail(s: string, q: nat): (r: Option<(Option<nat>, Option<ClockText>)>)
    requires q <= |s|
  {
    var y := SkipSpaces(s, q);
    var e := SkipDigits(s, y);
    DigitsSkipped(s, y);
    if y > q && e == y + 4 && AtTimeTail(s, e).Some? then
      Some((Some(Numeral(s, y, e)), AtTimeTail(s, e).value))
    else match AtTimeTail(s, q)
      case Some(clock) => Some((None, clock))
      case None => None
  }

  function MonthBody(s: string, p: nat): (r: Option<TimeExpr>)
    requires p <= |s|
    ensures r.Some? ==> r.value.MonthDate? && 1 <= r.value.month <= 12
  {
    var k := SkipDigits(s, p);
    DigitsSkipped(s, p);
    if k - p < 1 || k - p > 2 then None
    else
      var q := SuffixEnd(s, k);
      var w := SkipSpaces(s, q);
      var name := MonthNameAt(s, w);
      if w == q || name.None? then None
      else Some(MonthDate(Numeral(s, p, k), name.value.0 % 12 + 1, name.value.1, name.value.2))
  }

  /** The month-name alternation at w and the year and time tail after it: the index
      of the name chosen (month j % 12 + 1), and what the tail holds. */
  function MonthNameAt(s: string, w: nat): (r: Option<(nat, Option<nat>, Option<ClockText>)>)
    requires w <= |s|
    ensures r.Some? ==> r.value.0 < |MonthNames| && w + |MonthNames[r.value.0]| <= |s|
  {
    NameYearAt(s, w, MonthNames)
  }

  /** The month name chosen, with the tail after it. */
  lemma {:induction false} MonthNameAtPicks(s: string, w: nat, j: nat, year: Option<nat>, clock: Option<ClockText>)
    requires w <= |s| && FirstWord(s, w, MonthNames, 0, YearTime) == Some(j)
    requires YearTimeTail(s, w + |MonthNames[j]|) == Some((year, clock))
    ensures MonthNameAt(s, w) == Some((j, year, clock))
  {
    NameYearAtPicks(s, w, MonthNames, j, year, clock);
  }

  lemma {:induction false} NameYearAtPicks(s: string, w: nat, names: seq<string>, j: nat,
                                           year: Option<nat>, clock: Option<ClockText>)
    requires w <= |s| && FirstWord(s, w, names, 0, YearTime) == Some(j)
    requires YearTimeTail(s, w + |names[j]|) == Some((year, clock))
    ensures NameYearAt(s, w, names) == Some((j, year, clock))
  {
  }

  /** An alternation of names at w, then the year and time tail. */
  function NameYearAt(s: string, w: nat, names: seq<string>): (r: Option<(nat, Option<nat>, Option<ClockText>)>)
    requires w <= |s|
    ensures r.Some? ==> r.value.0 < |names| && w + |names[r.value.0]| <= |s|
  {
    match FirstWord(s, w, names, 0, YearTime)
    case None => None
    case Some(j) =>
      match YearTimeTail(s, w + |names[j]|)
      case Some((year, clock)) => Some((j, year, clock))
      case None => None
  }

  function MonthDateAt(s: string, i: nat): (r: Option<TimeExpr>)
    ensures r.Some? ==> r.value.MonthDate? && 1 <= r.value.month <= 12
    ensures r.Some? ==> i < |s| && (IsDigit(s[i]) || HasWordAt(s, i, "on"))
  {
    if i > |s| then None
    else
      var p := WordThenSpace(s, i, "on");
      if p.Some? && MonthBody(s, p.value).Some? then MonthBody(s, p.value) else MonthBody(s, i)
  }

  // ---------------------------------------------------------------------------
  // Grammar 3: `(on\s+)?(?P<date>\d{4}[-/]\d{1,2}[-/]\d{1,2}|\d{1,2}[-/]\d{1,2}[-/]\d{4})`
  //            `(\s+at\s+TIME)?\s*$`

  predicate IsSeparator(c: char) { c == '-' || c == '/' }

  /** Three digit fields of the given lengths separated by `-` or `/`, then the time
      tail. Each field is a whole run of digits, which is what the pattern's
      bounded repetitions come to when a non-digit must follow. */
  function DateFields(s: string, p: nat, firstLen: set<nat>, thirdLen: set<nat>, yearFirst: bool)
    : (r: Option<TimeExpr>)
    requires p <= |s|
    ensures r.Some? ==> r.value.NumericDate? && r.value.yearFirst == yearFirst
  {
    var e1 := SkipDigits(s, p);
    if e1 - p in firstLen && e1 < |s| && IsSeparator(s[e1]) then
      var e2 := SkipDigits(s, e1 + 1);
      if 1 <= e2 - (e1 + 1) <= 2 && e2 < |s| && IsSeparator(s[e2]) then
        var e3 := SkipDigits(s, e2 + 1);
        if e3 - (e2 + 1) in thirdLen && AtTimeTail(s, e3).Some? then
          Some(NumericDate(DigitRun(s, p), DigitRun(s, e1 + 1), DigitRun(s, e2 + 1),
                           yearFirst, AtTimeTail(s, e3).value))
        else None
      else None
    else None
  }

  function NumericBody(s: string, p: nat): (r: Option<TimeExpr>)
    requires p <= |s|
    ensures r.Some? ==> r.value.NumericDate?
  {
    var yearFirst := DateFields(s, p, {4}, {1, 2}, true);
    if yearFirst.Some? then yearFirst else DateFields(s, p, {1, 2}, {4}, false)
  }

  function NumericDateAt(s: string, i: nat): (r: Option<TimeExpr>)
    ensures r.Some? ==> r.value.NumericDate?
    ensures r.Some? ==> i < |s| && (IsDigit(s[i]) || HasWordAt(s, i, "on"))
  {
    if i > |s| then None
    else
      var p := WordThenSpace(s, i, "on");
      if p.Some? && NumericBody(s, p.value).Some? then NumericBody(s, p.value) else NumericBody(s, i)
  }

  // ---------------------------------------------------------------------------
  // Grammar 4: `((on|next|at)\s+)?(?P<day>monday|...|sunday|tomorrow|today|day\s+after\s+tomorrow)`
  //            `(\s+at\s+TIME)?\s*$`

  const DayWords: seq<string> := [
    "monday", "tuesday", "wednesday", "thursday", "friday", "saturday", "sunday",
    "tomorrow", "today"]

  /** The day word the j-th alternative of the group stands for. */
  function DayWordOf(j: nat): DayWord {
    if j < 7 then DayOfWeek(j) else if j == 7 then Tomorrow else Today
  }

  function DayBody(s: string, p: nat): (r: Option<(DayWord, Option<ClockText>)>)
    requires p <= |s|
    ensures r.Some? && r.value.0.DayOfWeek? ==> r.value.0.index < 7
    ensures r.Some? ==> p < |s| && Lower(s[p]) in DayNameInitials
  {
    match WordClockAt(s, p, DayWords)
    case Some((j, clock)) =>
      assert Lower(s[p]) in DayNameInitials by {
        FirstWordIsFirst(s, p, DayWords, 0, AtTime);
        assert j in {0, 1, 2, 3, 4, 5, 6, 7, 8};
      }
      Some((DayWordOf(j), clock))
    case None => AfterTomorrowAt(s, p)
  }

  /** The first of `words` found at p with the `(\s+at\s+TIME)?\s*$` tail after it:
      its index and the clock of the tail. */
  function WordClockAt(s: string, p: nat, words: seq<string>): (r: Option<(nat, Option<ClockText>)>)
    requires p <= |s|
    ensures r.Some? ==> FirstWord(s, p, words, 0, AtTime) == Some(r.value.0)
    ensures r.Some? ==> r.value.0 < |words| && p + |words[r.value.0]| <= |s|
  {
    match FirstWord(s, p, words, 0, AtTime)
    case None => None
    case Some(j) =>
      match AtTimeTail(s, p + |words[j]|)
      case Some(clock) => Some((j, clock))
      case None => None
  }

  /** The last alternative of the day-name group, `day\s+after\s+tomorrow`, with the
      time tail; the words it matched are kept as spelled, lower-cased. */
  function AfterTomorrowAt(s: string, p: nat): (r: Option<(DayWord, Option<ClockText>)>)
    requires p <= |s|
    ensures r.Some? ==> r.value.0.DayAfterTomorrow? && p < |s| && Lower(s[p]) == 'd'
  {
    match AfterTomorrowEnd(s, p)
    case None => None
    case Some(e) =>
      match AtTimeTail(s, e)
      case None => None
      case Some(clock) => Some((DayAfterTomorrow(LowerStr(s[p..e])), clock))
  }

  /** Where the words `day\s+after\s+tomorrow` starting at p end. */
  function AfterTomorrowEnd(s: string, p: nat): (r: Option<nat>)
    requires p <= |s|
    ensures r.Some? ==> p < r.value <= |s| && Lower(s[p]) == 'd'
  {
    match WordThenSpace(s, p, "day")
    case None => None
    case Some(a) =>
      match WordThenSpace(s, a, "after")
      case None => None
      case Some(b) => if HasWordAt(s, b, "tomorrow") then Some(b + 8) else None
  }

  /** The letters a day-name match can begin with. */
  const DayNameInitials: set<char> := {'o', 'n', 'a', 'm', 't', 'w', 'f', 's', 'd'}

  function QualifierWord(q: Qualifier): string {
    match q
    case On => "on"
    case Next => "next"
    case At => "at"
    case NoQualifier => ""
  }

  /** The qualifier word written at i, if any. The three words start with
      different letters, so at most one of them is there. */
  function QualifierAt(s: string, i: nat): (q: Qualifier)
    requires i <= |s|
    ensures q != NoQualifier ==> HasWordAt(s, i, QualifierWord(q))
  {
    if HasWordAt(s, i, "on") then On
    else if HasWordAt(s, i, "next") then Next
    else if HasWordAt(s, i, "at") then At
    else NoQualifier
  }

  /** Where the day group starts after the qualifier word and its whitespace, when
      a qualifier is written at i and whitespace follows it. */
  function QualifiedStart(s: string, i: nat): (p: Option<nat>)
    requires i <= |s|
    ensures p.Some? ==>
      QualifierAt(s, i) != NoQualifier && WordThenSpace(s, i, QualifierWord(QualifierAt(s, i))) == p
  {
    var q := QualifierAt(s, i);
    if q == NoQualifier then None else WordThenSpace(s, i, QualifierWord(q))
  }

  function DayNameAt(s: string, i: nat): (r: Option<TimeExpr>)
    ensures r.Some? ==> r.value.DayName?
    ensures r.Some? ==> i <= |s| && r.value.matched == LowerStr(s[i..])
    ensures r.Some? && r.value.dayWord.DayOfWeek? ==> r.value.dayWord.index < 7
    ensures r.Some? ==> i < |s| && Lower(s[i]) in DayNameInitials
  {
    if i > |s| then None
    else
      var q := QualifierAt(s, i);
      var p := QualifiedStart(s, i);
      if p.Some? && DayBody(s, p.value).Some? then
        var body := DayBody(s, p.value).value;
        Some(DayName(q, LowerStr(s[i..]), body.0, body.1))
      else match DayBody(s, i)
        case Some(body) => Some(DayName(NoQualifier, LowerStr(s[i..]), body.0, body.1))
        case None => None
  }

  // ---------------------------------------------------------------------------
  // Grammar 5: `(at\s+)?TIME\s*$`

  function TimeOnlyAt(s: string, i: nat): (r: Option<TimeExpr>)
    ensures r.Some? ==> r.value.TimeOnly?
    ensures r.Some? ==> i < |s| && (IsDigit(s[i]) || Lower(s[i]) == 'a')
  {
    if i > |s| then None
    else
      var p := WordThenSpace(s, i, "at");
      if p.Some? && TimeAt(s, p.value).Some? then Some(TimeOnly(TimeAt(s, p.value).value))
      else match TimeAt(s, i)
        case Some(clock) => Some(TimeOnly(clock))
        case None => None
  }

  // ---------------------------------------------------------------------------
  // The early modifier:
  // `\b(early(\s+reminder)?)\s+(?P<value>\d+)(\s+(min|mins|minute|minutes))?\b`

  const EarlyUnits: seq<string> := ["min", "mins", "minute", "minutes"]

  /** `(\s+reminder)?\s+` after `early`, from a (past `early` and its whitespace):
      where the optional word and the whitespace after it end. The word must be
      followed by whitespace and digits; if it is not, the branch without it fails
      too, since a digit cannot stand where `r` is. */
  function ReminderEnd(s: string, a: nat): (b: nat)
    requires a <= |s|
    ensures a <= b <= |s|
    ensures b != a <==> WordThenSpace(s, a, "reminder").Some?
  {
    match WordThenSpace(s, a, "reminder")
    case Some(b) => b
    case None => a
  }

  function EarlyAt(s: string, i: nat): (r: Option<EarlyHit>)
    ensures r.Some? ==> i + 5 < r.value.end <= |s|
    ensures r.Some? ==> i < |s| && BoundaryAt(s, i) && Lower(s[i]) == 'e'
  {
    if i > |s| || !BoundaryAt(s, i) then None
    else match WordThenSpace(s, i, "early")
      case None => None
      case Some(a) =>
        var b := ReminderEnd(s, a);
        var c := SkipDigits(s, b);
        DigitsSkipped(s, b);
        if c == b then None
        else
          var minutes := Numeral(s, b, c);
          var u := SkipSpaces(s, c);
          var unit := if u > c then FirstWord(s, u, EarlyUnits, 0, WordEnd) else None;
          if unit.Some? then Some(EarlyHit(u + |EarlyUnits[unit.value]|, minutes))
          else if BoundaryAt(s, c) then Some(EarlyHit(c, minutes))
          else None
  }

  // ---------------------------------------------------------------------------
  // The cascade

  /** The five grammars tried in order; the first that matches anywhere in the body
      decides, and a later grammar is consulted only when every earlier one found
      nothing. */
  function FindTimeExpression(s: string): (r: Option<Hit<TimeExpr>>)
    ensures r.None? <==> (Search(RelativeAt, s, 0).None? && Search(MonthDateAt, s, 0).None?
                          && Search(NumericDateAt, s, 0).None? && Search(DayNameAt, s, 0).None?
                          && Search(TimeOnlyAt, s, 0).None?)
    ensures r.Some? && r.value.capture.InRelative? ==> r == Search(RelativeAt, s, 0)
    ensures r.Some? && r.value.capture.MonthDate? ==>
      Search(RelativeAt, s, 0).None? && r == Search(MonthDateAt, s, 0)
    ensures r.Some? && r.value.capture.NumericDate? ==>
      Search(RelativeAt, s, 0).None? && Search(MonthDateAt, s, 0).None?
      && r == Search(NumericDateAt, s, 0)
    ensures r.Some? && r.value.capture.DayName? ==>
      Search(RelativeAt, s, 0).None? && Search(MonthDateAt, s, 0).None?
      && Search(NumericDateAt, s, 0).None? && r == Search(DayNameAt, s, 0)
    ensures r.Some? && r.value.capture.TimeOnly? ==>
      Search(RelativeAt, s, 0).None? && Search(MonthDateAt, s, 0).None?
      && Search(NumericDateAt, s, 0).None? && Search(DayNameAt, s, 0).None?
      && r == Search(TimeOnlyAt, s, 0)
    ensures r.Some? ==> r.value.start <= |s|
    ensures r.Some? && r.value.capture.DayName? && r.value.capture.dayWord.DayOfWeek? ==>
      r.value.capture.dayWord.index < 7
  {
    var relative := Search(RelativeAt, s, 0);
    if relative.Some? then relative
    else
      var monthDate := Search(MonthDateAt, s, 0);
      if monthDate.Some? then monthDate
      else
        var numeric := Search(NumericDateAt, s, 0);
        if numeric.Some? then numeric
        else
          var dayName := Search(DayNameAt, s, 0);
          if dayName.Some? then dayName
          else Search(TimeOnlyAt, s, 0)
  }
}
