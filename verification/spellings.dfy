/** What each pattern of the reminder parser reads, in both directions.

    A spelling function writes a reminder fragment out of its pieces (digits as
    written, a keyword chosen from an alternation, an optional clock), with every
    `\s+` of the pattern spelled as a single space. The "Recognises" lemmas show
    that the recogniser finds such a spelling and captures the values its pieces
    denote; the "Captures" lemmas go the other way and show that whatever a
    recogniser reports was read off the text, digit run by digit run and keyword
    by keyword. */
module Spellings {
  import opened Text
  import opened Clock
  import opened Patterns

  // ---------------------------------------------------------------------------
  // Reading one piece

  /** A keyword, then the rest. */
  lemma {:induction false} WordStep(s: string, i: nat, w: string, rest: string) returns (e: nat)
    requires i <= |s| && Letters(w) && s[i..] == w + rest
    ensures e == i + |w| && e <= |s| && HasWordAt(s, i, w) && s[e..] == rest
  {
    e := i + |w|;
    WordOver(s, i, w, rest);
    TailSplit(s, i, w, rest);
  }

  /** One space, then a piece that does not start with whitespace. */
  lemma {:induction false} SpaceStep(s: string, c: nat, rest: string) returns (d: nat)
    requires c <= |s| && s[c..] == " " + rest && (rest == [] || !IsSpace(rest[0]))
    ensures d == c + 1 && d <= |s| && SkipSpaces(s, c) == d && s[d..] == rest
  {
    d := c + 1;
    SkipSpacesOver(s, c, " ", rest);
    TailSplit(s, c, " ", rest);
  }

  /** A keyword and one space, then a piece that does not start with whitespace. */
  lemma {:induction false} WordSpaceStep(s: string, i: nat, w: string, rest: string) returns (d: nat)
    requires i <= |s| && Letters(w) && s[i..] == w + (" " + rest) && (rest == [] || !IsSpace(rest[0]))
    ensures d == i + |w| + 1 && d <= |s| && WordThenSpace(s, i, w) == Some(d) && s[d..] == rest
  {
    var e := WordStep(s, i, w, " " + rest);
    d := SpaceStep(s, e, rest);
  }

  /** A run of digits, then a piece that does not start with a digit. */
  lemma {:induction false} DigitsStep(s: string, b: nat, digits: string, rest: string) returns (c: nat)
    requires b <= |s| && AllDigits(digits) && s[b..] == digits + rest && (rest == [] || !IsDigit(rest[0]))
    ensures c == b + |digits| && c <= |s| && SkipDigits(s, b) == c && s[c..] == rest
    ensures forall j :: b <= j < c ==> IsDigit(s[j])
    ensures Numeral(s, b, c) == DigitsValue(digits)
  {
    c := b + |digits|;
    SkipDigitsOver(s, b, digits, rest);
    TailSplit(s, b, digits, rest);
  }

  /** Whitespace, then a piece that does not start with whitespace. */
  lemma {:induction false} GapStep(s: string, c: nat, gap: string, rest: string) returns (d: nat)
    requires c <= |s| && AllSpace(gap) && s[c..] == gap + rest && (rest == [] || !IsSpace(rest[0]))
    ensures d == c + |gap| && d <= |s| && SkipSpaces(s, c) == d && s[d..] == rest
  {
    d := c + |gap|;
    SkipSpacesOver(s, c, gap, rest);
    TailSplit(s, c, gap, rest);
  }

  // ---------------------------------------------------------------------------
  // The time fragment

  function MeridiemWord(m: Meridiem): string {
    match m
    case NoMeridiem => ""
    case Am => "am"
    case Pm => "pm"
  }

  /** A time fragment as written: the hour digits, the minute digits (none when
      the fragment has no colon), the whitespace before the marker, the marker. */
  datatype ClockWords = ClockWords(hour: string, minute: string, gap: string, meridiem: Meridiem)

  /** The three forms of the time group: `H:MM am`, `H:MM` and `H pm`. */
  predicate ClockShape(c: ClockWords) {
    1 <= |c.hour| <= 2 && AllDigits(c.hour)
    && (|c.minute| == 0 || |c.minute| == 2) && AllDigits(c.minute) && AllSpace(c.gap)
    && (c.minute == [] ==> c.meridiem != NoMeridiem)
    && (c.meridiem == NoMeridiem ==> c.gap == [])
  }

  function ClockSpelling(c: ClockWords): string {
    c.hour + ((if c.minute == [] then "" else ":" + c.minute) + (c.gap + MeridiemWord(c.meridiem)))
  }

  /** The numerals a time fragment denotes: int() of its digit runs. */
  function ClockOf(c: ClockWords): ClockText
    requires AllDigits(c.hour) && AllDigits(c.minute)
  {
    ClockText(DigitsValue(c.hour), DigitsValue(c.minute), c.meridiem)
  }

  /** The marker, if any, is the end of the text. */
  lemma {:induction false} MarkerAt(s: string, w: nat, m: Meridiem)
    requires w <= |s| && s[w..] == MeridiemWord(m)
    ensures MeridiemAt(s, w) <==> m != NoMeridiem
    ensures HasWordAt(s, w, "pm") <==> m == Pm
    ensures m != NoMeridiem ==> w + 2 <= |s| && OnlySpaceFrom(s, w + 2)
    ensures m == NoMeridiem ==> w == |s|
  {
    assert |s| == w + |MeridiemWord(m)|;
    if m != NoMeridiem {
      WordOver(s, w, MeridiemWord(m), []);
      assert s[w] == MeridiemWord(m)[0];
    }
  }

  lemma {:induction false} TimeAtRecognises(s: string, p: nat, c: ClockWords)
    requires p <= |s| && ClockShape(c) && s[p..] == ClockSpelling(c)
    ensures TimeAt(s, p) == Some(ClockOf(c))
  {
    var mark := MeridiemWord(c.meridiem);
    if c.minute != [] {
      TimeWithMinutes(s, p, c, ":" + c.minute + (c.gap + mark));
    } else {
      TimeWithoutMinutes(s, p, c, c.gap + mark);
    }
  }

  lemma {:induction false} TimeWithMinutes(s: string, p: nat, c: ClockWords, rest: string)
    requires p <= |s| && ClockShape(c) && c.minute != []
    requires rest == ":" + c.minute + (c.gap + MeridiemWord(c.meridiem)) && s[p..] == c.hour + rest
    ensures TimeAt(s, p) == Some(ClockOf(c))
  {
    var k := DigitsStep(s, p, c.hour, rest);
    var w := MinutesRecognised(s, k, c);
  }

  lemma {:induction false} TimeWithoutMinutes(s: string, p: nat, c: ClockWords, rest: string)
    requires p <= |s| && ClockShape(c) && c.minute == []
    requires rest == c.gap + MeridiemWord(c.meridiem) && s[p..] == c.hour + rest
    ensures TimeAt(s, p) == Some(ClockOf(c))
  {
    assert !IsDigit(rest[0]) by {
      if c.gap != [] {
        assert rest[0] == c.gap[0] && IsSpace(c.gap[0]);
      } else {
        assert rest[0] == MeridiemWord(c.meridiem)[0];
      }
    }
    var k := DigitsStep(s, p, c.hour, rest);
    NoColon(s, k, c);
    var w := MarkerRecognised(s, k, c);
  }

  /** After the hour digits: `:MM`, the gap, the marker. */
  lemma {:induction false} MinutesRecognised(s: string, k: nat, c: ClockWords) returns (w: nat)
    requires k <= |s| && ClockShape(c) && c.minute != []
    requires s[k..] == ":" + c.minute + (c.gap + MeridiemWord(c.meridiem))
    ensures k + 3 <= |s| && s[k] == ':' && IsDigit(s[k + 1]) && IsDigit(s[k + 2])
    ensures Numeral(s, k + 1, k + 3) == DigitsValue(c.minute)
    ensures w == SkipSpaces(s, k + 3)
    ensures c.meridiem == NoMeridiem ==> !MeridiemAt(s, w) && OnlySpaceFrom(s, k + 3)
    ensures c.meridiem != NoMeridiem ==>
      MeridiemAt(s, w) && w + 2 <= |s| && OnlySpaceFrom(s, w + 2) && (HasWordAt(s, w, "pm") <==> c.meridiem == Pm)
  {
    var mark := MeridiemWord(c.meridiem);
    TailSplit(s, k, ":" + c.minute, c.gap + mark);
    assert s[k + 1..k + 3] == c.minute;
    w := GapStep(s, k + 3, c.gap, mark);
    MarkerAt(s, w, c.meridiem);
  }

  /** After the hour digits of `H pm`: the gap, the marker. */
  lemma {:induction false} MarkerRecognised(s: string, k: nat, c: ClockWords) returns (w: nat)
    requires k <= |s| && ClockShape(c) && c.minute == []
    requires s[k..] == c.gap + MeridiemWord(c.meridiem)
    ensures w == SkipSpaces(s, k)
    ensures MeridiemAt(s, w) && w + 2 <= |s| && OnlySpaceFrom(s, w + 2) && (HasWordAt(s, w, "pm") <==> c.meridiem == Pm)
  {
    w := GapStep(s, k, c.gap, MeridiemWord(c.meridiem));
    MarkerAt(s, w, c.meridiem);
  }

  /** The hour digits of `H pm` are not followed by a colon. */
  lemma {:induction false} NoColon(s: string, k: nat, c: ClockWords)
    requires k <= |s| && ClockShape(c) && c.minute == []
    requires s[k..] == c.gap + MeridiemWord(c.meridiem)
    ensures !(k < |s| && s[k] == ':')
  {
    var mark := MeridiemWord(c.meridiem);
    if c.gap != [] {
      assert IsSpace(c.gap[0]) && s[k] == c.gap[0];
    } else {
      assert s[k] == mark[0] && (mark[0] == 'a' || mark[0] == 'p');
    }
  }

  /** A time the recogniser reports is read off the text: the hour is the run of
      one or two digits at p (so below 100), the minutes the two digits after a
      colon, and the marker, when there is one, the last word of the text. */
  lemma {:induction false} TimeAtCaptures(s: string, p: nat) returns (k: nat, w: nat)
    requires p <= |s| && TimeAt(s, p).Some?
    ensures p < k <= p + 2 && k <= |s| && AllDigits(s[p..k]) && TimeAt(s, p).value.hour == DigitsValue(s[p..k])
    ensures TimeAt(s, p).value.hour < 100
    ensures k < |s| && s[k] == ':' ==>
      k + 3 <= |s| && AllDigits(s[k + 1..k + 3]) && TimeAt(s, p).value.minute == DigitsValue(s[k + 1..k + 3])
    ensures !(k < |s| && s[k] == ':') ==> TimeAt(s, p).value.minute == 0 && TimeAt(s, p).value.meridiem != NoMeridiem
    ensures TimeAt(s, p).value.meridiem != NoMeridiem ==>
      w + 2 <= |s| && HasWordAt(s, w, MeridiemWord(TimeAt(s, p).value.meridiem)) && OnlySpaceFrom(s, w + 2)
    ensures TimeAt(s, p).value.meridiem == NoMeridiem ==> k + 3 <= |s| && OnlySpaceFrom(s, k + 3)
  {
    k, w := TimeAtEnds(s, p);
    ShortDigits(s, p, k);
    if k < |s| && s[k] == ':' {
      ShortDigits(s, k + 1, k + 3);
    }
    var m := TimeAt(s, p).value.meridiem;
    if m != NoMeridiem {
      MarkerWord(s, w, m);
    }
  }

  /** Where the hour digits and the marker of a time fragment stand, and the
      fields it reports. */
  lemma {:induction false} TimeAtEnds(s: string, p: nat) returns (k: nat, w: nat)
    requires p <= |s| && TimeAt(s, p).Some?
    ensures k == SkipDigits(s, p) && p < k <= p + 2 && k <= |s|
    ensures forall j :: p <= j < k ==> IsDigit(s[j])
    ensures TimeAt(s, p).value.hour == Numeral(s, p, k)
    ensures k < |s| && s[k] == ':' ==>
      k + 3 <= |s| && IsDigit(s[k + 1]) && IsDigit(s[k + 2]) && w == SkipSpaces(s, k + 3)
      && TimeAt(s, p).value.minute == Numeral(s, k + 1, k + 3)
    ensures !(k < |s| && s[k] == ':') ==>
      w == SkipSpaces(s, k) && TimeAt(s, p).value.minute == 0 && TimeAt(s, p).value.meridiem != NoMeridiem
    ensures TimeAt(s, p).value.meridiem != NoMeridiem ==>
      MeridiemAt(s, w) && OnlySpaceFrom(s, w + 2) && (TimeAt(s, p).value.meridiem == Pm <==> HasWordAt(s, w, "pm"))
    ensures TimeAt(s, p).value.meridiem == NoMeridiem ==> k + 3 <= |s| && OnlySpaceFrom(s, k + 3)
  {
    k := SkipDigits(s, p);
    DigitsSkipped(s, p);
    if k < |s| && s[k] == ':' {
      w := SkipSpaces(s, k + 3);
    } else {
      w := SkipSpaces(s, k);
    }
  }

  /** A run of one or two digits: the digits as written, and below 100. */
  lemma {:induction false} ShortDigits(s: string, p: nat, k: nat)
    requires p < k <= p + 2 && k <= |s| && forall j :: p <= j < k ==> IsDigit(s[j])
    ensures AllDigits(s[p..k]) && Numeral(s, p, k) == DigitsValue(s[p..k]) && Numeral(s, p, k) < 100
  {
    assert AllDigits(s[p..k]) by {
      forall j | 0 <= j < k - p ensures IsDigit(s[p..k][j]) {
        assert s[p..k][j] == s[p + j];
      }
    }
    DigitsValueBound(s[p..k]);
    assert Pow10(k - p) <= 100;
  }

  /** The marker read is the word written. */
  lemma {:induction false} MarkerWord(s: string, w: nat, m: Meridiem)
    requires w <= |s| && m != NoMeridiem && MeridiemAt(s, w) && (m == Pm <==> HasWordAt(s, w, "pm"))
    ensures HasWordAt(s, w, MeridiemWord(m))
  {
  }

  // ---------------------------------------------------------------------------
  // The optional `at TIME` clause and the optional year

  predicate ClockShapeOpt(clock: Option<ClockWords>) {
    clock.Some? ==> ClockShape(clock.value)
  }

  function ClockOpt(clock: Option<ClockWords>): Option<ClockText>
    requires ClockShapeOpt(clock)
  {
    match clock
    case None => None
    case Some(c) => Some(ClockOf(c))
  }

  /** ` at TIME`, or nothing. */
  function AtSpelling(clock: Option<ClockWords>): string {
    match clock
    case None => ""
    case Some(c) => " " + ("at" + (" " + ClockSpelling(c)))
  }

  lemma {:induction false} AtTimeTailRecognises(s: string, q: nat, clock: Option<ClockWords>)
    requires q <= |s| && ClockShapeOpt(clock) && s[q..] == AtSpelling(clock)
    ensures AtTimeTail(s, q) == Some(ClockOpt(clock))
  {
    if clock.Some? {
      var spelled := ClockSpelling(clock.value);
      assert spelled[0] == clock.value.hour[0];
      var a := SpaceStep(s, q, "at" + (" " + spelled));
      var t := WordSpaceStep(s, a, "at", spelled);
      TimeAtRecognises(s, t, clock.value);
    } else {
      assert q == |s|;
    }
  }

  /** What the tail reports is read off the text: nothing but whitespace, or
      whitespace, the word `at`, whitespace, and a time recognised there. */
  lemma {:induction false} AtTimeTailCaptures(s: string, q: nat) returns (a: nat, t: nat)
    requires q <= |s| && AtTimeTail(s, q).Some?
    ensures AtTimeTail(s, q).value.None? ==> OnlySpaceFrom(s, q)
    ensures AtTimeTail(s, q).value.Some? ==>
      q < a && a + 2 < t <= |s| && AllSpace(s[q..a]) && HasWordAt(s, a, "at")
      && AllSpace(s[a + 2..t]) && TimeAt(s, t) == AtTimeTail(s, q).value
  {
    a := SkipSpaces(s, q);
    Skipped(s, q);
    if a > q && WordThenSpace(s, a, "at").Some? {
      t := WordThenSpace(s, a, "at").value;
      Skipped(s, a + 2);
    } else {
      t := a;
    }
  }

  /** The tail starts with whitespace or is empty: it never continues a word. */
  lemma {:induction false} AtTimeTailStops(s: string, q: nat)
    requires q <= |s| && AtTimeTail(s, q).Some?
    ensures q == |s| || IsSpace(s[q])
  {
  }

  function YearOf(year: string): Option<nat>
    requires AllDigits(year)
  {
    if year == [] then None else Some(DigitsValue(year))
  }

  predicate YearShape(year: string) {
    AllDigits(year) && (year == [] || |year| == 4)
  }

  /** ` YYYY`, or nothing, then the `at` clause. */
  function YearSpelling(year: string, clock: Option<ClockWords>): string {
    if year == [] then AtSpelling(clock) else " " + (year + AtSpelling(clock))
  }

  lemma {:induction false} YearTimeTailRecognises(s: string, q: nat, year: string, clock: Option<ClockWords>)
    requires q <= |s| && YearShape(year) && ClockShapeOpt(clock)
    requires s[q..] == YearSpelling(year, clock)
    ensures YearTimeTail(s, q).Some?
    ensures YearTimeTail(s, q).value.0 == YearOf(year) && YearTimeTail(s, q).value.1 == ClockOpt(clock)
  {
    if year != [] {
      YearRecognised(s, q, year, clock);
    } else {
      AtTimeTailRecognises(s, q, clock);
      if clock.Some? {
        NoYear(s, q, clock.value);
      } else {
        assert q == |s|;
      }
    }
  }

  /** ` YYYY` and the clause after it. */
  lemma {:induction false} YearRecognised(s: string, q: nat, year: string, clock: Option<ClockWords>)
    requires q <= |s| && YearShape(year) && year != [] && ClockShapeOpt(clock)
    requires s[q..] == " " + (year + AtSpelling(clock))
    ensures YearTimeTail(s, q).Some?
    ensures YearTimeTail(s, q).value.0 == YearOf(year) && YearTimeTail(s, q).value.1 == ClockOpt(clock)
  {
    var at := AtSpelling(clock);
    var y := SpaceStep(s, q, year + at);
    assert at == [] || at[0] == ' ';
    var e := DigitsStep(s, y, year, at);
    AtTimeTailRecognises(s, e, clock);
  }

  /** An `at` clause right after the month is not a year. */
  lemma {:induction false} NoYear(s: string, q: nat, c: ClockWords)
    requires q <= |s| && s[q..] == AtSpelling(Some(c))
    ensures SkipSpaces(s, q) == q + 1 && SkipDigits(s, q + 1) == q + 1
  {
    var y := SpaceStep(s, q, "at" + (" " + ClockSpelling(c)));
  }

  /** The year the tail reports is the run of four digits after whitespace, and
      the clock is what the `at` clause after it (or after q) reports. */
  lemma {:induction false} YearTimeTailCaptures(s: string, q: nat) returns (y: nat)
    requires q <= |s| && YearTimeTail(s, q).Some?
    ensures YearTimeTail(s, q).value.0.Some? ==>
      q < y && y + 4 <= |s| && AllSpace(s[q..y]) && AllDigits(s[y..y + 4])
      && YearTimeTail(s, q).value.0.value == DigitsValue(s[y..y + 4])
      && AtTimeTail(s, y + 4) == Some(YearTimeTail(s, q).value.1)
    ensures YearTimeTail(s, q).value.0.None? ==> AtTimeTail(s, q) == Some(YearTimeTail(s, q).value.1)
  {
    y := SkipSpaces(s, q);
    Skipped(s, q);
    Skipped(s, y);
  }

  /** The year tail starts with whitespace or is empty. */
  lemma {:induction false} YearTimeTailStops(s: string, q: nat)
    requires q <= |s| && YearTimeTail(s, q).Some?
    ensures q == |s| || IsSpace(s[q])
  {
    var y := SkipSpaces(s, q);
    if !(y > q && SkipDigits(s, y) == y + 4 && AtTimeTail(s, SkipDigits(s, y)).Some?) {
      AtTimeTailStops(s, q);
    }
  }

  // ---------------------------------------------------------------------------
  // Alternations

  /** A letter in either case is a word character. */
  lemma {:induction false} LetterIsWordChar(c: char)
    requires 'a' <= Lower(c) <= 'z'
    ensures IsWordChar(c)
  {
  }

  /** Every tail but `s?\s*$` begins with something that is not a letter. */
  lemma {:induction false} TailStops(s: string, p: nat, w: string, tail: Tail)
    requires p <= |s| && Letters(w) && w != [] && tail != PluralEnd && WordFits(s, p, w, tail)
    ensures WordStops(s, p + |w|)
  {
    var e := p + |w|;
    match tail
    case YearTime => YearTimeTailStops(s, e);
    case AtTime => AtTimeTailStops(s, e);
    case WordEnd =>
      HasWordAtChars(s, p, w);
      assert Lower(s[p + (|w| - 1)]) == w[|w| - 1];
      LetterIsWordChar(s[e - 1]);
  }

  /** The alternative chosen occurs at p and its tail fits after it. */
  lemma {:induction false} ChosenFits(s: string, p: nat, words: seq<string>, tail: Tail) returns (j: nat)
    requires p <= |s| && FirstWord(s, p, words, 0, tail).Some?
    ensures j == FirstWord(s, p, words, 0, tail).value && j < |words|
    ensures HasWordAt(s, p, words[j]) && TailFits(s, p + |words[j]|, tail)
  {
    FirstWordIsFirst(s, p, words, 0, tail);
    j := FirstWord(s, p, words, 0, tail).value;
  }

  /** A keyword written at p, followed by what its tail admits, is chosen, or an
      earlier alternative spelled the same is: whatever else fitted would be the
      same word, since the tail stops it. */
  lemma {:induction false} FirstWordWritten(s: string, p: nat, words: seq<string>, tail: Tail, j: nat) returns (m: nat)
    requires p <= |s| && j < |words| && tail != PluralEnd
    requires forall k :: 0 <= k < |words| ==> Letters(words[k]) && words[k] != []
    requires WordFits(s, p, words[j], tail)
    ensures FirstWord(s, p, words, 0, tail) == Some(m)
    ensures m <= j && words[m] == words[j]
  {
    m := FirstWordFound(s, p, words, tail, j);
    SameFit(s, p, words[m], words[j], tail);
  }

  /** Some alternative fits, so the first one that fits is chosen. */
  lemma {:induction false} FirstWordFound(s: string, p: nat, words: seq<string>, tail: Tail, j: nat) returns (m: nat)
    requires p <= |s| && j < |words| && WordFits(s, p, words[j], tail)
    ensures FirstWord(s, p, words, 0, tail) == Some(m)
    ensures m <= j && WordFits(s, p, words[m], tail)
  {
    FirstWordIsFirst(s, p, words, 0, tail);
    m := FirstWord(s, p, words, 0, tail).value;
  }

  /** Two keywords that fit at the same place with the same tail are the same word. */
  lemma {:induction false} SameFit(s: string, p: nat, w1: string, w2: string, tail: Tail)
    requires p <= |s| && tail != PluralEnd
    requires Letters(w1) && w1 != [] && Letters(w2) && w2 != []
    requires WordFits(s, p, w1, tail) && WordFits(s, p, w2, tail)
    ensures w1 == w2
  {
    TailStops(s, p, w1, tail);
    TailStops(s, p, w2, tail);
    SameWord(s, p, w1, w2);
  }

  // ---------------------------------------------------------------------------
  // Grammar 1: `in N minutes`

  /** `in N unit`, with the unit's optional plural `s`. */
  function RelativeSpelling(digits: string, unit: nat, plural: bool): string
    requires unit < |RelativeUnits|
  {
    "in" + (" " + (digits + (" " + (RelativeUnits[unit] + (if plural then "s" else "")))))
  }

  lemma {:induction false} RelativeUnitsLetters()
    ensures forall k :: 0 <= k < |RelativeUnits| ==> Letters(RelativeUnits[k]) && RelativeUnits[k] != []
  {
  }

  /** The amount is the number written; the unit counts as minutes exactly when
      it is one of the minute spellings. */
  lemma {:induction false} RelativeAtRecognises(s: string, i: nat, digits: string, unit: nat, plural: bool)
    requires i <= |s| && digits != [] && AllDigits(digits) && unit < |RelativeUnits|
    requires s[i..] == RelativeSpelling(digits, unit, plural)
    ensures RelativeAt(s, i) == Some(InRelative(DigitsValue(digits), unit <= 1))
  {
    var word := RelativeUnits[unit];
    var ending: string := if plural then "s" else "";
    var b := WordSpaceStep(s, i, "in", digits + (" " + (word + ending)));
    var c := DigitsStep(s, b, digits, " " + (word + ending));
    RelativeUnitsLetters();
    var d := SpaceStep(s, c, word + ending);
    UnitRecognised(s, d, unit, ending);
  }

  /** The unit alternation picks a unit with the same first letter. */
  lemma {:induction false} UnitRecognised(s: string, d: nat, unit: nat, ending: string)
    requires d <= |s| && unit < |RelativeUnits| && (ending == "" || ending == "s")
    requires s[d..] == RelativeUnits[unit] + ending
    ensures FirstWord(s, d, RelativeUnits, 0, PluralEnd).Some?
    ensures FirstWord(s, d, RelativeUnits, 0, PluralEnd).value <= 1 <==> unit <= 1
  {
    var word := RelativeUnits[unit];
    RelativeUnitsLetters();
    WordOver(s, d, word, ending);
    TailSplit(s, d, word, ending);
    assert |s| == d + |word| + |ending|;
    assert PluralTail(s, d + |word|);
    FirstWordIsFirst(s, d, RelativeUnits, 0, PluralEnd);
    assert s[d] == word[0];
  }

  /** What a relative match reports is read off the text: the amount is the run
      of digits after `in`, and the unit is an alternative found after it, a
      minute spelling exactly when the reminder counts minutes. */
  lemma {:induction false} RelativeAtCaptures(s: string, i: nat) returns (b: nat, c: nat, d: nat, j: nat)
    requires RelativeAt(s, i).Some?
    ensures var e := RelativeAt(s, i).value;
      i + 2 < b < c < d <= |s| && HasWordAt(s, i, "in") && AllSpace(s[i + 2..b])
      && AllDigits(s[b..c]) && e.amount == DigitsValue(s[b..c]) && AllSpace(s[c..d])
      && j < |RelativeUnits| && HasWordAt(s, d, RelativeUnits[j])
      && PluralTail(s, d + |RelativeUnits[j]|) && (e.inMinutes <==> j <= 1)
  {
    b := WordThenSpace(s, i, "in").value;
    c := SkipDigits(s, b);
    d := SkipSpaces(s, c);
    j := FirstWord(s, d, RelativeUnits, 0, PluralEnd).value;
    FirstWordIsFirst(s, d, RelativeUnits, 0, PluralEnd);
    Skipped(s, i + 2);
    Skipped(s, b);
    Skipped(s, c);
  }

  // ---------------------------------------------------------------------------
  // Grammar 2: `[on ]D[st] Month[ YYYY][ at TIME]`

  const OrdinalSuffixes: set<string> := {"", "st", "nd", "rd", "th"}

  function OnSpelling(on: bool): string {
    if on then "on" + " " else ""
  }

  function MonthDateSpelling(on: bool, day: string, suffix: string, month: nat, year: string,
                             clock: Option<ClockWords>): string
    requires month < |MonthNames|
  {
    OnSpelling(on) + (day + (suffix + (" " + (MonthNames[month] + YearSpelling(year, clock)))))
  }

  predicate MonthDateShape(day: string, suffix: string, month: nat, year: string, clock: Option<ClockWords>) {
    1 <= |day| <= 2 && AllDigits(day) && suffix in OrdinalSuffixes && month < |MonthNames|
    && YearShape(year) && ClockShapeOpt(clock)
  }

  lemma {:induction false} MonthNamesLetters()
    ensures forall k :: 0 <= k < |MonthNames| ==> Letters(MonthNames[k]) && MonthNames[k] != []
  {
  }

  /** The only name listed twice is "may", once among the full names and once
      among the abbreviations; both stand for the fifth month. */
  lemma {:induction false} MonthNamesTwelve(a: nat, b: nat)
    requires a < |MonthNames| && b < |MonthNames| && MonthNames[a] == MonthNames[b]
    ensures a % 12 == b % 12
  {
    if a != b {
      assert MonthNames[a][0] == MonthNames[b][0];
    }
  }

  /** A name written at w, then a year and a clock: some name spelled the same is
      chosen, and the tail reports that year and clock. */
  lemma {:induction false} NameYearAtRecognises(s: string, w: nat, names: seq<string>, j: nat, year: string,
                             clock: Option<ClockWords>)
    requires w <= |s| && j < |names| && YearShape(year) && ClockShapeOpt(clock)
    requires forall k :: 0 <= k < |names| ==> Letters(names[k]) && names[k] != []
    requires s[w..] == names[j] + YearSpelling(year, clock)
    ensures NameYearAt(s, w, names).Some?
    ensures names[NameYearAt(s, w, names).value.0] == names[j]
    ensures NameYearAt(s, w, names).value.1 == YearOf(year)
    ensures NameYearAt(s, w, names).value.2 == ClockOpt(clock)
  {
    var e := WordStep(s, w, names[j], YearSpelling(year, clock));
    YearTimeTailRecognises(s, e, year, clock);
    NameYearFound(s, w, names, j, e);
  }

  /** A name found at w with a year tail after it, ending at e: that name, or an
      earlier one spelled the same, is chosen, and the tail is what the match
      reports. */
  lemma {:induction false} NameYearFound(s: string, w: nat, names: seq<string>, j: nat, e: nat)
    requires w <= |s| && j < |names| && e == w + |names[j]| && e <= |s|
    requires forall k :: 0 <= k < |names| ==> Letters(names[k]) && names[k] != []
    requires HasWordAt(s, w, names[j]) && YearTimeTail(s, e).Some?
    ensures NameYearAt(s, w, names).Some?
    ensures names[NameYearAt(s, w, names).value.0] == names[j]
    ensures NameYearAt(s, w, names).value.1 == YearTimeTail(s, e).value.0
    ensures NameYearAt(s, w, names).value.2 == YearTimeTail(s, e).value.1
  {
    var m := FirstWordWritten(s, w, names, YearTime, j);
    NameYearPicks(s, w, names, m);
  }

  lemma {:induction false} MonthNameAtRecognises(s: string, w: nat, month: nat, year: string, clock: Option<ClockWords>)
    requires w <= |s| && month < |MonthNames| && YearShape(year) && ClockShapeOpt(clock)
    requires s[w..] == MonthNames[month] + YearSpelling(year, clock)
    ensures MonthNameAt(s, w).Some?
    ensures MonthNameAt(s, w).value.0 % 12 + 1 == month % 12 + 1
    ensures MonthNameAt(s, w).value.1 == YearOf(year)
    ensures MonthNameAt(s, w).value.2 == ClockOpt(clock)
  {
    MonthNamesLetters();
    NameYearAtRecognises(s, w, MonthNames, month, year, clock);
    MonthNamesTwelve(MonthNameAt(s, w).value.0, month);
  }

  /** An ordinal suffix is taken exactly when one is written. */
  lemma {:induction false} SuffixRecognised(s: string, k: nat, suffix: string, rest: string) returns (q: nat)
    requires k <= |s| && suffix in OrdinalSuffixes && rest != [] && rest[0] == ' '
    requires s[k..] == suffix + rest
    ensures OrdinalSuffixAt(s, k) <==> suffix != ""
    ensures q == SuffixEnd(s, k) && q <= |s| && s[q..] == rest
  {
    q := k + |suffix|;
    TailSplit(s, k, suffix, rest);
    if suffix != "" {
      WordOver(s, k, suffix, rest);
    } else {
      assert s[k] == ' ';
    }
  }

  lemma {:induction false} MonthBodyRecognises(s: string, p: nat, day: string, suffix: string, month: nat, year: string,
                            clock: Option<ClockWords>)
    requires p <= |s| && MonthDateShape(day, suffix, month, year, clock)
    requires s[p..] == day + (suffix + (" " + (MonthNames[month] + YearSpelling(year, clock))))
    ensures MonthBody(s, p) == Some(MonthDate(DigitsValue(day), month % 12 + 1, YearOf(year), ClockOpt(clock)))
  {
    var named := MonthNames[month] + YearSpelling(year, clock);
    SuffixStarts(suffix, " " + named);
    var k := DigitsStep(s, p, day, suffix + (" " + named));
    var q := SuffixRecognised(s, k, suffix, " " + named);
    NameStarts(month, YearSpelling(year, clock));
    var w := SpaceStep(s, q, named);
    MonthNameAtRecognises(s, w, month, year, clock);
    MonthBodySteps(s, p, k, q, w);
    assert MonthBody(s, p).value.day == DigitsValue(day);
    assert MonthBody(s, p).value.month == month % 12 + 1;
    assert MonthBody(s, p).value.year == YearOf(year);
    assert MonthBody(s, p).value.clock == ClockOpt(clock);
  }

  /** MonthBody read off the positions where its pieces end. */
  lemma {:induction false} MonthBodySteps(s: string, p: nat, k: nat, q: nat, w: nat)
    requires p <= k <= |s| && SkipDigits(s, p) == k && 1 <= k - p <= 2
    requires forall j :: p <= j < k ==> IsDigit(s[j])
    requires q == SuffixEnd(s, k) && SkipSpaces(s, q) == w && w != q && MonthNameAt(s, w).Some?
    ensures MonthBody(s, p).Some?
    ensures MonthBody(s, p).value.day == Numeral(s, p, k)
    ensures MonthBody(s, p).value.month == MonthNameAt(s, w).value.0 % 12 + 1
    ensures MonthBody(s, p).value.year == MonthNameAt(s, w).value.1
    ensures MonthBody(s, p).value.clock == MonthNameAt(s, w).value.2
  {
  }

  /** What follows the day digits does not start with a digit. */
  lemma {:induction false} SuffixStarts(suffix: string, rest: string)
    requires suffix in OrdinalSuffixes && rest != [] && rest[0] == ' '
    ensures !IsDigit((suffix + rest)[0])
  {
    if suffix != "" {
      assert (suffix + rest)[0] == suffix[0];
    }
  }

  /** A month name starts with a letter. */
  lemma {:induction false} NameStarts(month: nat, rest: string)
    requires month < |MonthNames|
    ensures !IsSpace((MonthNames[month] + rest)[0])
  {
    MonthNamesLetters();
    assert (MonthNames[month] + rest)[0] == MonthNames[month][0];
  }

  /** `on` and whitespace, then a piece starting with a digit. */
  lemma {:induction false} OnRecognised(s: string, i: nat, body: string) returns (p: nat)
    requires i <= |s| && body != [] && IsDigit(body[0]) && s[i..] == OnSpelling(true) + body
    ensures p == i + 3 && WordThenSpace(s, i, "on") == Some(p) && s[p..] == body
  {
    assert s[i..] == "on" + (" " + body);
    p := WordSpaceStep(s, i, "on", body);
  }

  /** Text starting with a digit does not start with `on`. */
  lemma {:induction false} NoOn(s: string, i: nat)
    requires i < |s| && IsDigit(s[i])
    ensures WordThenSpace(s, i, "on").None?
  {
  }

  lemma {:induction false} MonthDateAtRecognises(s: string, i: nat, on: bool, day: string, suffix: string, month: nat,
                              year: string, clock: Option<ClockWords>)
    requires i <= |s| && MonthDateShape(day, suffix, month, year, clock)
    requires s[i..] == MonthDateSpelling(on, day, suffix, month, year, clock)
    ensures MonthDateAt(s, i) == Some(MonthDate(DigitsValue(day), month % 12 + 1, YearOf(year), ClockOpt(clock)))
  {
    var body := day + (suffix + (" " + (MonthNames[month] + YearSpelling(year, clock))));
    if on {
      var p := OnRecognised(s, i, body);
      MonthBodyRecognises(s, p, day, suffix, month, year, clock);
    } else {
      assert s[i] == day[0];
      NoOn(s, i);
      MonthBodyRecognises(s, i, day, suffix, month, year, clock);
    }
  }

  /** What a month-date match reports is read off the text: the day is the run of
      one or two digits at p (after `on` and whitespace, or at i), the month is
      the month of a name found after the optional suffix and whitespace, and the
      year and clock are what the tail after the name reports. */
  lemma {:induction false} MonthDateAtCaptures(s: string, i: nat) returns (p: nat, k: nat, q: nat, w: nat, j: nat)
    requires MonthDateAt(s, i).Some?
    ensures p <= |s| && MonthDateAt(s, i) == MonthBody(s, p)
    ensures p == i || (HasWordAt(s, i, "on") && i + 2 < p && AllSpace(s[i + 2..p]))
    ensures p < k <= p + 2 && AllDigits(s[p..k]) && MonthDateAt(s, i).value.day == DigitsValue(s[p..k])
    ensures MonthDateAt(s, i).value.day < 100
    ensures q == k || (q == k + 2 && OrdinalSuffixAt(s, k))
    ensures q < w <= |s| && AllSpace(s[q..w])
    ensures j < |MonthNames| && HasWordAt(s, w, MonthNames[j]) && MonthDateAt(s, i).value.month == j % 12 + 1
    ensures w + |MonthNames[j]| <= |s| && YearTimeTail(s, w + |MonthNames[j]|).Some?
    ensures YearTimeTail(s, w + |MonthNames[j]|).value.0 == MonthDateAt(s, i).value.year
    ensures YearTimeTail(s, w + |MonthNames[j]|).value.1 == MonthDateAt(s, i).value.clock
  {
    var on := WordThenSpace(s, i, "on");
    if on.Some? && MonthBody(s, on.value).Some? {
      p := on.value;
      Skipped(s, i + 2);
    } else {
      p := i;
    }
    k, q, w, j := MonthBodyCaptures(s, p);
  }

  lemma {:induction false} MonthBodyCaptures(s: string, p: nat) returns (k: nat, q: nat, w: nat, j: nat)
    requires p <= |s| && MonthBody(s, p).Some?
    ensures p < k <= p + 2 && AllDigits(s[p..k]) && MonthBody(s, p).value.day == DigitsValue(s[p..k])
    ensures MonthBody(s, p).value.day < 100
    ensures q == k || (q == k + 2 && OrdinalSuffixAt(s, k))
    ensures q < w <= |s| && AllSpace(s[q..w])
    ensures j < |MonthNames| && HasWordAt(s, w, MonthNames[j]) && MonthBody(s, p).value.month == j % 12 + 1
    ensures w + |MonthNames[j]| <= |s| && YearTimeTail(s, w + |MonthNames[j]|).Some?
    ensures YearTimeTail(s, w + |MonthNames[j]|).value.0 == MonthBody(s, p).value.year
    ensures YearTimeTail(s, w + |MonthNames[j]|).value.1 == MonthBody(s, p).value.clock
  {
    k, q, w := MonthBodyEnds(s, p);
    ShortDigits(s, p, k);
    Skipped(s, q);
    j := NameCaptured(s, w);
  }

  /** Where the pieces of a month-date body end, and the fields it reports. */
  lemma {:induction false} MonthBodyEnds(s: string, p: nat) returns (k: nat, q: nat, w: nat)
    requires p <= |s| && MonthBody(s, p).Some?
    ensures k == SkipDigits(s, p) && p < k <= p + 2 && k <= |s|
    ensures forall j :: p <= j < k ==> IsDigit(s[j])
    ensures q == SuffixEnd(s, k) && (q == k || (q == k + 2 && OrdinalSuffixAt(s, k)))
    ensures w == SkipSpaces(s, q) && q < w <= |s| && MonthNameAt(s, w).Some?
    ensures MonthBody(s, p).value.day == Numeral(s, p, k)
    ensures MonthBody(s, p).value.month == MonthNameAt(s, w).value.0 % 12 + 1
    ensures MonthBody(s, p).value.year == MonthNameAt(s, w).value.1
    ensures MonthBody(s, p).value.clock == MonthNameAt(s, w).value.2
  {
    k := SkipDigits(s, p);
    DigitsSkipped(s, p);
    q := SuffixEnd(s, k);
    w := SkipSpaces(s, q);
  }

  lemma {:induction false} NameCaptured(s: string, w: nat) returns (j: nat)
    requires w <= |s| && MonthNameAt(s, w).Some?
    ensures j == MonthNameAt(s, w).value.0 && j < |MonthNames| && w + |MonthNames[j]| <= |s|
    ensures HasWordAt(s, w, MonthNames[j]) && YearTimeTail(s, w + |MonthNames[j]|).Some?
    ensures YearTimeTail(s, w + |MonthNames[j]|).value.0 == MonthNameAt(s, w).value.1
    ensures YearTimeTail(s, w + |MonthNames[j]|).value.1 == MonthNameAt(s, w).value.2
  {
    j := NameYearCaptured(s, w, MonthNames);
  }

  /** The name chosen is found at w and the tail after it holds the year and clock. */
  lemma {:induction false} NameYearCaptured(s: string, w: nat, names: seq<string>) returns (j: nat)
    requires w <= |s| && NameYearAt(s, w, names).Some?
    ensures j == NameYearAt(s, w, names).value.0 && j < |names| && w + |names[j]| <= |s|
    ensures HasWordAt(s, w, names[j]) && YearTimeTail(s, w + |names[j]|).Some?
    ensures YearTimeTail(s, w + |names[j]|).value.0 == NameYearAt(s, w, names).value.1
    ensures YearTimeTail(s, w + |names[j]|).value.1 == NameYearAt(s, w, names).value.2
  {
    NameYearChosen(s, w, names);
    j := ChosenFits(s, w, names, YearTime);
    NameYearPicks(s, w, names, j);
  }

  /** A name and its tail are found only where the alternation chose a name. */
  lemma {:induction false} NameYearChosen(s: string, w: nat, names: seq<string>)
    requires w <= |s| && NameYearAt(s, w, names).Some?
    ensures FirstWord(s, w, names, 0, YearTime).Some?
  {
  }

  /** Once the alternation has chosen the j-th name, the tail after it decides. */
  lemma {:induction false} NameYearPicks(s: string, w: nat, names: seq<string>, j: nat)
    requires w <= |s| && FirstWord(s, w, names, 0, YearTime) == Some(j)
    ensures NameYearAt(s, w, names).Some? <==> YearTimeTail(s, w + |names[j]|).Some?
    ensures NameYearAt(s, w, names).Some? ==>
      NameYearAt(s, w, names).value.0 == j
      && NameYearAt(s, w, names).value.1 == YearTimeTail(s, w + |names[j]|).value.0
      && NameYearAt(s, w, names).value.2 == YearTimeTail(s, w + |names[j]|).value.1
  {
  }

  // ---------------------------------------------------------------------------
  // Grammar 3: `[on ]YYYY-M-D[ at TIME]` and `[on ]D/M/YYYY[ at TIME]`

  /** Three digit runs with a separator after the first two, then the clause. */
  function DateSpelling(first: string, sep1: char, second: string, sep2: char, third: string,
                        clock: Option<ClockWords>): string {
    first + ([sep1] + (second + ([sep2] + (third + AtSpelling(clock)))))
  }

  function NumericDateSpelling(on: bool, first: string, sep1: char, second: string, sep2: char,
                               third: string, clock: Option<ClockWords>): string {
    OnSpelling(on) + DateSpelling(first, sep1, second, sep2, third, clock)
  }

  /** The two alternatives of the date group: a four-digit year first, or last. */
  predicate NumericDateShape(first: string, sep1: char, second: string, sep2: char, third: string,
                             clock: Option<ClockWords>, yearFirst: bool) {
    AllDigits(first) && AllDigits(second) && AllDigits(third)
    && IsSeparator(sep1) && IsSeparator(sep2) && 1 <= |second| <= 2 && ClockShapeOpt(clock)
    && (if yearFirst then |first| == 4 && 1 <= |third| <= 2 else 1 <= |first| <= 2 && |third| == 4)
  }

  /** A separator, then a piece. */
  lemma {:induction false} SeparatorStep(s: string, e: nat, sep: char, rest: string) returns (b: nat)
    requires e <= |s| && s[e..] == [sep] + rest
    ensures b == e + 1 && b <= |s| && e < |s| && s[e] == sep && s[b..] == rest
  {
    b := e + 1;
    TailSplit(s, e, [sep], rest);
    assert s[e] == s[e..][0];
  }

  /** A digit run followed by a separator stops at the separator. */
  lemma {:induction false} BeforeSeparator(sep: char, rest: string)
    requires IsSeparator(sep)
    ensures !IsDigit(([sep] + rest)[0])
  {
  }

  /** The clause after a date starts with a space, or there is none. */
  lemma {:induction false} BeforeClause(clock: Option<ClockWords>)
    ensures AtSpelling(clock) == [] || !IsDigit(AtSpelling(clock)[0])
  {
  }

  /** The fields of the given lengths are recognised with the values written. */
  lemma {:induction false} DateFieldsRecognises(s: string, p: nat, first: string, sep1: char, second: string, sep2: char,
                             third: string, clock: Option<ClockWords>, yearFirst: bool)
    requires p <= |s| && NumericDateShape(first, sep1, second, sep2, third, clock, yearFirst)
    requires s[p..] == DateSpelling(first, sep1, second, sep2, third, clock)
    ensures DateFields(s, p, FirstLengths(yearFirst), ThirdLengths(yearFirst), yearFirst)
      == Some(NumericDate(DigitsValue(first), DigitsValue(second), DigitsValue(third), yearFirst, ClockOpt(clock)))
  {
    var tail := AtSpelling(clock);
    var rest2 := [sep2] + (third + tail);
    var rest1 := [sep1] + (second + rest2);
    BeforeSeparator(sep1, second + rest2);
    var e1 := DigitsStep(s, p, first, rest1);
    var b1 := SeparatorStep(s, e1, sep1, second + rest2);
    BeforeSeparator(sep2, third + tail);
    var e2 := DigitsStep(s, b1, second, rest2);
    var b2 := SeparatorStep(s, e2, sep2, third + tail);
    BeforeClause(clock);
    var e3 := DigitsStep(s, b2, third, tail);
    AtTimeTailRecognises(s, e3, clock);
    LengthsFit(first, sep1, second, sep2, third, clock, yearFirst);
    var r := DateFieldsSteps(s, p, FirstLengths(yearFirst), ThirdLengths(yearFirst), yearFirst,
                             e1, b1, e2, b2, e3, |first|, |third|);
    assert r.first == DigitsValue(first);
    assert r.second == DigitsValue(second);
    assert r.third == DigitsValue(third);
    assert r.clock == ClockOpt(clock);
  }

  /** The lengths the first and the third field may have in each alternative. */
  function FirstLengths(yearFirst: bool): set<nat> {
    if yearFirst then {4} else {1, 2}
  }

  function ThirdLengths(yearFirst: bool): set<nat> {
    if yearFirst then {1, 2} else {4}
  }

  /** DateFields read off the positions where its three digit runs start and end. */
  lemma {:induction false} DateFieldsSteps(s: string, p: nat, firstLen: set<nat>, thirdLen: set<nat>, yearFirst: bool,
                        e1: nat, b1: nat, e2: nat, b2: nat, e3: nat, n1: nat, n3: nat) returns (r: TimeExpr)
    requires p <= e1 < |s| && SkipDigits(s, p) == e1 && e1 == p + n1 && n1 in firstLen && IsSeparator(s[e1])
    requires b1 == e1 + 1 && b1 <= e2 < |s| && SkipDigits(s, b1) == e2 && 1 <= e2 - b1 <= 2 && IsSeparator(s[e2])
    requires b2 == e2 + 1 && b2 <= e3 <= |s| && SkipDigits(s, b2) == e3 && e3 == b2 + n3 && n3 in thirdLen
    requires AtTimeTail(s, e3).Some?
    requires forall j :: p <= j < e1 ==> IsDigit(s[j])
    requires forall j :: b1 <= j < e2 ==> IsDigit(s[j])
    requires forall j :: b2 <= j < e3 ==> IsDigit(s[j])
    ensures DateFields(s, p, firstLen, thirdLen, yearFirst) == Some(r) && r.NumericDate?
    ensures r.first == Numeral(s, p, e1) && r.second == Numeral(s, b1, e2)
    ensures r.third == Numeral(s, b2, e3) && r.clock == AtTimeTail(s, e3).value
  {
    r := DateFields(s, p, firstLen, thirdLen, yearFirst).value;
    assert r == NumericDate(Numeral(s, p, e1), Numeral(s, e1 + 1, e2), Numeral(s, e2 + 1, e3),
                            yearFirst, AtTimeTail(s, e3).value);
  }

  /** The lengths written are those of the alternative. */
  lemma {:induction false} LengthsFit(first: string, sep1: char, second: string, sep2: char, third: string,
                   clock: Option<ClockWords>, yearFirst: bool)
    requires NumericDateShape(first, sep1, second, sep2, third, clock, yearFirst)
    ensures |first| in FirstLengths(yearFirst) && |third| in ThirdLengths(yearFirst)
  {
  }

  /** A first run of another length rules the alternative out. */
  lemma {:induction false} FieldsTooShort(s: string, p: nat, firstLen: set<nat>, thirdLen: set<nat>, yearFirst: bool, e1: nat)
    requires p <= |s| && SkipDigits(s, p) == e1 && e1 - p !in firstLen
    ensures DateFields(s, p, firstLen, thirdLen, yearFirst).None?
  {
  }

  /** The year-first alternative is tried first; a date written day first falls
      through to the second. */
  lemma {:induction false} NumericBodyRecognises(s: string, p: nat, first: string, sep1: char, second: string, sep2: char,
                              third: string, clock: Option<ClockWords>, yearFirst: bool)
    requires p <= |s| && NumericDateShape(first, sep1, second, sep2, third, clock, yearFirst)
    requires s[p..] == DateSpelling(first, sep1, second, sep2, third, clock)
    ensures NumericBody(s, p)
      == Some(NumericDate(DigitsValue(first), DigitsValue(second), DigitsValue(third), yearFirst, ClockOpt(clock)))
  {
    DateFieldsRecognises(s, p, first, sep1, second, sep2, third, clock, yearFirst);
    if !yearFirst {
      var rest := [sep1] + (second + ([sep2] + (third + AtSpelling(clock))));
      BeforeSeparator(sep1, second + ([sep2] + (third + AtSpelling(clock))));
      var e1 := DigitsStep(s, p, first, rest);
      FieldsTooShort(s, p, {4}, {1, 2}, true, e1);
    }
    NumericBodySteps(s, p, yearFirst);
  }

  /** The alternative that matches is the one NumericBody reports. */
  lemma {:induction false} NumericBodySteps(s: string, p: nat, yearFirst: bool)
    requires p <= |s| && DateFields(s, p, FirstLengths(yearFirst), ThirdLengths(yearFirst), yearFirst).Some?
    requires !yearFirst ==> DateFields(s, p, {4}, {1, 2}, true).None?
    ensures NumericBody(s, p) == DateFields(s, p, FirstLengths(yearFirst), ThirdLengths(yearFirst), yearFirst)
  {
  }

  lemma {:induction false} NumericDateAtRecognises(s: string, i: nat, on: bool, first: string, sep1: char, second: string,
                                sep2: char, third: string, clock: Option<ClockWords>, yearFirst: bool)
    requires i <= |s| && NumericDateShape(first, sep1, second, sep2, third, clock, yearFirst)
    requires s[i..] == NumericDateSpelling(on, first, sep1, second, sep2, third, clock)
    ensures NumericDateAt(s, i)
      == Some(NumericDate(DigitsValue(first), DigitsValue(second), DigitsValue(third), yearFirst, ClockOpt(clock)))
  {
    var body := DateSpelling(first, sep1, second, sep2, third, clock);
    assert body[0] == first[0];
    if on {
      var p := OnRecognised(s, i, body);
      NumericBodyRecognises(s, p, first, sep1, second, sep2, third, clock, yearFirst);
    } else {
      assert s[i] == first[0];
      NoOn(s, i);
      NumericBodyRecognises(s, i, first, sep1, second, sep2, third, clock, yearFirst);
    }
  }

  /** What the fields report is read off the text: three whole digit runs of the
      lengths allowed, the separators between them (at e1 and e2, so the runs
      start at p, b1 == e1 + 1 and b2 == e2 + 1), and the clause after them. */
  lemma {:induction false} DateFieldsCaptures(s: string, p: nat, firstLen: set<nat>, thirdLen: set<nat>, yearFirst: bool)
    returns (e1: nat, b1: nat, e2: nat, b2: nat, e3: nat)
    requires p <= |s| && DateFields(s, p, firstLen, thirdLen, yearFirst).Some?
    ensures p <= e1 < b1 < e2 < b2 <= e3 <= |s| && b1 == e1 + 1 && b2 == e2 + 1
    ensures e1 - p in firstLen && e2 - b1 <= 2 && e3 - b2 in thirdLen
    ensures IsSeparator(s[e1]) && IsSeparator(s[e2])
    ensures AllDigits(s[p..e1]) && AllDigits(s[b1..e2]) && AllDigits(s[b2..e3])
    ensures DateFields(s, p, firstLen, thirdLen, yearFirst).value.first == DigitsValue(s[p..e1])
    ensures DateFields(s, p, firstLen, thirdLen, yearFirst).value.second == DigitsValue(s[b1..e2])
    ensures DateFields(s, p, firstLen, thirdLen, yearFirst).value.third == DigitsValue(s[b2..e3])
    ensures AtTimeTail(s, e3).Some?
      && AtTimeTail(s, e3).value == DateFields(s, p, firstLen, thirdLen, yearFirst).value.clock
  {
    e1, b1, e2, b2, e3 := DateFieldsEnds(s, p, firstLen, thirdLen, yearFirst);
    Skipped(s, p);
    Skipped(s, b1);
    Skipped(s, b2);
  }

  /** Where DateFields' three digit runs start and end, and what it reads there. */
  lemma {:induction false} DateFieldsEnds(s: string, p: nat, firstLen: set<nat>, thirdLen: set<nat>, yearFirst: bool)
    returns (e1: nat, b1: nat, e2: nat, b2: nat, e3: nat)
    requires p <= |s| && DateFields(s, p, firstLen, thirdLen, yearFirst).Some?
    ensures p <= e1 < b1 < e2 < b2 <= e3 <= |s| && b1 == e1 + 1 && b2 == e2 + 1
    ensures e1 == SkipDigits(s, p) && e2 == SkipDigits(s, b1) && e3 == SkipDigits(s, b2)
    ensures e1 - p in firstLen && e2 - b1 <= 2 && e3 - b2 in thirdLen
    ensures IsSeparator(s[e1]) && IsSeparator(s[e2])
    ensures forall j :: p <= j < e1 ==> IsDigit(s[j])
    ensures forall j :: b1 <= j < e2 ==> IsDigit(s[j])
    ensures forall j :: b2 <= j < e3 ==> IsDigit(s[j])
    ensures DateFields(s, p, firstLen, thirdLen, yearFirst).value.first == Numeral(s, p, e1)
    ensures DateFields(s, p, firstLen, thirdLen, yearFirst).value.second == Numeral(s, b1, e2)
    ensures DateFields(s, p, firstLen, thirdLen, yearFirst).value.third == Numeral(s, b2, e3)
    ensures AtTimeTail(s, e3).Some?
      && AtTimeTail(s, e3).value == DateFields(s, p, firstLen, thirdLen, yearFirst).value.clock
  {
    e1 := SkipDigits(s, p);
    b1 := e1 + 1;
    e2 := SkipDigits(s, b1);
    b2 := e2 + 1;
    e3 := SkipDigits(s, b2);
    DigitsSkipped(s, p);
    DigitsSkipped(s, b1);
    DigitsSkipped(s, b2);
  }

  /** What a numeric-date match reports is read off the text, after `on` and
      whitespace or at i. */
  lemma {:induction false} NumericDateAtCaptures(s: string, i: nat) returns (p: nat, e1: nat, b1: nat, e2: nat, b2: nat, e3: nat)
    requires NumericDateAt(s, i).Some?
    ensures p <= |s| && NumericDateAt(s, i) == NumericBody(s, p)
    ensures p == i || (HasWordAt(s, i, "on") && i + 2 < p && AllSpace(s[i + 2..p]))
    ensures p <= e1 < b1 < e2 < b2 <= e3 <= |s| && b1 == e1 + 1 && b2 == e2 + 1 && e2 - b1 <= 2
    ensures NumericDateAt(s, i).value.yearFirst ==> e1 - p == 4 && 1 <= e3 - b2 <= 2
    ensures !NumericDateAt(s, i).value.yearFirst ==> 1 <= e1 - p <= 2 && e3 - b2 == 4
    ensures IsSeparator(s[e1]) && IsSeparator(s[e2])
    ensures AllDigits(s[p..e1]) && AllDigits(s[b1..e2]) && AllDigits(s[b2..e3])
    ensures NumericDateAt(s, i).value.first == DigitsValue(s[p..e1])
    ensures NumericDateAt(s, i).value.second == DigitsValue(s[b1..e2])
    ensures NumericDateAt(s, i).value.third == DigitsValue(s[b2..e3])
    ensures AtTimeTail(s, e3).Some?
      && AtTimeTail(s, e3).value == NumericDateAt(s, i).value.clock
  {
    var on := WordThenSpace(s, i, "on");
    if on.Some? && NumericBody(s, on.value).Some? {
      p := on.value;
      Skipped(s, i + 2);
    } else {
      p := i;
    }
    e1, b1, e2, b2, e3 := NumericBodyCaptures(s, p);
  }

  /** A four-digit year first with the alternative marked year-first, or a one-
      or two-digit field first with the year last. */
  lemma {:induction false} NumericBodyCaptures(s: string, p: nat) returns (e1: nat, b1: nat, e2: nat, b2: nat, e3: nat)
    requires p <= |s| && NumericBody(s, p).Some?
    ensures p <= e1 < b1 < e2 < b2 <= e3 <= |s| && b1 == e1 + 1 && b2 == e2 + 1 && e2 - b1 <= 2
    ensures NumericBody(s, p).value.yearFirst ==> e1 - p == 4 && 1 <= e3 - b2 <= 2
    ensures !NumericBody(s, p).value.yearFirst ==> 1 <= e1 - p <= 2 && e3 - b2 == 4
    ensures IsSeparator(s[e1]) && IsSeparator(s[e2])
    ensures AllDigits(s[p..e1]) && AllDigits(s[b1..e2]) && AllDigits(s[b2..e3])
    ensures NumericBody(s, p).value.first == DigitsValue(s[p..e1])
    ensures NumericBody(s, p).value.second == DigitsValue(s[b1..e2])
    ensures NumericBody(s, p).value.third == DigitsValue(s[b2..e3])
    ensures AtTimeTail(s, e3).Some?
      && AtTimeTail(s, e3).value == NumericBody(s, p).value.clock
  {
    if DateFields(s, p, {4}, {1, 2}, true).Some? {
      e1, b1, e2, b2, e3 := DateFieldsCaptures(s, p, {4}, {1, 2}, true);
    } else {
      e1, b1, e2, b2, e3 := DateFieldsCaptures(s, p, {1, 2}, {4}, false);
    }
  }

  // ---------------------------------------------------------------------------
  // Grammar 4: `[on |next |at ]DAY[ at TIME]`

  /** The alternatives of the day group: DayWords[day] for day < 9, and the words
      `day after tomorrow` for day == 9; then the clause. */
  function DayPhraseSpelling(day: nat, clock: Option<ClockWords>): string
    requires day <= |DayWords|
  {
    if day < |DayWords| then DayWords[day] + AtSpelling(clock)
    else "day" + (" " + ("after" + (" " + ("tomorrow" + AtSpelling(clock)))))
  }

  /** The day word each alternative stands for. */
  function DayExpected(day: nat): DayWord {
    if day < |DayWords| then DayWordOf(day) else DayAfterTomorrow("day after tomorrow")
  }

  function QualifierSpelling(q: Qualifier): string {
    if q == NoQualifier then "" else QualifierWord(q) + " "
  }

  function DayNameSpelling(q: Qualifier, day: nat, clock: Option<ClockWords>): string
    requires day <= |DayWords|
  {
    QualifierSpelling(q) + DayPhraseSpelling(day, clock)
  }

  const DayInitials: set<char> := {'m', 't', 'w', 'f', 's'}

  lemma {:induction false} DayWordsLetters()
    ensures forall k :: 0 <= k < |DayWords| ==> Letters(DayWords[k]) && DayWords[k] != []
    ensures forall k :: 0 <= k < |DayWords| ==> DayWords[k][0] in DayInitials
  {
  }

  /** No day word is listed twice. */
  lemma {:induction false} DayWordsDistinct(a: nat, b: nat)
    requires a < |DayWords| && b < |DayWords| && DayWords[a] == DayWords[b]
    ensures a == b
  {
  }

  /** A day word written at p, then the clause. */
  lemma {:induction false} DayWordRecognised(s: string, p: nat, day: nat, clock: Option<ClockWords>)
    requires p <= |s| && day < |DayWords| && ClockShapeOpt(clock)
    requires s[p..] == DayWords[day] + AtSpelling(clock)
    ensures DayBody(s, p).Some? && DayBody(s, p).value.0 == DayWordOf(day)
    ensures DayBody(s, p).value.1 == ClockOpt(clock)
  {
    DayWordsLetters();
    var e := WordStep(s, p, DayWords[day], AtSpelling(clock));
    AtTimeTailRecognises(s, e, clock);
    var m := WordClockFound(s, p, DayWords, day, e);
    DayWordsDistinct(m, day);
  }

  /** A word found at p with the clause after it, ending at e: that word, or an
      earlier one spelled the same, is chosen, with the clock of the clause. */
  lemma {:induction false} WordClockFound(s: string, p: nat, words: seq<string>, j: nat, e: nat) returns (m: nat)
    requires p <= |s| && j < |words| && e == p + |words[j]| && e <= |s|
    requires forall k :: 0 <= k < |words| ==> Letters(words[k]) && words[k] != []
    requires HasWordAt(s, p, words[j]) && AtTimeTail(s, e).Some?
    ensures WordClockAt(s, p, words).Some? && WordClockAt(s, p, words).value.0 == m
    ensures m < |words| && words[m] == words[j]
    ensures WordClockAt(s, p, words).value.1 == AtTimeTail(s, e).value
  {
    m := FirstWordWritten(s, p, words, AtTime, j);
  }

  /** No day word starts with `d`, so `day after tomorrow` is the alternative tried. */
  lemma {:induction false} NoDayWordAt(s: string, p: nat)
    requires p < |s| && Lower(s[p]) == 'd'
    ensures FirstWord(s, p, DayWords, 0, AtTime).None?
  {
    DayWordsLetters();
    FirstWordIsFirst(s, p, DayWords, 0, AtTime);
  }

  /** `day after tomorrow`, then the clause. */
  lemma {:induction false} AfterTomorrowRecognises(s: string, p: nat, clock: Option<ClockWords>)
    requires p <= |s| && ClockShapeOpt(clock)
    requires s[p..] == "day" + (" " + ("after" + (" " + ("tomorrow" + AtSpelling(clock)))))
    ensures AfterTomorrowAt(s, p).Some?
    ensures AfterTomorrowAt(s, p).value.0 == DayAfterTomorrow("day after tomorrow")
    ensures AfterTomorrowAt(s, p).value.1 == ClockOpt(clock)
  {
    var e := AfterTomorrowWords(s, p, clock);
    AfterTomorrowSteps(s, p, e);
  }

  /** Where the three words and the spaces between them end. */
  lemma {:induction false} AfterTomorrowWords(s: string, p: nat, clock: Option<ClockWords>) returns (e: nat)
    requires p <= |s| && ClockShapeOpt(clock)
    requires s[p..] == "day" + (" " + ("after" + (" " + ("tomorrow" + AtSpelling(clock)))))
    ensures p <= e <= |s| && AfterTomorrowEnd(s, p) == Some(e)
    ensures LowerStr(s[p..e]) == "day after tomorrow"
    ensures AtTimeTail(s, e).Some? && AtTimeTail(s, e).value == ClockOpt(clock)
  {
    var tail := AtSpelling(clock);
    var a := WordSpaceStep(s, p, "day", "after" + (" " + ("tomorrow" + tail)));
    var b := WordSpaceStep(s, a, "after", "tomorrow" + tail);
    e := WordStep(s, b, "tomorrow", tail);
    AtTimeTailRecognises(s, e, clock);
    AfterTomorrowText(s, p, e, tail);
    AfterTomorrowEndSteps(s, p, a, b, e);
  }

  /** AfterTomorrowEnd once the three words are read. */
  lemma {:induction false} AfterTomorrowEndSteps(s: string, p: nat, a: nat, b: nat, e: nat)
    requires p <= |s| && WordThenSpace(s, p, "day") == Some(a) && a <= |s| && WordThenSpace(s, a, "after") == Some(b)
    requires b <= |s| && HasWordAt(s, b, "tomorrow") && e == b + |"tomorrow"|
    ensures AfterTomorrowEnd(s, p) == Some(e)
  {
  }

  /** The words matched, lower-cased, with the single spaces written. */
  lemma {:induction false} AfterTomorrowText(s: string, p: nat, e: nat, tail: string)
    requires p <= |s| && s[p..] == "day" + (" " + ("after" + (" " + ("tomorrow" + tail))))
    requires e == p + 18
    ensures e <= |s| && LowerStr(s[p..e]) == "day after tomorrow"
  {
    assert s[p..e] == s[p..][..18];
    assert s[p..][..18] == "day after tomorrow";
    LowerStrKeeps("day after tomorrow");
  }

  /** AfterTomorrowAt once the three words end at e and the clause after them fits. */
  lemma {:induction false} AfterTomorrowSteps(s: string, p: nat, e: nat)
    requires p <= e <= |s| && AfterTomorrowEnd(s, p) == Some(e) && AtTimeTail(s, e).Some?
    ensures AfterTomorrowAt(s, p).Some?
    ensures AfterTomorrowAt(s, p).value.0 == DayAfterTomorrow(LowerStr(s[p..e]))
    ensures AfterTomorrowAt(s, p).value.1 == AtTimeTail(s, e).value
  {
  }

  /** Each alternative of the day group is recognised, with the clause after it. */
  lemma {:induction false} DayBodyRecognises(s: string, p: nat, day: nat, clock: Option<ClockWords>)
    requires p <= |s| && day <= |DayWords| && ClockShapeOpt(clock)
    requires s[p..] == DayPhraseSpelling(day, clock)
    ensures DayBody(s, p).Some? && DayBody(s, p).value.0 == DayExpected(day)
    ensures DayBody(s, p).value.1 == ClockOpt(clock)
  {
    if day < |DayWords| {
      DayWordRecognised(s, p, day, clock);
    } else {
      assert s[p] == 'd';
      NoDayWordAt(s, p);
      AfterTomorrowRecognises(s, p, clock);
    }
  }

  /** The day phrase starts with a letter no qualifier starts with. */
  lemma {:induction false} PhraseStarts(day: nat, clock: Option<ClockWords>)
    requires day <= |DayWords|
    ensures DayPhraseSpelling(day, clock) != []
    ensures DayPhraseSpelling(day, clock)[0] in DayInitials + {'d'}
  {
    DayWordsLetters();
    if day < |DayWords| {
      assert DayPhraseSpelling(day, clock)[0] == DayWords[day][0];
    }
  }

  /** A qualifier written at i is the one read; with none written, none is read. */
  lemma {:induction false} QualifierRead(s: string, i: nat, q: Qualifier, rest: string)
    requires i <= |s| && rest != [] && rest[0] in DayInitials + {'d'}
    requires s[i..] == QualifierSpelling(q) + rest
    ensures QualifierAt(s, i) == q
  {
    if q == NoQualifier {
      assert s[i] == rest[0];
      NoQualifierAt(s, i);
    } else {
      var w := QualifierWord(q);
      var d := WordSpaceStep(s, i, w, rest);
      QualifierWordAt(s, i, q);
    }
  }

  /** A day phrase starts with none of the qualifiers' initials. */
  lemma {:induction false} NoQualifierAt(s: string, i: nat)
    requires i < |s| && s[i] in DayInitials + {'d'}
    ensures QualifierAt(s, i) == NoQualifier
  {
  }

  /** The three qualifier words start with different letters. */
  lemma {:induction false} QualifierWordAt(s: string, i: nat, q: Qualifier)
    requires i <= |s| && q != NoQualifier && HasWordAt(s, i, QualifierWord(q))
    ensures QualifierAt(s, i) == q
  {
    assert Lower(s[i]) == QualifierWord(q)[0];
  }

  /** The qualifier, the day and the clock written are those reported, and the
      text matched is the rest of the text, lower-cased. */
  lemma {:induction false} DayNameAtRecognises(s: string, i: nat, q: Qualifier, day: nat, clock: Option<ClockWords>)
    requires i <= |s| && day <= |DayWords| && ClockShapeOpt(clock)
    requires s[i..] == DayNameSpelling(q, day, clock)
    ensures DayNameAt(s, i) == Some(DayName(q, LowerStr(s[i..]), DayExpected(day), ClockOpt(clock)))
  {
    var phrase := DayPhraseSpelling(day, clock);
    PhraseStarts(day, clock);
    QualifierRead(s, i, q, phrase);
    var p := i;
    if q != NoQualifier {
      p := QualifiedDay(s, i, q, day, clock);
    } else {
      DayBodyRecognises(s, i, day, clock);
    }
    DayNameSteps(s, i, q, p);
    assert DayNameAt(s, i).value.dayWord == DayExpected(day);
    assert DayNameAt(s, i).value.clock == ClockOpt(clock);
  }

  /** The qualifier word and a space, then the day phrase. */
  lemma {:induction false} QualifiedDay(s: string, i: nat, q: Qualifier, day: nat, clock: Option<ClockWords>) returns (p: nat)
    requires i <= |s| && day <= |DayWords| && ClockShapeOpt(clock) && q != NoQualifier
    requires s[i..] == QualifierSpelling(q) + DayPhraseSpelling(day, clock)
    ensures i < p <= |s| && WordThenSpace(s, i, QualifierWord(q)) == Some(p)
    ensures DayBody(s, p).Some? && DayBody(s, p).value.0 == DayExpected(day)
    ensures DayBody(s, p).value.1 == ClockOpt(clock)
  {
    var phrase := DayPhraseSpelling(day, clock);
    PhraseStarts(day, clock);
    QualifierSplit(q, phrase);
    p := WordSpaceStep(s, i, QualifierWord(q), phrase);
    DayBodyRecognises(s, p, day, clock);
  }

  lemma {:induction false} QualifierSplit(q: Qualifier, rest: string)
    requires q != NoQualifier
    ensures QualifierSpelling(q) + rest == QualifierWord(q) + (" " + rest)
  {
  }

  /** DayNameAt once the qualifier is read and the day group matches at p. */
  lemma {:induction false} DayNameSteps(s: string, i: nat, q: Qualifier, p: nat)
    requires i <= p <= |s| && QualifierAt(s, i) == q && DayBody(s, p).Some?
    requires q == NoQualifier ==> p == i
    requires q != NoQualifier ==> WordThenSpace(s, i, QualifierWord(q)) == Some(p)
    ensures DayNameAt(s, i).Some? && DayNameAt(s, i).value.qualifier == q
    ensures DayNameAt(s, i).value.matched == LowerStr(s[i..])
    ensures DayNameAt(s, i).value.dayWord == DayBody(s, p).value.0
    ensures DayNameAt(s, i).value.clock == DayBody(s, p).value.1
  {
  }

  /** The words `day`, `after`, `tomorrow` with whitespace between them. */
  lemma {:induction false} AfterTomorrowEndCaptures(s: string, p: nat) returns (a: nat, b: nat)
    requires p <= |s| && AfterTomorrowEnd(s, p).Some?
    ensures HasWordAt(s, p, "day") && p + 3 < a <= |s| && AllSpace(s[p + 3..a])
    ensures HasWordAt(s, a, "after") && a + 5 < b <= |s| && AllSpace(s[a + 5..b])
    ensures HasWordAt(s, b, "tomorrow") && AfterTomorrowEnd(s, p) == Some(b + 8)
  {
    a, b := AfterTomorrowParts(s, p);
    WordSpaceSkipped(s, p, "day", a);
    WordSpaceSkipped(s, a, "after", b);
  }

  lemma {:induction false} AfterTomorrowParts(s: string, p: nat) returns (a: nat, b: nat)
    requires p <= |s| && AfterTomorrowEnd(s, p).Some?
    ensures WordThenSpace(s, p, "day") == Some(a) && a <= |s| && WordThenSpace(s, a, "after") == Some(b)
    ensures b <= |s| && HasWordAt(s, b, "tomorrow") && AfterTomorrowEnd(s, p) == Some(b + 8)
  {
    a := WordThenSpace(s, p, "day").value;
    b := WordThenSpace(s, a, "after").value;
  }

  /** What the day group reports is read off the text: the j-th day word (j < 9)
      or the words `day after tomorrow` (j == 9), ending at e, and the clause
      after them. */
  lemma {:induction false} DayBodyCaptures(s: string, p: nat) returns (j: nat, e: nat)
    requires p <= |s| && DayBody(s, p).Some?
    ensures j <= |DayWords| && p < e <= |s| && AtTimeTail(s, e).Some?
      && AtTimeTail(s, e).value == DayBody(s, p).value.1
    ensures j < |DayWords| ==>
      HasWordAt(s, p, DayWords[j]) && e == p + |DayWords[j]| && DayBody(s, p).value.0 == DayWordOf(j)
    ensures j == |DayWords| ==>
      AfterTomorrowEnd(s, p) == Some(e) && DayBody(s, p).value.0 == DayAfterTomorrow(LowerStr(s[p..e]))
  {
    if WordClockAt(s, p, DayWords).Some? {
      j, e := DayWordCaptured(s, p);
    } else {
      j := |DayWords|;
      e := AfterTomorrowCaptured(s, p);
    }
  }

  lemma {:induction false} DayWordCaptured(s: string, p: nat) returns (j: nat, e: nat)
    requires p <= |s| && WordClockAt(s, p, DayWords).Some?
    ensures j < |DayWords| && p < e <= |s| && AtTimeTail(s, e).Some?
    ensures DayBody(s, p).Some? && AtTimeTail(s, e).value == DayBody(s, p).value.1
    ensures HasWordAt(s, p, DayWords[j]) && e == p + |DayWords[j]| && DayBody(s, p).value.0 == DayWordOf(j)
  {
    DayWordsLetters();
    j, e := WordClockCaptured(s, p, DayWords);
  }

  lemma {:induction false} AfterTomorrowCaptured(s: string, p: nat) returns (e: nat)
    requires p <= |s| && WordClockAt(s, p, DayWords).None? && DayBody(s, p).Some?
    ensures p < e <= |s| && AtTimeTail(s, e).Some? && AtTimeTail(s, e).value == DayBody(s, p).value.1
    ensures AfterTomorrowEnd(s, p) == Some(e) && DayBody(s, p).value.0 == DayAfterTomorrow(LowerStr(s[p..e]))
  {
    e := AfterTomorrowEnd(s, p).value;
  }

  /** The word chosen is found at p and the clause after it holds the clock. */
  lemma {:induction false} WordClockCaptured(s: string, p: nat, words: seq<string>) returns (j: nat, e: nat)
    requires p <= |s| && WordClockAt(s, p, words).Some?
    requires forall k :: 0 <= k < |words| ==> words[k] != []
    ensures j == WordClockAt(s, p, words).value.0 && j < |words| && e == p + |words[j]| && p < e <= |s|
    ensures HasWordAt(s, p, words[j]) && AtTimeTail(s, e).Some?
      && AtTimeTail(s, e).value == WordClockAt(s, p, words).value.1
  {
    j := ChosenFits(s, p, words, AtTime);
    e := p + |words[j]|;
  }

  /** What a day-name match reports is read off the text: the qualifier word q
      written at i and whitespace, or none, then the day group at p. */
  lemma {:induction false} DayNameAtCaptures(s: string, i: nat) returns (q: Qualifier, p: nat)
    requires DayNameAt(s, i).Some?
    ensures q == DayNameAt(s, i).value.qualifier
    ensures i <= p <= |s| && DayBody(s, p).Some?
    ensures DayNameAt(s, i).value.dayWord == DayBody(s, p).value.0
    ensures DayNameAt(s, i).value.clock == DayBody(s, p).value.1
    ensures q == NoQualifier ==> p == i
    ensures q != NoQualifier ==>
      HasWordAt(s, i, QualifierWord(q)) && i + |QualifierWord(q)| < p && AllSpace(s[i + |QualifierWord(q)|..p])
  {
    var start := QualifiedStart(s, i);
    if start.Some? && DayBody(s, start.value).Some? {
      q, p := QualifierAt(s, i), start.value;
      QualifiedCaptured(s, i, q, p);
    } else {
      q, p := NoQualifier, i;
      UnqualifiedCaptured(s, i);
    }
  }

  lemma {:induction false} QualifiedCaptured(s: string, i: nat, q: Qualifier, p: nat)
    requires i <= |s| && QualifiedStart(s, i) == Some(p) && QualifierAt(s, i) == q && DayBody(s, p).Some?
    ensures q != NoQualifier && DayNameAt(s, i).Some? && DayNameAt(s, i).value.qualifier == q
    ensures DayNameAt(s, i).value.dayWord == DayBody(s, p).value.0
    ensures DayNameAt(s, i).value.clock == DayBody(s, p).value.1
    ensures HasWordAt(s, i, QualifierWord(q)) && i + |QualifierWord(q)| < p <= |s|
    ensures AllSpace(s[i + |QualifierWord(q)|..p])
  {
    DayNameSteps(s, i, q, p);
    WordSpaceSkipped(s, i, QualifierWord(q), p);
  }

  /** `w\s+` at i, ending at p: the word, then only whitespace. */
  lemma {:induction false} WordSpaceSkipped(s: string, i: nat, w: string, p: nat)
    requires i <= |s| && WordThenSpace(s, i, w) == Some(p)
    ensures HasWordAt(s, i, w) && i + |w| < p <= |s| && AllSpace(s[i + |w|..p])
  {
    Skipped(s, i + |w|);
  }

  lemma {:induction false} UnqualifiedCaptured(s: string, i: nat)
    requires i <= |s| && DayNameAt(s, i).Some?
    requires QualifiedStart(s, i).None? || DayBody(s, QualifiedStart(s, i).value).None?
    ensures DayBody(s, i).Some? && DayNameAt(s, i).value.qualifier == NoQualifier
    ensures DayNameAt(s, i).value.dayWord == DayBody(s, i).value.0
    ensures DayNameAt(s, i).value.clock == DayBody(s, i).value.1
  {
  }

  // ---------------------------------------------------------------------------
  // Grammar 5: `[at ]TIME`

  function TimeOnlySpelling(at: bool, c: ClockWords): string {
    (if at then "at" + " " else "") + ClockSpelling(c)
  }

  /** A time fragment starts with a digit. */
  lemma {:induction false} ClockStarts(c: ClockWords)
    requires ClockShape(c)
    ensures ClockSpelling(c) != [] && IsDigit(ClockSpelling(c)[0])
  {
    assert ClockSpelling(c)[0] == c.hour[0];
  }

  /** The clock is the one written, with or without `at` before it. */
  lemma {:induction false} TimeOnlyAtRecognises(s: string, i: nat, at: bool, c: ClockWords)
    requires i <= |s| && ClockShape(c) && s[i..] == TimeOnlySpelling(at, c)
    ensures TimeOnlyAt(s, i) == Some(TimeOnly(ClockOf(c)))
  {
    var p := TimeOnlyWords(s, i, at, c);
    TimeOnlySteps(s, i, p);
  }

  /** Where the time fragment of a time-only spelling starts. */
  lemma {:induction false} TimeOnlyWords(s: string, i: nat, at: bool, c: ClockWords) returns (p: nat)
    requires i <= |s| && ClockShape(c) && s[i..] == TimeOnlySpelling(at, c)
    ensures i <= p <= |s| && TimeAt(s, p) == Some(ClockOf(c))
    ensures at ==> WordThenSpace(s, i, "at") == Some(p)
    ensures !at ==> p == i && WordThenSpace(s, i, "at").None?
  {
    ClockStarts(c);
    if at {
      assert s[i..] == "at" + (" " + ClockSpelling(c));
      p := WordSpaceStep(s, i, "at", ClockSpelling(c));
    } else {
      p := i;
      assert s[i] == ClockSpelling(c)[0];
    }
    TimeAtRecognises(s, p, c);
  }

  lemma {:induction false} TimeOnlySteps(s: string, i: nat, p: nat)
    requires i <= p <= |s| && TimeAt(s, p).Some?
    requires WordThenSpace(s, i, "at") == Some(p) || (p == i && WordThenSpace(s, i, "at").None?)
    ensures TimeOnlyAt(s, i).Some? && TimeOnlyAt(s, i).value.time == TimeAt(s, p).value
  {
  }

  /** What a time-only match reports is read off the text: the time fragment at p,
      after `at` and whitespace or right at i. */
  lemma {:induction false} TimeOnlyAtCaptures(s: string, i: nat) returns (p: nat)
    requires TimeOnlyAt(s, i).Some?
    ensures i <= p <= |s| && TimeAt(s, p).Some? && TimeOnlyAt(s, i).value.time == TimeAt(s, p).value
    ensures p == i || (HasWordAt(s, i, "at") && i + 2 < p && AllSpace(s[i + 2..p]))
  {
    var at := WordThenSpace(s, i, "at");
    if at.Some? && TimeAt(s, at.value).Some? {
      p := at.value;
      Skipped(s, i + 2);
    } else {
      p := i;
    }
  }

  // ---------------------------------------------------------------------------
  // The early modifier: `early[ reminder] N[ unit]`

  function ReminderSpelling(reminder: bool): string {
    if reminder then "reminder" + " " else ""
  }

  function UnitSpelling(unit: Option<nat>): string
    requires unit.Some? ==> unit.value < |EarlyUnits|
  {
    match unit
    case None => ""
    case Some(k) => " " + EarlyUnits[k]
  }

  function EarlySpelling(reminder: bool, digits: string, unit: Option<nat>): string
    requires unit.Some? ==> unit.value < |EarlyUnits|
  {
    "early" + (" " + (ReminderSpelling(reminder) + (digits + UnitSpelling(unit))))
  }

  /** What may follow the modifier for its spelling to be the whole match: the end
      of the text, or a character that neither continues a word nor starts the
      whitespace before a unit. */
  predicate EndsModifier(post: string) {
    post == [] || (!IsWordChar(post[0]) && !IsSpace(post[0]))
  }

  lemma {:induction false} EarlyUnitsLetters()
    ensures forall k :: 0 <= k < |EarlyUnits| ==> Letters(EarlyUnits[k]) && EarlyUnits[k] != []
  {
  }

  /** No unit is listed twice. */
  lemma {:induction false} EarlyUnitsDistinct(a: nat, b: nat)
    requires a < |EarlyUnits| && b < |EarlyUnits| && EarlyUnits[a] == EarlyUnits[b]
    ensures a == b
  {
  }

  /** The minutes are the number written, and the match ends where the spelling
      does. */
  lemma {:induction false} EarlyAtRecognises(s: string, i: nat, reminder: bool, digits: string,
                                             unit: Option<nat>, post: string)
    returns (e: nat)
    requires i <= |s| && (i == 0 || !IsWordChar(s[i - 1]))
    requires digits != [] && AllDigits(digits) && (unit.Some? ==> unit.value < |EarlyUnits|)
    requires s[i..] == EarlySpelling(reminder, digits, unit) + post && EndsModifier(post)
    ensures e == i + |EarlySpelling(reminder, digits, unit)|
    ensures EarlyAt(s, i) == Some(EarlyHit(e, DigitsValue(digits)))
  {
    var a, b, c, u;
    a, b, c, u, e := EarlyPositions(s, i, reminder, digits, unit, post);
    EarlySteps(s, i, a, b, c, u, e, unit);
    EarlyHitIs(s, i, e, DigitsValue(digits));
  }

  lemma {:induction false} EarlyHitIs(s: string, i: nat, e: nat, minutes: nat)
    requires EarlyAt(s, i).Some? && EarlyAt(s, i).value.end == e && EarlyAt(s, i).value.minutes == minutes
    ensures EarlyAt(s, i) == Some(EarlyHit(e, minutes))
  {
  }

  /** Where each piece of an early spelling ends. */
  lemma {:induction false} EarlyPositions(s: string, i: nat, reminder: bool, digits: string,
                                          unit: Option<nat>, post: string)
    returns (a: nat, b: nat, c: nat, u: nat, e: nat)
    requires i <= |s| && (i == 0 || !IsWordChar(s[i - 1]))
    requires digits != [] && AllDigits(digits) && (unit.Some? ==> unit.value < |EarlyUnits|)
    requires s[i..] == EarlySpelling(reminder, digits, unit) + post && EndsModifier(post)
    ensures e == i + |EarlySpelling(reminder, digits, unit)|
    ensures BoundaryAt(s, i) && WordThenSpace(s, i, "early") == Some(a)
    ensures a <= b <= c <= |s| && ReminderEnd(s, a) == b && SkipDigits(s, b) == c && b < c
    ensures forall j :: b <= j < c ==> IsDigit(s[j])
    ensures Numeral(s, b, c) == DigitsValue(digits)
    ensures u == SkipSpaces(s, c)
    ensures unit.None? ==> u == c && e == c && BoundaryAt(s, c)
    ensures unit.Some? ==>
      c < u && FirstWord(s, u, EarlyUnits, 0, WordEnd) == unit && e == u + |EarlyUnits[unit.value]|
  {
    var after := UnitSpelling(unit) + post;
    EarlyPieces(reminder, digits, unit, post);
    a, b := EarlyWords(s, i, reminder, digits + after);
    c := DigitsStep(s, b, digits, after);
    u, e := UnitWords(s, c, unit, post);
    assert |s[i..]| == |EarlySpelling(reminder, digits, unit)| + |post|;
  }

  /** The spelling regrouped piece by piece; what follows the digits does not
      start with a digit. */
  lemma {:induction false} EarlyPieces(reminder: bool, digits: string, unit: Option<nat>, post: string)
    requires unit.Some? ==> unit.value < |EarlyUnits|
    requires EndsModifier(post)
    ensures EarlySpelling(reminder, digits, unit) + post
      == "early" + (" " + (ReminderSpelling(reminder) + (digits + (UnitSpelling(unit) + post))))
    ensures UnitSpelling(unit) + post == [] || !IsDigit((UnitSpelling(unit) + post)[0])
  {
    Nest("early", " ", ReminderSpelling(reminder), digits, UnitSpelling(unit), post);
    if unit.Some? {
      assert (UnitSpelling(unit) + post)[0] == ' ';
    } else {
      assert UnitSpelling(unit) + post == post;
    }
  }

  /** Appending to a right-nested concatenation appends to its last piece. */
  lemma {:induction false} Nest(a: string, b: string, c: string, d: string, e: string, post: string)
    ensures (a + (b + (c + (d + e)))) + post == a + (b + (c + (d + (e + post))))
  {
  }

  /** `early`, whitespace and the optional `reminder` and whitespace, before a
      piece starting with a digit. */
  lemma {:induction false} EarlyWords(s: string, i: nat, reminder: bool, rest: string) returns (a: nat, b: nat)
    requires i <= |s| && (i == 0 || !IsWordChar(s[i - 1]))
    requires rest != [] && IsDigit(rest[0])
    requires s[i..] == "early" + (" " + (ReminderSpelling(reminder) + rest))
    ensures BoundaryAt(s, i) && WordThenSpace(s, i, "early") == Some(a)
    ensures a <= b <= |s| && ReminderEnd(s, a) == b && s[b..] == rest
  {
    var after := ReminderSpelling(reminder) + rest;
    ReminderStarts(reminder, rest);
    a := WordSpaceStep(s, i, "early", after);
    EarlyBoundary(s, i, a);
    b := ReminderStep(s, a, reminder, rest);
  }

  lemma {:induction false} ReminderStarts(reminder: bool, rest: string)
    requires rest != [] && IsDigit(rest[0])
    ensures ReminderSpelling(reminder) + rest != []
    ensures !IsSpace((ReminderSpelling(reminder) + rest)[0])
  {
    assert (ReminderSpelling(reminder) + rest)[0] == (if reminder then 'r' else rest[0]);
  }

  /** `early` at i, with no word character before it, starts at a word boundary. */
  lemma {:induction false} EarlyBoundary(s: string, i: nat, a: nat)
    requires i <= |s| && (i == 0 || !IsWordChar(s[i - 1])) && WordThenSpace(s, i, "early") == Some(a)
    ensures BoundaryAt(s, i)
  {
    LetterIsWordChar(s[i]);
  }

  /** The optional `reminder` and whitespace, before a piece starting with a digit. */
  lemma {:induction false} ReminderStep(s: string, a: nat, reminder: bool, rest: string) returns (b: nat)
    requires a <= |s| && rest != [] && IsDigit(rest[0]) && s[a..] == ReminderSpelling(reminder) + rest
    ensures a <= b <= |s| && ReminderEnd(s, a) == b && s[b..] == rest
  {
    if reminder {
      assert s[a..] == "reminder" + (" " + rest);
      b := WordSpaceStep(s, a, "reminder", rest);
    } else {
      b := a;
      assert s[a..] == rest;
      assert s[a] == rest[0];
    }
  }

  /** The optional unit after the digits ending at c, then what follows the modifier. */
  lemma {:induction false} UnitWords(s: string, c: nat, unit: Option<nat>, post: string) returns (u: nat, e: nat)
    requires 0 < c <= |s| && IsWordChar(s[c - 1]) && (unit.Some? ==> unit.value < |EarlyUnits|)
    requires s[c..] == UnitSpelling(unit) + post && EndsModifier(post)
    ensures u == SkipSpaces(s, c) && e <= |s| && s[e..] == post
    ensures unit.None? ==> u == c && e == c && BoundaryAt(s, c)
    ensures unit.Some? ==>
      c < u && FirstWord(s, u, EarlyUnits, 0, WordEnd) == unit && e == u + |EarlyUnits[unit.value]|
  {
    match unit
    case None =>
      u, e := c, c;
      assert s[c..] == post;
      if post != [] {
        assert s[c] == post[0];
      }
    case Some(k) =>
      var word := EarlyUnits[k];
      EarlyUnitsLetters();
      assert s[c..] == " " + (word + post);
      assert (word + post)[0] == word[0];
      u := SpaceStep(s, c, word + post);
      var m;
      m, e := WordAtBoundary(s, u, EarlyUnits, k, post);
      EarlyUnitsDistinct(m, k);
  }

  /** A word of an alternation written at u and followed by the end of the text
      or by a character that is not a word character: it, or an earlier
      alternative spelled the same, is chosen. */
  lemma {:induction false} WordAtBoundary(s: string, u: nat, words: seq<string>, k: nat, post: string)
    returns (m: nat, e: nat)
    requires u <= |s| && k < |words|
    requires forall j :: 0 <= j < |words| ==> Letters(words[j]) && words[j] != []
    requires s[u..] == words[k] + post && (post == [] || !IsWordChar(post[0]))
    ensures e == u + |words[k]| && e <= |s| && s[e..] == post
    ensures FirstWord(s, u, words, 0, WordEnd) == Some(m) && m < |words| && words[m] == words[k]
  {
    var word := words[k];
    e := WordStep(s, u, word, post);
    assert s[e - 1] == word[|word| - 1] by {
      TailSplit(s, u, word, post);
    }
    LetterIsWordChar(s[e - 1]);
    if post != [] {
      assert s[e] == post[0];
    }
    assert WordFits(s, u, word, WordEnd);
    m := FirstWordWritten(s, u, words, WordEnd, k);
  }

  lemma {:induction false} EarlySteps(s: string, i: nat, a: nat, b: nat, c: nat, u: nat, e: nat, unit: Option<nat>)
    requires i <= |s| && BoundaryAt(s, i) && WordThenSpace(s, i, "early") == Some(a)
    requires a <= b <= c <= |s| && ReminderEnd(s, a) == b && SkipDigits(s, b) == c && b < c
    requires u == SkipSpaces(s, c)
    requires unit.None? ==> u == c && e == c && BoundaryAt(s, c)
    requires unit.Some? ==>
      c < u && FirstWord(s, u, EarlyUnits, 0, WordEnd) == unit && e == u + |EarlyUnits[unit.value]|
    ensures EarlyAt(s, i).Some? && EarlyAt(s, i).value.end == e
    ensures forall j :: b <= j < c ==> IsDigit(s[j])
    ensures EarlyAt(s, i).value.minutes == Numeral(s, b, c)
  {
    DigitsSkipped(s, b);
  }

  /** What an early match reports is read off the text: `early` at a word
      boundary, whitespace, the optional `reminder` and whitespace, the run of
      digits s[b..c] whose value is the minutes, and then either the j-th unit
      after whitespace or, with no unit (j == |EarlyUnits|), a word boundary. */
  lemma {:induction false} EarlyAtCaptures(s: string, i: nat) returns (a: nat, b: nat, c: nat, u: nat, j: nat)
    requires EarlyAt(s, i).Some?
    ensures i <= |s| && BoundaryAt(s, i) && HasWordAt(s, i, "early")
    ensures i + 5 < a <= |s| && AllSpace(s[i + 5..a])
    ensures b == a || (HasWordAt(s, a, "reminder") && a + 8 < b <= |s| && AllSpace(s[a + 8..b]))
    ensures a <= b < c <= |s| && AllDigits(s[b..c]) && EarlyAt(s, i).value.minutes == DigitsValue(s[b..c])
    ensures j <= |EarlyUnits|
    ensures j == |EarlyUnits| ==> EarlyAt(s, i).value.end == c && BoundaryAt(s, c)
    ensures j < |EarlyUnits| ==>
      c < u <= |s| && AllSpace(s[c..u]) && HasWordAt(s, u, EarlyUnits[j])
      && EarlyAt(s, i).value.end == u + |EarlyUnits[j]| && BoundaryAt(s, u + |EarlyUnits[j]|)
  {
    a, b, c := EarlyFront(s, i);
    u := SkipSpaces(s, c);
    if u > c && FirstWord(s, u, EarlyUnits, 0, WordEnd).Some? {
      j := ChosenFits(s, u, EarlyUnits, WordEnd);
      Skipped(s, c);
    } else {
      j := |EarlyUnits|;
    }
  }

  /** The words and the digits of an early match. */
  lemma {:induction false} EarlyFront(s: string, i: nat) returns (a: nat, b: nat, c: nat)
    requires EarlyAt(s, i).Some?
    ensures i <= |s| && BoundaryAt(s, i) && HasWordAt(s, i, "early")
    ensures WordThenSpace(s, i, "early") == Some(a) && i + 5 < a <= |s| && AllSpace(s[i + 5..a])
    ensures b == ReminderEnd(s, a) && c == SkipDigits(s, b)
    ensures b == a || (HasWordAt(s, a, "reminder") && a + 8 < b <= |s| && AllSpace(s[a + 8..b]))
    ensures a <= b < c <= |s| && AllDigits(s[b..c]) && EarlyAt(s, i).value.minutes == DigitsValue(s[b..c])
  {
    a := WordThenSpace(s, i, "early").value;
    b := ReminderEnd(s, a);
    c := SkipDigits(s, b);
    Skipped(s, i + 5);
    Skipped(s, b);
    ReminderSkipped(s, a);
  }

  /** The optional `reminder` and the whitespace after it. */
  lemma {:induction false} ReminderSkipped(s: string, a: nat)
    requires a <= |s|
    ensures ReminderEnd(s, a) == a
      || (HasWordAt(s, a, "reminder") && a + 8 < ReminderEnd(s, a) <= |s| && AllSpace(s[a + 8..ReminderEnd(s, a)]))
  {
    if ReminderEnd(s, a) != a {
      Skipped(s, a + 8);
    }
  }
}
