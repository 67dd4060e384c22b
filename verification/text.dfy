/** Character classes and string helpers used by the reminder parser.

    Whitespace is the set of characters for which Python's str.isspace() holds,
    which is also the set matched by `\s` in a str pattern and removed by
    str.strip(). Digits, word characters and case folding are ASCII only. */
module Text {

  /** Python's whitespace: str.isspace(), `\s`, and what str.strip() removes. */
  predicate IsSpace(c: char) {
    ('\t' <= c <= '\r') || ('\U{1C}' <= c <= ' ') || c == '\U{85}' || c == '\U{A0}'
    || c == '\U{1680}' || ('\U{2000}' <= c <= '\U{200A}') || c == '\U{2028}'
    || c == '\U{2029}' || c == '\U{202F}' || c == '\U{205F}' || c == '\U{3000}'
  }

  predicate IsDigit(c: char) { '0' <= c <= '9' }

  /** `\w`: letters, digits and the underscore. */
  predicate IsWordChar(c: char) {
    IsDigit(c) || ('a' <= c <= 'z') || ('A' <= c <= 'Z') || c == '_'
  }

  function DigitValue(c: char): (r: nat)
    requires IsDigit(c)
    ensures r < 10
  {
    (c as int) - ('0' as int)
  }

  function Lower(c: char): (r: char)
    ensures IsSpace(r) <==> IsSpace(c)
    ensures IsDigit(r) <==> IsDigit(c)
    ensures !('A' <= r <= 'Z')
  {
    if 'A' <= c <= 'Z' then (c as int + 32) as char else c
  }

  /** str.lower() on ASCII letters. */
  function LowerStr(t: string): (r: string)
    ensures |r| == |t|
  {
    if t == [] then [] else [Lower(t[0])] + LowerStr(t[1..])
  }

  /** Each character of the lower-case form is the lower-case character. */
  lemma {:induction false} LowerStrIndex(t: string)
    ensures forall k :: 0 <= k < |t| ==> LowerStr(t)[k] == Lower(t[k])
  {
    if t != [] {
      LowerStrIndex(t[1..]);
      forall k | 1 <= k < |t| ensures LowerStr(t)[k] == Lower(t[k]) {
        assert LowerStr(t)[k] == LowerStr(t[1..])[k - 1];
        assert t[1..][k - 1] == t[k];
      }
    }
  }

  /** Text without capital letters is its own lower-case form. */
  lemma {:induction false} LowerStrKeeps(t: string)
    requires forall k :: 0 <= k < |t| ==> !('A' <= t[k] <= 'Z')
    ensures LowerStr(t) == t
  {
    if t != [] {
      LowerStrKeeps(t[1..]);
      assert [t[0]] + t[1..] == t;
    }
  }

  /** The lower-case word `w` occurs at position `p` of `s`, compared case-insensitively. */
  predicate HasWordAt(s: string, p: nat, w: string)
    requires p <= |s|
    ensures HasWordAt(s, p, w) ==> p + |w| <= |s|
    decreases |w|
  {
    |w| == 0 || (p < |s| && Lower(s[p]) == w[0] && HasWordAt(s, p + 1, w[1..]))
  }

  lemma {:induction false} HasWordAtChars(s: string, p: nat, w: string)
    requires p <= |s| && HasWordAt(s, p, w)
    ensures forall k :: 0 <= k < |w| ==> Lower(s[p + k]) == w[k]
    decreases |w|
  {
    if |w| > 0 {
      HasWordAtChars(s, p + 1, w[1..]);
      forall k | 0 <= k < |w| ensures Lower(s[p + k]) == w[k] {
        if k > 0 { assert w[1..][k - 1] == w[k]; }
      }
    }
  }

  /** End of the run of whitespace that starts at `p`. */
  function SkipSpaces(s: string, p: nat): (r: nat)
    requires p <= |s|
    ensures p <= r <= |s|
    ensures r == |s| || !IsSpace(s[r])
    decreases |s| - p
  {
    if p < |s| && IsSpace(s[p]) then SkipSpaces(s, p + 1) else p
  }

  /** End of the run of digits that starts at `p`. */
  function SkipDigits(s: string, p: nat): (r: nat)
    requires p <= |s|
    ensures p <= r <= |s|
    ensures r == |s| || !IsDigit(s[r])
    decreases |s| - p
  {
    if p < |s| && IsDigit(s[p]) then SkipDigits(s, p + 1) else p
  }

  /** Every character SkipSpaces passes over is whitespace. */
  lemma {:induction false} SpacesSkipped(s: string, p: nat)
    requires p <= |s|
    ensures forall k :: p <= k < SkipSpaces(s, p) ==> IsSpace(s[k])
    decreases |s| - p
  {
    if p < |s| && IsSpace(s[p]) {
      SpacesSkipped(s, p + 1);
    }
  }

  /** Every character SkipDigits passes over is a digit. */
  lemma {:induction false} DigitsSkipped(s: string, p: nat)
    requires p <= |s|
    ensures forall k :: p <= k < SkipDigits(s, p) ==> IsDigit(s[k])
    decreases |s| - p
  {
    if p < |s| && IsDigit(s[p]) {
      DigitsSkipped(s, p + 1);
    }
  }

  /** Nothing but whitespace from `p` to the end: what `\s*$` accepts. */
  predicate OnlySpaceFrom(s: string, p: nat)
    requires p <= |s|
  {
    SkipSpaces(s, p) == |s|
  }

  predicate AllSpace(t: string) {
    forall k :: 0 <= k < |t| ==> IsSpace(t[k])
  }

  predicate AllDigits(t: string) {
    forall k :: 0 <= k < |t| ==> IsDigit(t[k])
  }

  /** int() of a decimal numeral. */
  function DigitsValue(t: string): (r: nat)
    requires AllDigits(t)
  {
    if t == [] then 0 else DigitsValue(t[..|t| - 1]) * 10 + DigitValue(t[|t| - 1])
  }

  function Pow10(n: nat): (r: nat)
    ensures r >= 1
  {
    if n == 0 then 1 else 10 * Pow10(n - 1)
  }

  /** A numeral of n digits denotes a number below 10^n. */
  lemma {:induction false} DigitsValueBound(t: string)
    requires AllDigits(t)
    ensures DigitsValue(t) < Pow10(|t|)
  {
    if t != [] {
      var u := t[..|t| - 1];
      assert AllDigits(u);
      DigitsValueBound(u);
      assert DigitsValue(t) <= (Pow10(|u|) - 1) * 10 + 9;
    }
  }

  /** The `\b` assertion at position `p`: a word character on exactly one side. */
  predicate BoundaryAt(s: string, p: nat)
    requires p <= |s|
  {
    (p > 0 && IsWordChar(s[p - 1])) != (p < |s| && IsWordChar(s[p]))
  }

  /** Index of the first character that str.strip() keeps. */
  function StripStart(s: string): (r: nat)
    ensures r <= |s|
    ensures forall k :: 0 <= k < r ==> IsSpace(s[k])
    ensures r == |s| || !IsSpace(s[r])
  {
    SpacesSkipped(s, 0);
    SkipSpaces(s, 0)
  }

  /** Index just past the last character that str.rstrip() keeps. */
  function StripEnd(s: string): (r: nat)
    ensures r <= |s|
    ensures forall k :: r <= k < |s| ==> IsSpace(s[k])
    ensures r == 0 || !IsSpace(s[r - 1])
    decreases |s|
  {
    if |s| > 0 && IsSpace(s[|s| - 1]) then StripEnd(s[..|s| - 1]) else |s|
  }

  /** str.strip(): drop leading and trailing whitespace. */
  function Strip(s: string): (r: string)
    ensures r == [] <==> AllSpace(s)
    ensures r != [] ==> !IsSpace(r[0]) && !IsSpace(r[|r| - 1])
    ensures r != [] ==> StripStart(s) < StripEnd(s) && r == s[StripStart(s)..StripEnd(s)]
  {
    var b := StripStart(s);
    if b == |s| then
      []
    else
      var e := StripEnd(s);
      s[b..e]
  }

  /** Whatever whitespace surrounds a stripped text, stripping gives that text back. */
  lemma {:induction false} StripSurrounded(pre: string, t: string, post: string)
    requires AllSpace(pre) && AllSpace(post)
    requires t == [] || (!IsSpace(t[0]) && !IsSpace(t[|t| - 1]))
    ensures Strip(pre + t + post) == t
  {
    var s := pre + t + post;
    if t == [] {
      assert AllSpace(s) by {
        forall k | 0 <= k < |s| ensures IsSpace(s[k]) {
          if k < |pre| { assert s[k] == pre[k]; } else { assert s[k] == post[k - |pre|]; }
        }
      }
    } else {
      assert s[|pre|] == t[0];
      assert !AllSpace(s);
      var b := StripStart(s);
      assert b == |pre|;
      var e := StripEnd(s);
      var last := |pre| + |t| - 1;
      assert s[last] == t[|t| - 1];
      assert e == |pre| + |t|;
      assert s[b..e] == t;
    }
  }

  /** Stripping twice is stripping once. */
  lemma StripIdempotent(s: string)
    ensures Strip(Strip(s)) == Strip(s)
  {
    StripSurrounded([], Strip(s), []);
    assert [] + Strip(s) + [] == Strip(s);
  }

  /** `t` begins with `w` (Python's t.startswith(w)). */
  predicate StartsWith(t: string, w: string) {
    |w| <= |t| && t[..|w|] == w
  }

  /** `w` occurs somewhere in `t` (Python's `w in t`). */
  predicate Contains(t: string, w: string)
    decreases |t|
  {
    StartsWith(t, w) || (t != [] && Contains(t[1..], w))
  }

  /** Python's str.replace(pat, ""): delete every occurrence of `pat`, scanning left
      to right and not re-examining what a deletion brings together. */
  function ReplaceAll(s: string, pat: string): (r: string)
    requires pat != []
    ensures |r| <= |s|
    decreases |s|
  {
    if |s| < |pat| then s
    else if StartsWith(s, pat) then ReplaceAll(s[|pat|..], pat)
    else [s[0]] + ReplaceAll(s[1..], pat)
  }

  /** A text without an occurrence of `pat` is left unchanged. */
  lemma {:induction false} ReplaceAllAbsent(s: string, pat: string)
    requires pat != [] && !Contains(s, pat)
    ensures ReplaceAll(s, pat) == s
    decreases |s|
  {
    if |s| >= |pat| {
      ReplaceAllAbsent(s[1..], pat);
      assert [s[0]] + s[1..] == s;
    }
  }

  /** The first occurrence of `pat` is deleted, and scanning resumes right after it. */
  lemma {:induction false} ReplaceAllFirst(a: string, pat: string, b: string)
    requires pat != []
    requires !Contains(a + pat[..|pat| - 1], pat)
    ensures ReplaceAll(a + pat + b, pat) == a + ReplaceAll(b, pat)
    decreases |a|
  {
    if a == [] {
      assert a + pat + b == pat + b;
      ReplaceAllAtStart(pat, b);
    } else {
      var pre := a + pat[..|pat| - 1];
      assert !StartsWith(pre, pat) && !Contains(pre[1..], pat);
      ShiftPieces(a, pat, b);
      ReplaceAllFirst(a[1..], pat, b);
      ReplaceAllKeeps(a, pat, b, ReplaceAll(b, pat));
    }
  }

  /** Dropping the first character of the pieces around an occurrence. */
  lemma ShiftPieces(a: string, pat: string, b: string)
    requires a != [] && pat != []
    ensures (a + pat + b)[1..] == a[1..] + pat + b
    ensures (a + pat[..|pat| - 1])[1..] == a[1..] + pat[..|pat| - 1]
    ensures (a + pat[..|pat| - 1])[..|pat|] == (a + pat + b)[..|pat|]
  {
  }

  /** A text that does not start with `pat` keeps its first character. */
  lemma ReplaceAllKeeps(a: string, pat: string, b: string, rest: string)
    requires a != [] && pat != []
    requires !StartsWith(a + pat[..|pat| - 1], pat)
    requires (a + pat[..|pat| - 1])[..|pat|] == (a + pat + b)[..|pat|]
    requires ReplaceAll((a + pat + b)[1..], pat) == a[1..] + rest
    ensures ReplaceAll(a + pat + b, pat) == a + rest
  {
    var s := a + pat + b;
    assert !StartsWith(s, pat);
    assert s[0] == a[0];
    assert [a[0]] + (a[1..] + rest) == a + rest;
  }

  /** A text that starts with `pat` loses it first. */
  lemma ReplaceAllAtStart(pat: string, b: string)
    requires pat != []
    ensures ReplaceAll(pat + b, pat) == ReplaceAll(b, pat)
  {
    var s := pat + b;
    assert s[..|pat|] == pat;
    assert s[|pat|..] == b;
  }

  /** A pattern that occurs exactly once is deleted from where it stands. */
  lemma DeleteOnlyOccurrence(a: string, pat: string, b: string)
    requires pat != []
    requires !Contains(a + pat[..|pat| - 1], pat) && !Contains(b, pat)
    ensures ReplaceAll(a + pat + b, pat) == a + b
  {
    ReplaceAllFirst(a, pat, b);
    ReplaceAllAbsent(b, pat);
  }

  /** The three pieces around a span s[i..j], and the text up to its last character. */
  lemma SpanPieces(s: string, i: nat, j: nat)
    requires i < j <= |s|
    ensures s == s[..i] + s[i..j] + s[j..]
    ensures s[..i] + s[i..j][..j - i - 1] == s[..j - 1]
  {
  }

  /** Deleting every occurrence of the span s[i..j] deletes just that span when the
      text around it holds no other occurrence. */
  lemma DeleteSpan(s: string, i: nat, j: nat)
    requires i < j <= |s|
    requires !Contains(s[..j - 1], s[i..j]) && !Contains(s[j..], s[i..j])
    ensures ReplaceAll(s, s[i..j]) == s[..i] + s[j..]
  {
    var a, pat, b := s[..i], s[i..j], s[j..];
    SpanPieces(s, i, j);
    assert a + pat[..|pat| - 1] == s[..j - 1];
    DeleteOnlyOccurrence(a, pat, b);
    assert ReplaceAll(s, pat) == ReplaceAll(a + pat + b, pat);
  }

  /** Where an occurrence found by Contains stands. */
  lemma {:induction false} ContainsIndex(t: string, w: string) returns (k: nat)
    requires Contains(t, w)
    ensures k + |w| <= |t| && t[k..k + |w|] == w
    decreases |t|
  {
    if StartsWith(t, w) {
      k := 0;
    } else {
      var rest := ContainsIndex(t[1..], w);
      k := rest + 1;
      assert t[1..][rest..rest + |w|] == t[k..k + |w|];
    }
  }

  /** A text in which no position starts with the first two characters of `w` does
      not contain `w`. */
  lemma NotContained(t: string, w: string)
    requires |w| >= 2
    requires forall k :: 0 <= k && k + |w| <= |t| ==> t[k] != w[0] || t[k + 1] != w[1]
    ensures !Contains(t, w)
  {
    if Contains(t, w) {
      var k := ContainsIndex(t, w);
    }
  }

  // ---------------------------------------------------------------------------
  // Reading a text piece by piece

  /** Lower-case ASCII letters only: how every keyword of the patterns is written. */
  predicate Letters(w: string) {
    forall k :: 0 <= k < |w| ==> 'a' <= w[k] <= 'z'
  }

  /** Position q ends a word: the text ends there or no letter stands there. */
  predicate WordStops(s: string, q: nat) {
    q <= |s| && (q == |s| || !('a' <= Lower(s[q]) <= 'z'))
  }

  /** The text from i on is `a` followed by `b`. */
  lemma TailSplit(s: string, i: nat, a: string, b: string)
    requires i <= |s| && s[i..] == a + b
    ensures i + |a| <= |s| && s[i..i + |a|] == a && s[i + |a|..] == b
    ensures forall k :: 0 <= k < |a| ==> s[i + k] == a[k]
    ensures b != [] ==> s[i + |a|] == b[0]
  {
    assert |s[i..]| == |a| + |b|;
    assert s[i..i + |a|] == s[i..][..|a|] == (a + b)[..|a|] == a;
    assert s[i + |a|..] == s[i..][|a|..] == (a + b)[|a|..] == b;
    forall k | 0 <= k < |a| ensures s[i + k] == a[k] {
      assert s[i..][k] == s[i + k];
    }
    if b != [] {
      assert s[i..][|a|] == s[i + |a|];
    }
  }

  /** A whitespace piece ends where the next piece starts with something else. */
  lemma SkipSpacesOver(s: string, i: nat, ws: string, rest: string)
    requires i <= |s| && s[i..] == ws + rest && AllSpace(ws)
    requires rest == [] || !IsSpace(rest[0])
    ensures SkipSpaces(s, i) == i + |ws|
  {
    TailSplit(s, i, ws, rest);
    SpacesSkipped(s, i);
  }

  /** A piece of digits ends where the next piece starts with something else. */
  lemma SkipDigitsOver(s: string, i: nat, ds: string, rest: string)
    requires i <= |s| && s[i..] == ds + rest && AllDigits(ds)
    requires rest == [] || !IsDigit(rest[0])
    ensures SkipDigits(s, i) == i + |ds| && s[i..i + |ds|] == ds
  {
    TailSplit(s, i, ds, rest);
    DigitsSkipped(s, i);
  }

  /** A keyword whose letters stand at p, in either case, is found there. */
  lemma {:induction false} CharsHaveWord(s: string, p: nat, w: string)
    requires p + |w| <= |s|
    requires forall k :: 0 <= k < |w| ==> Lower(s[p + k]) == w[k]
    ensures HasWordAt(s, p, w)
    decreases |w|
  {
    if w != [] {
      assert Lower(s[p + 0]) == w[0];
      forall k | 0 <= k < |w| - 1 ensures Lower(s[p + 1 + k]) == w[1..][k] {
        assert Lower(s[p + (k + 1)]) == w[k + 1];
      }
      CharsHaveWord(s, p + 1, w[1..]);
    }
  }

  /** A keyword read in `t + " " + rest` no further on than the end of `t` lies
      wholly within `t`: the space stops it. */
  lemma {:induction false} WordBeforeSpace(t: string, rest: string, k: nat, w: string)
    requires k <= |t| && Letters(w) && HasWordAt(t + " " + rest, k, w)
    ensures HasWordAt(t, k, w)
    decreases |w|
  {
    var s := t + " " + rest;
    if |w| > 0 {
      assert k < |t| by {
        assert s[|t|] == ' ';
      }
      assert s[k] == t[k];
      WordBeforeSpace(t, rest, k + 1, w[1..]);
    }
  }

  /** A keyword written at i is found there. */
  lemma {:induction false} WordOver(s: string, i: nat, w: string, rest: string)
    requires i <= |s| && s[i..] == w + rest && Letters(w)
    ensures HasWordAt(s, i, w)
    decreases |w|
  {
    if w != [] {
      TailSplit(s, i, w, rest);
      assert s[i + 1..] == w[1..] + rest by {
        assert s[i + 1..] == s[i..][1..];
        assert (w + rest)[1..] == w[1..] + rest;
      }
      WordOver(s, i + 1, w[1..], rest);
    }
  }

  /** The characters a run of whitespace or digits was skipped over. */
  lemma Skipped(s: string, p: nat)
    requires p <= |s|
    ensures AllSpace(s[p..SkipSpaces(s, p)])
    ensures AllDigits(s[p..SkipDigits(s, p)])
  {
    var q, r := SkipSpaces(s, p), SkipDigits(s, p);
    SpacesSkipped(s, p);
    DigitsSkipped(s, p);
    forall k | 0 <= k < q - p ensures IsSpace(s[p..q][k]) {
      assert s[p..q][k] == s[p + k];
    }
    forall k | 0 <= k < r - p ensures IsDigit(s[p..r][k]) {
      assert s[p..r][k] == s[p + k];
    }
  }

  /** Whitespace and the end of the text stop a word, and so does any character
      that is not a word character. */
  lemma Stops(s: string, q: nat)
    requires q <= |s| && (q == |s| || IsSpace(s[q]) || !IsWordChar(s[q]))
    ensures WordStops(s, q)
  {
  }

  /** Two keywords found at the same place, each followed by something that is not
      a letter, are the same word. */
  lemma SameWord(s: string, p: nat, w1: string, w2: string)
    requires p <= |s| && Letters(w1) && Letters(w2)
    requires HasWordAt(s, p, w1) && HasWordAt(s, p, w2)
    requires WordStops(s, p + |w1|) && WordStops(s, p + |w2|)
    ensures w1 == w2
  {
    HasWordAtChars(s, p, w1);
    HasWordAtChars(s, p, w2);
    if |w1| < |w2| {
      WordContinues(s, p, w1, w2);
    } else if |w2| < |w1| {
      WordContinues(s, p, w2, w1);
    } else {
      forall k | 0 <= k < |w1| ensures w1[k] == w2[k] {
        assert w1[k] == Lower(s[p + k]) == w2[k];
      }
    }
  }

  /** Where a shorter word ends, a longer keyword found at the same place goes on
      with a letter. */
  lemma WordContinues(s: string, p: nat, short: string, long: string)
    requires p <= |s| && Letters(long) && HasWordAt(s, p, long) && |short| < |long|
    ensures !WordStops(s, p + |short|)
  {
    HasWordAtChars(s, p, long);
    assert Lower(s[p + |short|]) == long[|short|];
  }

  /** A text followed by whitespace strips to the same text. */
  lemma StripPadded(t: string, ws: string)
    requires AllSpace(ws)
    ensures Strip(t + ws) == Strip(t)
  {
    if AllSpace(t) {
      StripSurrounded(t, [], ws);
      assert t + [] + ws == t + ws;
    } else {
      var b, e := StripStart(t), StripEnd(t);
      StripEnds(t, ws);
      Regroup(t, b, e, ws);
      StripSurrounded(t[..b], t[b..e], t[e..] + ws);
    }
  }

  lemma Regroup(t: string, b: nat, e: nat, ws: string)
    requires b <= e <= |t|
    ensures t[..b] + t[b..e] + (t[e..] + ws) == t + ws
  {
    var front := t[..b] + t[b..e];
    assert front == t[..e];
    assert front + (t[e..] + ws) == (front + t[e..]) + ws;
    assert front + t[e..] == t;
  }

  /** The whitespace that str.strip() removes from either end. */
  lemma {:induction false} StripEnds(t: string, ws: string)
    requires AllSpace(ws) && !AllSpace(t)
    ensures StripStart(t) < StripEnd(t)
    ensures AllSpace(t[..StripStart(t)]) && AllSpace(t[StripEnd(t)..] + ws)
    ensures var m := t[StripStart(t)..StripEnd(t)]; !IsSpace(m[0]) && !IsSpace(m[|m| - 1])
  {
    assert Strip(t) != [];
    LeadingSpace(t);
    TrailingSpace(t, ws);
  }

  lemma {:induction false} LeadingSpace(t: string)
    ensures AllSpace(t[..StripStart(t)])
  {
    var b := StripStart(t);
    forall k | 0 <= k < b ensures IsSpace(t[..b][k]) {
      assert t[..b][k] == t[k];
    }
  }

  lemma {:induction false} TrailingSpace(t: string, ws: string)
    requires AllSpace(ws)
    ensures AllSpace(t[StripEnd(t)..] + ws)
  {
    var e := StripEnd(t);
    var tail := t[e..] + ws;
    forall k | 0 <= k < |tail| ensures IsSpace(tail[k]) {
      if k < |t| - e { assert tail[k] == t[e + k]; } else { assert tail[k] == ws[k - (|t| - e)]; }
    }
  }
}
