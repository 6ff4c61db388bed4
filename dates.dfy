/** `standardize_date` (functions.py): month abbreviations are expanded, then
    `d.m.2025` and `d/m/2025` dates get `-` separators. */
module Dates {

  import opened Wrappers
  import opened Text
  import opened Pattern

  /** `month_map`, in its insertion order. */
  const MonthMap: seq<(string, string)> := [
    ("jan", "January"), ("feb", "February"), ("mar", "March"), ("apr", "April"),
    ("may", "May"), ("jun", "June"), ("jul", "July"), ("aug", "August"),
    ("sep", "September"), ("oct", "October"), ("nov", "November"), ("dec", "December")
  ]

  /** The index of the first occurrence of `sub` in `s`: what `s.split(sub)[0]` ends at. */
  function IndexOf(s: string, sub: string): (r: Option<nat>)
    ensures r.Some? <==> Contains(s, sub)
    ensures r.Some? ==> r.value <= |s| && StartsWith(s[r.value..], sub)
    ensures r.Some? ==> forall j :: 0 <= j < r.value ==> !StartsWith(s[j..], sub)
  {
    if StartsWith(s, sub) then Some(0)
    else if s == [] then None
    else match IndexOf(s[1..], sub)
      case Some(k) =>
        assert forall j :: 1 <= j <= k + 1 ==> s[j..] == s[1..][j - 1..];
        Some(k + 1)
      case None => None
  }

  /** `s.replace(target, repl)`: every occurrence, left to right, without overlaps. */
  function ReplaceAll(s: string, target: string, repl: string): string
    requires target != []
    decreases |s|
  {
    if s == [] then []
    else if StartsWith(s, target) then repl + ReplaceAll(s[|target|..], target, repl)
    else [s[0]] + ReplaceAll(s[1..], target, repl)
  }

  /** A string without `target` is left alone by `replace`. */
  lemma {:induction false} ReplaceAllAbsent(s: string, target: string, repl: string)
    requires target != [] && !Contains(s, target)
    ensures ReplaceAll(s, target, repl) == s
  {
    if s != [] {
      ReplaceAllAbsent(s[1..], target, repl);
    }
  }

  /** One iteration of the month loop as written: when the abbreviation occurs in the
      lower-cased original, everything of that original up to and including its first
      occurrence is replaced, wherever it occurs in the current string. */
  function ExpandAsWritten(date: string, lowered: string, abbr: string, full: string): string
    requires abbr != []
  {
    match IndexOf(lowered, abbr)
    case Some(k) => ReplaceAll(date, lowered[..k] + abbr, full)
    case None => date
  }

  /** The string after the first `n` iterations of the month loop. */
  function MonthsAsWritten(date: string, lowered: string, n: nat): string
    requires n <= |MonthMap|
  {
    if n == 0 then date
    else ExpandAsWritten(MonthsAsWritten(date, lowered, n - 1), lowered, MonthMap[n - 1].0, MonthMap[n - 1].1)
  }

  /** `(\d+)[./](\d+)[./](2025)`. */
  const DatePattern: Pat :=
    Cat([Rep(Digit, 1, None), OneOf([".", "/"]), Rep(Digit, 1, None), OneOf([".", "/"]), Lit("2025")])

  predicate IsSeparator(c: char) {
    c == '.' || c == '/'
  }

  /** `\1-\2-\3` for a match: the groups hold only digits, so this is the match with its
      two separators turned into `-`. */
  function Hyphenate(m: string): (r: string)
    ensures |r| == |m|
    ensures forall k :: 0 <= k < |m| ==> r[k] == if IsSeparator(m[k]) then '-' else m[k]
  {
    seq(|m|, k requires 0 <= k < |m| => if IsSeparator(m[k]) then '-' else m[k])
  }

  /** `re.sub(r'(\d+)[./](\d+)[./](2025)', r'\1-\2-\3', s[i:])`. */
  function SubSeparators(s: string, i: nat): string
    requires i <= |s|
    decreases |s| - i
  {
    if i == |s| then []
    else match Match(DatePattern, s, i)
      case Some(e) =>
        if e > i then Hyphenate(s[i..e]) + SubSeparators(s, e) else [s[i]] + SubSeparators(s, i + 1)
      case None => [s[i]] + SubSeparators(s, i + 1)
  }

  /** The substitution keeps the length and changes nothing but separators, each into
      a `-`. */
  lemma {:induction false} SubSeparatorsSpec(s: string, i: nat)
    requires i <= |s|
    ensures |SubSeparators(s, i)| == |s| - i
    ensures forall k :: 0 <= k < |s| - i ==>
      SubSeparators(s, i)[k] == s[i + k] || (IsSeparator(s[i + k]) && SubSeparators(s, i)[k] == '-')
    decreases |s| - i
  {
    if i < |s| {
      var out := SubSeparators(s, i);
      match Match(DatePattern, s, i)
      case Some(e) =>
        if e > i {
          SubSeparatorsSpec(s, e);
          var h := Hyphenate(s[i..e]);
          assert forall k :: 0 <= k < e - i ==> out[k] == h[k];
          assert forall k :: e - i <= k < |s| - i ==> out[k] == SubSeparators(s, e)[k - (e - i)];
        } else {
          SubSeparatorsSpec(s, i + 1);
          assert forall k :: 1 <= k < |s| - i ==> out[k] == SubSeparators(s, i + 1)[k - 1];
        }
      case None =>
        SubSeparatorsSpec(s, i + 1);
        assert forall k :: 1 <= k < |s| - i ==> out[k] == SubSeparators(s, i + 1)[k - 1];
    }
  }

  predicate AllDigits(g: string) {
    forall k :: 0 <= k < |g| ==> IsDigit(g[k])
  }

  /** A run of `n` digits from `i`, ended by the end of `s` or a non-digit, is what `\d+`
      consumes. */
  lemma DigitRun(s: string, i: nat, n: nat)
    requires i + n <= |s| && forall k :: i <= k < i + n ==> IsDigit(s[k])
    requires i + n == |s| || !IsDigit(s[i + n])
    ensures Run(s, i, Digit, None) == n
  {
  }

  /** `\d+` at `i` consumes a run of `n >= 1` digits ended by a non-digit or the end. */
  lemma DigitsPart(s: string, i: nat, n: nat)
    requires 1 <= n && i + n <= |s| && forall k :: i <= k < i + n ==> IsDigit(s[k])
    requires i + n == |s| || !IsDigit(s[i + n])
    ensures Match(DatePattern.parts[0], s, i) == Some(i + n)
    ensures Match(DatePattern.parts[2], s, i) == Some(i + n)
  {
    DigitRun(s, i, n);
  }

  /** `[./]` at `i` consumes one separator. */
  lemma SeparatorPart(s: string, i: nat)
    requires i < |s| && IsSeparator(s[i])
    ensures Match(DatePattern.parts[1], s, i) == Some(i + 1)
    ensures Match(DatePattern.parts[3], s, i) == Some(i + 1)
  {
    var alts := DatePattern.parts[1].alts;
    assert alts == [".", "/"];
    assert s[i..][..1] == [s[i]];
    if s[i] == '/' {
      assert !StartsWith(s[i..], alts[0]) && StartsWith(s[i..], alts[1]);
      assert FirstAlt(s, i, alts) == FirstAlt(s, i, alts[1..]);
    }
  }

  /** A date `d.m.2025` or `d/m/2025` matches the date pattern as a whole. */
  lemma DateMatches(g1: string, c1: char, g2: string, c2: char)
    requires g1 != [] && g2 != [] && AllDigits(g1) && AllDigits(g2)
    requires IsSeparator(c1) && IsSeparator(c2)
    ensures var s := g1 + [c1] + g2 + [c2] + "2025";
      Match(DatePattern, s, 0) == Some(|s|)
  {
    var s := g1 + [c1] + g2 + [c2] + "2025";
    var a := |g1| + 1;
    assert forall k :: 0 <= k < |g1| ==> s[k] == g1[k];
    assert forall k :: a <= k < a + |g2| ==> s[k] == g2[k - a];
    assert s[|g1|] == c1 && s[a + |g2|] == c2;
    assert s[a + |g2| + 1..] == "2025";
    DateMatchesAt(s, |g1|, |g2|);
  }

  /** The date pattern matches a whole string laid out as digits, a separator,
      digits, a separator and `2025`. */
  lemma DateMatchesAt(s: string, n1: nat, n2: nat)
    requires 1 <= n1 && 1 <= n2 && |s| == n1 + n2 + 6
    requires forall k :: 0 <= k < n1 ==> IsDigit(s[k])
    requires forall k :: n1 + 1 <= k < n1 + 1 + n2 ==> IsDigit(s[k])
    requires IsSeparator(s[n1]) && IsSeparator(s[n1 + 1 + n2])
    requires s[n1 + n2 + 2..] == "2025"
    ensures Match(DatePattern, s, 0) == Some(|s|)
  {
    DigitsPart(s, 0, n1);
    PartStep(DatePattern.parts, 0, s, 0, n1);
    MonthAndYearMatch(s, n1, n2);
    WholePattern(s);
  }

  /** From the first separator on, the rest of the date pattern matches the rest. */
  lemma MonthAndYearMatch(s: string, n1: nat, n2: nat)
    requires 1 <= n2 && |s| == n1 + n2 + 6
    requires forall k :: n1 + 1 <= k < n1 + 1 + n2 ==> IsDigit(s[k])
    requires IsSeparator(s[n1]) && IsSeparator(s[n1 + 1 + n2])
    requires s[n1 + n2 + 2..] == "2025"
    ensures MatchParts(DatePattern.parts, 1, s, n1) == Some(|s|)
  {
    var ps := DatePattern.parts;
    var a := n1 + 1;
    SeparatorPart(s, n1);
    PartStep(ps, 1, s, n1, a);
    DigitsPart(s, a, n2);
    PartStep(ps, 2, s, a, a + n2);
    YearMatch(s, a + n2);
  }

  /** From the second separator on, the rest of the date pattern matches the rest. */
  lemma YearMatch(s: string, p: nat)
    requires p < |s| && IsSeparator(s[p]) && s[p + 1..] == "2025"
    ensures MatchParts(DatePattern.parts, 3, s, p) == Some(|s|)
  {
    var ps := DatePattern.parts;
    SeparatorPart(s, p);
    PartStep(ps, 3, s, p, p + 1);
    YearPart(s, p + 1);
    PartStep(ps, 4, s, p + 1, |s|);
  }

  /** `2025` at `i` consumes the rest of `s` when that rest is `2025`. */
  lemma YearPart(s: string, i: nat)
    requires i <= |s| && s[i..] == "2025"
    ensures Match(DatePattern.parts[4], s, i) == Some(|s|)
    ensures MatchParts(DatePattern.parts, 5, s, |s|) == Some(|s|)
  {
    assert s[i..][..4] == "2025";
  }

  /** The date pattern matches as its parts do in sequence. */
  lemma WholePattern(s: string)
    ensures Match(DatePattern, s, 0) == MatchParts(DatePattern.parts, 0, s, 0)
  {
  }

  /** A sequence match goes on from where its part `k` ends. */
  lemma PartStep(ps: seq<Pat>, k: nat, s: string, i: nat, e: nat)
    requires k < |ps| && i <= e <= |s| && Match(ps[k], s, i) == Some(e)
    ensures MatchParts(ps, k, s, i) == MatchParts(ps, k + 1, s, e)
  {
  }

  /** `\1-\2-\3` of a date match: the two digit groups and the year, joined by `-`. */
  lemma HyphenateDate(g1: string, c1: char, g2: string, c2: char)
    requires AllDigits(g1) && AllDigits(g2) && IsSeparator(c1) && IsSeparator(c2)
    ensures Hyphenate(g1 + [c1] + g2 + [c2] + "2025") == g1 + "-" + g2 + "-2025"
  {
    var s := g1 + [c1] + g2 + [c2] + "2025";
    var t := g1 + "-" + g2 + "-2025";
    var h := Hyphenate(s);
    assert |h| == |t|;
    forall k | 0 <= k < |s|
      ensures h[k] == t[k]
    {
      if k < |g1| {
        assert s[k] == g1[k] && t[k] == g1[k];
      } else if k == |g1| {
        assert s[k] == c1 && t[k] == '-';
      } else if k < |g1| + 1 + |g2| {
        assert s[k] == g2[k - |g1| - 1] && t[k] == g2[k - |g1| - 1];
      } else if k == |g1| + 1 + |g2| {
        assert s[k] == c2 && t[k] == '-';
      } else {
        assert s[k] == t[k];
      }
    }
  }

  /** The separator substitution rewrites `d.m.2025` and `d/m/2025` into `d-m-2025`. */
  lemma DateRewritten(g1: string, c1: char, g2: string, c2: char)
    requires g1 != [] && g2 != [] && AllDigits(g1) && AllDigits(g2)
    requires IsSeparator(c1) && IsSeparator(c2)
    ensures SubSeparators(g1 + [c1] + g2 + [c2] + "2025", 0) == g1 + "-" + g2 + "-2025"
  {
    var s := g1 + [c1] + g2 + [c2] + "2025";
    DateMatches(g1, c1, g2, c2);
    HyphenateDate(g1, c1, g2, c2);
    assert s[0..|s|] == s;
    assert SubSeparators(s, |s|) == [];
  }

  /** `standardize_date(date_str)`. */
  method StandardizeDate(date: string) returns (r: string)
    ensures r == SubSeparators(MonthsAsWritten(date, Lower(date), |MonthMap|), 0)
  {
    var lowered := Lower(date);
    r := date;
    for n := 0 to |MonthMap|
      invariant r == MonthsAsWritten(date, lowered, n)
    {
      var (abbr, full) := MonthMap[n];
      if Contains(lowered, abbr) {
        var k := IndexOf(lowered, abbr).value;
        r := ReplaceAll(r, lowered[..k] + abbr, full);
      }
    }
    r := SubSeparators(r, 0);
  }

  /** One step of the loop as written loses the text before the abbreviation, `"1 mar"`
      becoming `"March"`, and expands an already full name, `"march"` becoming
      `"Marchch"`. */
  lemma ExpandAsWrittenMangles()
    ensures ExpandAsWritten("1 mar", "1 mar", "mar", "March") == "March"
    ensures ExpandAsWritten("march", "march", "mar", "March") == "Marchch"
  {
    ExpandAsWrittenDropsDay();
    ExpandAsWrittenRepeatsSuffix();
  }

  lemma ExpandAsWrittenDropsDay()
    ensures ExpandAsWritten("1 mar", "1 mar", "mar", "March") == "March"
  {
    var s := "1 mar";
    IndexOfDay();
    assert s[..2] + "mar" == s;
    assert ReplaceAll(s, s, "March") == "March" + ReplaceAll([], s, "March");
  }

  lemma IndexOfDay()
    ensures IndexOf("1 mar", "mar") == Some(2)
  {
    var s := "1 mar";
    assert s[..3][0] == '1' && s[1..][..3][0] == ' ';
    assert !StartsWith(s, "mar") && !StartsWith(s[1..], "mar") && StartsWith(s[2..], "mar");
    assert IndexOf(s[2..], "mar") == Some(0);
    assert IndexOf(s[1..], "mar") == Some(1);
  }

  lemma ExpandAsWrittenRepeatsSuffix()
    ensures ExpandAsWritten("march", "march", "mar", "March") == "Marchch"
  {
    var s := "march";
    assert StartsWith(s, "mar");
    assert IndexOf(s, "mar") == Some(0);
    assert s[..0] + "mar" == "mar";
    assert s[3..] == "ch";
    assert !StartsWith("ch", "mar") && !StartsWith("h", "mar") && !StartsWith("", "mar");
    assert !Contains("ch", "mar");
    ReplaceAllAbsent("ch", "mar", "March");
    assert ReplaceAll(s, "mar", "March") == "March" + "ch";
  }

  /** The full name of a month abbreviation, if `w` is one in any case. */
  function FullMonth(w: string): Option<string> {
    FullMonthFrom(Lower(w), 0)
  }

  function FullMonthFrom(lw: string, n: nat): (r: Option<string>)
    requires n <= |MonthMap|
    ensures r.Some? ==> exists k :: n <= k < |MonthMap| && lw == MonthMap[k].0 && r.value == MonthMap[k].1
    decreases |MonthMap| - n
  {
    if n == |MonthMap| then None
    else if lw == MonthMap[n].0 then Some(MonthMap[n].1)
    else FullMonthFrom(lw, n + 1)
  }

  /** The end of the run of letters starting at `i`. */
  function LetterEnd(s: string, i: nat): (r: nat)
    requires i <= |s|
    ensures i <= r <= |s| && (forall k :: i <= k < r ==> IsAsciiLetter(s[k]))
    ensures r < |s| ==> !IsAsciiLetter(s[r])
    decreases |s| - i
  {
    if i == |s| || !IsAsciiLetter(s[i]) then i else LetterEnd(s, i + 1)
  }

  /** A word of letters: its full month name if it is an abbreviation, else itself. */
  function ExpandWord(w: string): string {
    match FullMonth(w)
    case Some(full) => full
    case None => w
  }

  /** The month expansion the comment "Replace abbreviated months" describes: every
      whole word that is a month abbreviation, in any case, becomes the full name, and
      everything else is kept. */
  function ExpandMonths(s: string, i: nat): string
    requires i <= |s|
    decreases |s| - i
  {
    if i == |s| then []
    else if IsAsciiLetter(s[i]) then
      var e := LetterEnd(s, i);
      ExpandWord(s[i..e]) + ExpandMonths(s, e)
    else [s[i]] + ExpandMonths(s, i + 1)
  }

  /** The characters of `s` that are not letters, in order. */
  function NonLetters(s: string): string {
    if s == [] then []
    else (if IsAsciiLetter(s[0]) then [] else [s[0]]) + NonLetters(s[1..])
  }

  lemma {:induction false} NonLettersAppend(a: string, b: string)
    ensures NonLetters(a + b) == NonLetters(a) + NonLetters(b)
  {
    if a != [] {
      assert (a + b)[1..] == a[1..] + b;
      NonLettersAppend(a[1..], b);
    } else {
      assert a + b == b;
    }
  }

  lemma {:induction false} NonLettersOfWord(w: string)
    requires forall k :: 0 <= k < |w| ==> IsAsciiLetter(w[k])
    ensures NonLetters(w) == []
  {
    if w != [] {
      NonLettersOfWord(w[1..]);
    }
  }

  /** Every full month name is a word of letters. */
  lemma FullNamesAreWords(n: nat)
    requires n < |MonthMap|
    ensures forall k :: 0 <= k < |MonthMap[n].1| ==> IsAsciiLetter(MonthMap[n].1[k])
  {
  }

  /** The corrected expansion keeps every character that is not a letter: digits,
      spaces and punctuation survive in order. */
  lemma {:induction false} ExpandMonthsKeepsOtherText(s: string, i: nat)
    requires i <= |s|
    ensures NonLetters(ExpandMonths(s, i)) == NonLetters(s[i..])
    decreases |s| - i
  {
    if i < |s| {
      if IsAsciiLetter(s[i]) {
        ExpandMonthsKeepsOtherText(s, LetterEnd(s, i));
        ExpandWordStep(s, i);
      } else {
        ExpandMonthsKeepsOtherText(s, i + 1);
        ExpandOtherStep(s, i);
      }
    }
  }

  /** A word of letters and its replacement both contribute nothing. */
  lemma ExpandWordStep(s: string, i: nat)
    requires i < |s| && IsAsciiLetter(s[i])
    requires NonLetters(ExpandMonths(s, LetterEnd(s, i))) == NonLetters(s[LetterEnd(s, i)..])
    ensures NonLetters(ExpandMonths(s, i)) == NonLetters(s[i..])
  {
    var e := LetterEnd(s, i);
    var w := s[i..e];
    LettersOfRun(s, i);
    ExpandedWordLetters(w);
    NonLettersOfWord(w);
    NonLettersAppend(ExpandWord(w), ExpandMonths(s, e));
    assert s[i..] == w + s[e..];
    NonLettersAppend(w, s[e..]);
  }

  /** Any other character is copied. */
  lemma ExpandOtherStep(s: string, i: nat)
    requires i < |s| && !IsAsciiLetter(s[i])
    requires NonLetters(ExpandMonths(s, i + 1)) == NonLetters(s[i + 1..])
    ensures NonLetters(ExpandMonths(s, i)) == NonLetters(s[i..])
  {
    assert ExpandMonths(s, i) == [s[i]] + ExpandMonths(s, i + 1);
    assert s[i..] == [s[i]] + s[i + 1..];
    NonLettersAppend([s[i]], ExpandMonths(s, i + 1));
    NonLettersAppend([s[i]], s[i + 1..]);
  }

  /** The run of letters from `i` is made of letters. */
  lemma LettersOfRun(s: string, i: nat)
    requires i <= |s|
    ensures var w := s[i..LetterEnd(s, i)]; forall k :: 0 <= k < |w| ==> IsAsciiLetter(w[k])
  {
    var w := s[i..LetterEnd(s, i)];
    assert forall k :: 0 <= k < |w| ==> w[k] == s[i + k];
  }

  /** What replaces a word of letters has no other character. */
  lemma ExpandedWordLetters(w: string)
    requires forall k :: 0 <= k < |w| ==> IsAsciiLetter(w[k])
    ensures NonLetters(ExpandWord(w)) == []
  {
    if FullMonth(w).Some? {
      var k :| 0 <= k < |MonthMap| && Lower(w) == MonthMap[k].0 && FullMonth(w).value == MonthMap[k].1;
      FullNamesAreWords(k);
      NonLettersOfWord(MonthMap[k].1);
    } else {
      NonLettersOfWord(w);
    }
  }

  /** The corrected expansion keeps the day of `"1 mar"`. */
  lemma ExpandMonthsKeepsDay()
    ensures ExpandMonths("1 mar", 0) == "1 March"
  {
    var a := "1 mar";
    assert LetterEnd(a, 2) == 5;
    assert a[2..5] == "mar";
    assert Lower("mar") == "mar";
    assert FullMonthFrom("mar", 2) == Some("March");
    assert FullMonth("mar") == Some("March");
    assert ExpandMonths(a, 5) == [];
    assert ExpandMonths(a, 2) == "March";
  }

  /** The corrected expansion leaves a full month name alone. */
  lemma ExpandMonthsKeepsFullName()
    ensures ExpandMonths("march", 0) == "march"
  {
    var b := "march";
    assert LetterEnd(b, 0) == 5;
    assert b[0..5] == b;
    LowerAt(b);
    assert Lower(b) == b;
    assert FullMonth(b) == None;
  }

  /** `standardize_date` with the corrected month expansion. */
  function StandardizeDateCorrected(date: string): string {
    SubSeparators(ExpandMonths(date, 0), 0)
  }
}
