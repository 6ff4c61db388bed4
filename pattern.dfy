/** The fixed regular expressions of functions.py, written as patterns over a small
    language of literals, alternations of literals, character-class repetitions,
    optional parts, stars and sequences, with `re.finditer`'s left-to-right scan.

    Matching commits to the greedy choice at every step. For the patterns used here
    that is what Python's backtracking engine finds: every greedy element is followed
    only by elements whose first character cannot be one the element consumed, so
    giving characters back never lets the rest match. */
module Pattern {

  import opened Wrappers
  import opened Text

  /** `\s` or `\d`. */
  datatype CharClass = Space | Digit

  predicate InClass(c: char, cls: CharClass) {
    match cls
    case Space => IsSpace(c)
    case Digit => IsDigit(c)
  }

  datatype Pat =
    | Lit(word: string)                            // a literal
    | OneOf(alts: seq<string>)                     // (?:a|b|...) of literals
    | Rep(cls: CharClass, min: nat, max: Option<nat>) // \s*, \s+, \d+, \d{3}, ...
    | Opt(body: Pat)                               // (?:...)?
    | Star(body: Pat)                              // (?:...)*
    | Cat(parts: seq<Pat>)                         // concatenation

  /** Length of the run of `cls` characters from `i`, at most `max`. */
  function Run(s: string, i: nat, cls: CharClass, max: Option<nat>): (n: nat)
    requires i <= |s|
    ensures i + n <= |s|
    ensures forall k :: i <= k < i + n ==> InClass(s[k], cls)
    ensures max.Some? ==> n <= max.value
    ensures i + n < |s| && (max.None? || n < max.value) ==> !InClass(s[i + n], cls)
    decreases |s| - i
  {
    if i == |s| || !InClass(s[i], cls) || (max.Some? && max.value == 0) then 0
    else 1 + Run(s, i + 1, cls, if max.Some? then Some(max.value - 1) else None)
  }

  /** The first alternative that occurs at `i`. */
  function FirstAlt(s: string, i: nat, alts: seq<string>): (r: Option<nat>)
    requires i <= |s|
    ensures r.Some? ==> i <= r.value <= |s|
  {
    if alts == [] then None
    else if StartsWith(s[i..], alts[0]) then Some(i + |alts[0]|)
    else FirstAlt(s, i, alts[1..])
  }

  /** Where a match of `p` starting at `i` ends, if there is one. */
  function Match(p: Pat, s: string, i: nat): (r: Option<nat>)
    requires i <= |s|
    ensures r.Some? ==> i <= r.value <= |s|
    decreases p, 1, |s| - i
  {
    match p
    case Lit(w) => if StartsWith(s[i..], w) then Some(i + |w|) else None
    case OneOf(alts) => FirstAlt(s, i, alts)
    case Rep(cls, min, max) =>
      var n := Run(s, i, cls, max);
      if n >= min then Some(i + n) else None
    case Opt(q) =>
      (match Match(q, s, i)
       case Some(e) => Some(e)
       case None => Some(i))
    case Star(q) =>
      (match Match(q, s, i)
       case Some(e) => if e > i then Match(p, s, e) else Some(i)
       case None => Some(i))
    case Cat(ps) => MatchParts(ps, 0, s, i)
  }

  /** A match of `ps[k..]` in sequence from `i`. */
  function MatchParts(ps: seq<Pat>, k: nat, s: string, i: nat): (r: Option<nat>)
    requires k <= |ps| && i <= |s|
    ensures r.Some? ==> i <= r.value <= |s|
    decreases Cat(ps), 0, |ps| - k
  {
    if k == |ps| then Some(i)
    else
      match Match(ps[k], s, i)
      case Some(e) => MatchParts(ps, k + 1, s, e)
      case None => None
  }

  /** A pattern that never matches the empty string: it opens with a non-empty literal,
      with alternatives that are all non-empty, or with a repetition of at least one. */
  predicate Solid(p: Pat) {
    match p
    case Lit(w) => w != []
    case OneOf(alts) => forall k :: 0 <= k < |alts| ==> alts[k] != []
    case Rep(_, min, _) => min >= 1
    case Cat(ps) => |ps| > 0 && SolidHead(ps[0])
    case _ => false
  }

  predicate SolidHead(p: Pat) {
    match p
    case Lit(w) => w != []
    case OneOf(alts) => forall k :: 0 <= k < |alts| ==> alts[k] != []
    case Rep(_, min, _) => min >= 1
    case _ => false
  }

  lemma {:induction false} FirstAltNonEmpty(s: string, i: nat, alts: seq<string>)
    requires i <= |s| && forall k :: 0 <= k < |alts| ==> alts[k] != []
    ensures FirstAlt(s, i, alts).Some? ==> FirstAlt(s, i, alts).value > i
  {
    if alts != [] && !StartsWith(s[i..], alts[0]) {
      FirstAltNonEmpty(s, i, alts[1..]);
    }
  }

  /** A solid pattern's matches are never empty, so the scan always moves forward. */
  lemma SolidMatchNonEmpty(p: Pat, s: string, i: nat)
    requires i <= |s| && Solid(p)
    ensures Match(p, s, i).Some? ==> Match(p, s, i).value > i
  {
    match p
    case OneOf(alts) => FirstAltNonEmpty(s, i, alts);
    case Cat(ps) =>
      assert Match(p, s, i) == MatchParts(ps, 0, s, i);
      if ps[0].OneOf? {
        FirstAltNonEmpty(s, i, ps[0].alts);
      }
      if Match(ps[0], s, i).Some? {
        assert Match(ps[0], s, i).value > i;
      }
    case _ =>
  }

  /** `[m.group() for m in re.finditer(p, s[from:])]`, for a solid pattern. */
  function FindAll(p: Pat, s: string, from: nat): seq<string>
    requires from <= |s|
    decreases |s| - from
  {
    if from == |s| then []
    else
      match Match(p, s, from)
      case Some(e) =>
        if e > from then [s[from..e]] + FindAll(p, s, e) else FindAll(p, s, from + 1)
      case None => FindAll(p, s, from + 1)
  }

  /** Every found match of a pattern opening with a literal starts with that literal. */
  lemma {:induction false} FindAllStartsWith(ps: seq<Pat>, s: string, from: nat, m: string)
    requires from <= |s| && |ps| > 0 && ps[0].Lit?
    requires m in FindAll(Cat(ps), s, from)
    ensures StartsWith(m, ps[0].word)
    decreases |s| - from
  {
    if from < |s| {
      match Match(Cat(ps), s, from)
      case Some(e) =>
        if e > from && m == s[from..e] {
          assert Match(Cat(ps), s, from) == MatchParts(ps, 0, s, from);
          assert Match(ps[0], s, from).Some?;
          var w := ps[0].word;
          var e0 := Match(ps[0], s, from).value;
          assert e0 == from + |w| && s[from..][..|w|] == w;
          assert MatchParts(ps, 1, s, e0) == Some(e);
          assert m[..|w|] == s[from..][..|w|];
        } else if e > from {
          FindAllStartsWith(ps, s, e, m);
        } else {
          FindAllStartsWith(ps, s, from + 1, m);
        }
      case None => FindAllStartsWith(ps, s, from + 1, m);
    }
  }

  /** Every found match of a pattern opening with a digit run starts with a digit. */
  lemma {:induction false} FindAllStartsWithDigit(ps: seq<Pat>, s: string, from: nat, m: string)
    requires from <= |s| && |ps| > 0 && ps[0].Rep? && ps[0].cls == Digit && ps[0].min >= 1
    requires m in FindAll(Cat(ps), s, from)
    ensures |m| > 0 && IsDigit(m[0])
    decreases |s| - from
  {
    if from < |s| {
      match Match(Cat(ps), s, from)
      case Some(e) =>
        assert Match(Cat(ps), s, from) == MatchParts(ps, 0, s, from);
        assert Match(ps[0], s, from).Some?;
        assert e > from;
        if m == s[from..e] {
          assert m[0] == s[from];
        } else {
          FindAllStartsWithDigit(ps, s, e, m);
        }
      case None => FindAllStartsWithDigit(ps, s, from + 1, m);
    }
  }

  /** The scan reports only real matches: every found string is a match of `p` at some
      position, taken as a whole. */
  lemma {:induction false} FindAllAreMatches(p: Pat, s: string, from: nat, m: string)
    requires from <= |s| && m in FindAll(p, s, from)
    ensures exists i ::
      (from <= i < |s| && Match(p, s, i).Some? && Match(p, s, i).value > i
       && m == s[i..Match(p, s, i).value])
    decreases |s| - from
  {
    if from < |s| {
      match Match(p, s, from)
      case Some(e) =>
        if e > from && m == s[from..e] {
        } else if e > from {
          FindAllAreMatches(p, s, e, m);
        } else {
          FindAllAreMatches(p, s, from + 1, m);
        }
      case None => FindAllAreMatches(p, s, from + 1, m);
    }
  }

  /** The matches of the first `n` patterns, pattern by pattern and left to right. */
  function Scan(pats: seq<Pat>, s: string, n: nat): seq<string>
    requires n <= |pats|
  {
    if n == 0 then [] else Scan(pats, s, n - 1) + FindAll(pats[n - 1], s, 0)
  }
}
