/** `extract_topics` (functions.py): eighteen fixed patterns scanned over the
    lower-cased text; every match, re-spaced and capitalised word by word, goes into a
    set, which is returned sorted. */
module Topics {

  import opened Wrappers
  import opened Text
  import opened Seqs
  import opened Pattern
  import opened Words

  /** `\s+`. */
  const Gap: Pat := Rep(Space, 1, None)

  /** An optional plural `s`. */
  const Plural: Pat := Opt(Lit("s"))

  const TopicPatterns: seq<Pat> := [
    Cat([OneOf(["deep", "machine", "reinforcement", "supervised", "unsupervised"]), Gap, Lit("learning")]),
    Cat([Lit("neural"), Gap, Lit("network"), Plural]),
    Cat([Lit("computer"), Gap, Lit("vision")]),
    Cat([Lit("natural"), Gap, Lit("language"), Gap, Lit("processing")]),
    Lit("nlp"),
    Cat([Lit("artificial"), Gap, Lit("intelligence")]),
    Lit("ai"),
    Cat([Lit("robotic"), Plural]),
    Cat([Lit("data"), Gap, Lit("science")]),
    Cat([Lit("big"), Gap, Lit("data")]),
    Cat([Lit("cloud"), Gap, Lit("computing")]),
    Cat([Lit("edge"), Gap, Lit("ai")]),
    Cat([Lit("generative"), Gap, Lit("ai")]),
    Cat([Lit("large"), Gap, Lit("language"), Gap, Lit("model"), Plural]),
    Cat([Lit("llm"), Plural]),
    Cat([Lit("transformer"), Plural]),
    Lit("automation"),
    Cat([Lit("autonomous"), Gap, Lit("system"), Plural])
  ]

  /** `word.capitalize()`: the first character upper-cased, the rest lower-cased. */
  function Capitalize(w: string): (r: string)
    ensures |r| == |w|
  {
    if w == [] then [] else [ToUpperChar(w[0])] + Lower(w[1..])
  }

  function CapitalizeAll(ws: seq<string>): (r: seq<string>)
    ensures |r| == |ws| && forall k :: 0 <= k < |ws| ==> r[k] == Capitalize(ws[k])
  {
    seq(|ws|, k requires 0 <= k < |ws| => Capitalize(ws[k]))
  }

  /** `' '.join(word.capitalize() for word in m.split())`. */
  function Topic(m: string): string {
    Join(" ", CapitalizeAll(Split(m)))
  }

  /** The topics of a list of matches. */
  function TopicsOf(ms: seq<string>): set<string> {
    set m | m in ms :: Topic(m)
  }

  /** The topics `extract_topics` collects from `text`. */
  function TopicSet(text: string): set<string> {
    TopicsOf(Scan(TopicPatterns, Lower(text), |TopicPatterns|))
  }

  lemma TopicsOfAppend(a: seq<string>, b: seq<string>)
    ensures TopicsOf(a + b) == TopicsOf(a) + TopicsOf(b)
  {
  }

  /** Python's `<` on strings: code point by code point, a proper prefix first. */
  predicate Less(a: string, b: string) {
    b != [] && (a == [] || a[0] < b[0] || (a[0] == b[0] && Less(a[1..], b[1..])))
  }

  lemma {:induction false} LessIrreflexive(a: string)
    ensures !Less(a, a)
  {
    if a != [] {
      LessIrreflexive(a[1..]);
    }
  }

  lemma {:induction false} LessTransitive(a: string, b: string, c: string)
    requires Less(a, b) && Less(b, c)
    ensures Less(a, c)
  {
    if a != [] && a[0] == b[0] && b[0] == c[0] {
      LessTransitive(a[1..], b[1..], c[1..]);
    }
  }

  lemma {:induction false} LessTotal(a: string, b: string)
    requires a != b
    ensures Less(a, b) || Less(b, a)
  {
    if a != [] && b != [] && a[0] == b[0] {
      assert a == [a[0]] + a[1..] && b == [b[0]] + b[1..];
      LessTotal(a[1..], b[1..]);
    }
  }

  /** In strictly increasing order, hence without duplicates. */
  predicate StrictlySorted(r: seq<string>) {
    forall i, j :: 0 <= i < j < |r| ==> Less(r[i], r[j])
  }

  /** `x` is the least element of `s`. */
  predicate IsLeast(x: string, s: set<string>) {
    x in s && forall y :: y in s && y != x ==> Less(x, y)
  }

  /** A finite set of strings has a least element. */
  lemma {:induction false} LeastExists(s: set<string>) returns (x: string)
    requires s != {}
    ensures IsLeast(x, s)
    decreases |s|
  {
    var z :| z in s;
    var others := s - {z};
    if others == {} {
      assert s == {z};
      return z;
    }
    var m := LeastExists(others);
    LessTotal(z, m);
    if Less(z, m) {
      forall y | y in others && y != m
        ensures Less(z, y)
      {
        LessTransitive(z, m, y);
      }
      return z;
    }
    return m;
  }

  /** `sorted(list(s))`: the least remaining element is appended until none is left. */
  method SortedList(s: set<string>) returns (r: seq<string>)
    ensures StrictlySorted(r) && Elems(r) == s
  {
    r := [];
    var rest := s;
    while rest != {}
      invariant Elems(r) + rest == s && Elems(r) !! rest
      invariant StrictlySorted(r)
      invariant forall i, y :: 0 <= i < |r| && y in rest ==> Less(r[i], y)
      decreases |rest|
    {
      ghost var least := LeastExists(rest);
      var x :| IsLeast(x, rest);
      AppendLeast(r, rest, x);
      r := r + [x];
      rest := rest - {x};
    }
  }

  /** One step of the selection keeps the loop's invariant. */
  lemma AppendLeast(r: seq<string>, rest: set<string>, x: string)
    requires StrictlySorted(r) && Elems(r) !! rest && IsLeast(x, rest)
    requires forall i, y :: 0 <= i < |r| && y in rest ==> Less(r[i], y)
    ensures StrictlySorted(r + [x]) && Elems(r + [x]) == Elems(r) + {x}
    ensures Elems(r + [x]) !! (rest - {x})
    ensures forall i, y :: 0 <= i < |r + [x]| && y in rest - {x} ==> Less((r + [x])[i], y)
  {
    ElemsSnoc(r, x);
  }

  /** A set has exactly one strictly sorted listing, so the result is `sorted(s)`
      whatever the order the set is visited in. */
  lemma {:induction false} SortedUnique(a: seq<string>, b: seq<string>)
    requires StrictlySorted(a) && StrictlySorted(b) && Elems(a) == Elems(b)
    ensures a == b
    decreases |a|
  {
    assert a != [] ==> a[0] in Elems(a);
    assert b != [] ==> b[0] in Elems(b);
    if a != [] && b != [] {
      assert a[0] in Elems(b) && b[0] in Elems(a);
      if a[0] != b[0] {
        var i :| 0 <= i < |b| && b[i] == a[0];
        var j :| 0 <= j < |a| && a[j] == b[0];
        assert Less(a[0], a[j]) && Less(b[0], b[i]);
        LessTransitive(a[0], b[0], a[0]);
        LessIrreflexive(a[0]);
      } else {
        assert a == [a[0]] + a[1..] && b == [b[0]] + b[1..];
        forall x | x in Elems(a[1..])
          ensures x in Elems(b[1..])
        {
          var i :| 1 <= i < |a| && a[i] == x;
          assert Less(a[0], x);
          LessIrreflexive(x);
          assert x in Elems(b);
          var j :| 0 <= j < |b| && b[j] == x;
        }
        forall x | x in Elems(b[1..])
          ensures x in Elems(a[1..])
        {
          var j :| 1 <= j < |b| && b[j] == x;
          assert Less(b[0], x);
          LessIrreflexive(x);
          assert x in Elems(a);
          var i :| 0 <= i < |a| && a[i] == x;
        }
        SortedUnique(a[1..], b[1..]);
      }
    }
  }

  /** The loop over one pattern's matches. */
  method AddTopics(found0: set<string>, matches: seq<string>) returns (found: set<string>)
    ensures found == found0 + TopicsOf(matches)
  {
    found := found0;
    for j := 0 to |matches|
      invariant found == found0 + TopicsOf(matches[..j])
    {
      TopicsOfAppend(matches[..j], [matches[j]]);
      assert matches[..j + 1] == matches[..j] + [matches[j]];
      found := found + {Topic(matches[j])};
    }
    assert matches[..|matches|] == matches;
  }

  /** `extract_topics(text)`. */
  method ExtractTopics(text: string) returns (topics: seq<string>)
    ensures StrictlySorted(topics) && Elems(topics) == TopicSet(text)
  {
    var lowered := Lower(text);
    var found: set<string> := {};
    for n := 0 to |TopicPatterns|
      invariant found == TopicsOf(Scan(TopicPatterns, lowered, n))
    {
      var matches := FindAll(TopicPatterns[n], lowered, 0);
      TopicsOfAppend(Scan(TopicPatterns, lowered, n), matches);
      found := AddTopics(found, matches);
    }
    topics := SortedList(found);
  }

  /** Every topic is the normalised form of a real match of one of the patterns in the
      lower-cased text. */
  lemma TopicsComeFromMatches(text: string, t: string)
    requires t in TopicSet(text)
    ensures exists n, i :: (0 <= n < |TopicPatterns| && 0 <= i < |Lower(text)|
      && Match(TopicPatterns[n], Lower(text), i).Some?
      && Match(TopicPatterns[n], Lower(text), i).value > i
      && t == Topic(Lower(text)[i..Match(TopicPatterns[n], Lower(text), i).value]))
  {
    var s := Lower(text);
    var m :| m in Scan(TopicPatterns, s, |TopicPatterns|) && t == Topic(m);
    var n := ScanSource(TopicPatterns, s, |TopicPatterns|, m);
    FindAllAreMatches(TopicPatterns[n], s, 0, m);
  }

  /** The pattern a scanned match came from. */
  lemma {:induction false} ScanSource(pats: seq<Pat>, s: string, k: nat, m: string) returns (n: nat)
    requires k <= |pats| && m in Scan(pats, s, k)
    ensures n < k && m in FindAll(pats[n], s, 0)
  {
    if m in FindAll(pats[k - 1], s, 0) {
      n := k - 1;
    } else {
      n := ScanSource(pats, s, k - 1, m);
    }
  }

  lemma {:induction false} LowerTwice(s: string)
    ensures Lower(Lower(s)) == Lower(s)
  {
    if s != [] {
      LowerTwice(s[1..]);
    }
  }

  /** Capitalising keeps words words and is idempotent. */
  lemma CapitalizeSpec(w: string)
    ensures IsWord(w) ==> IsWord(Capitalize(w))
    ensures Capitalize(Capitalize(w)) == Capitalize(w)
  {
    if w != [] {
      LowerAt(w[1..]);
      LowerTwice(w[1..]);
      assert Capitalize(w)[1..] == Lower(w[1..]);
    }
  }

  /** A topic is already in normal form: re-spacing and re-capitalising it changes
      nothing. */
  lemma TopicIdempotent(m: string)
    ensures Topic(Topic(m)) == Topic(m)
  {
    var ws := Split(m);
    SplitSpec(m, (c: char) => true);
    var caps := CapitalizeAll(ws);
    forall k | 0 <= k < |caps|
      ensures IsWord(caps[k]) && Capitalize(caps[k]) == caps[k]
    {
      CapitalizeSpec(ws[k]);
    }
    SplitOfJoin(caps);
    assert CapitalizeAll(caps) == caps;
  }
}
