/** Python's `str.split()` with no separator (runs of whitespace split, leading and
    trailing whitespace dropped) and `sep.join(parts)`. */
module Words {

  import opened Text

  /** A maximal run of non-whitespace characters, as `split()` yields it. */
  predicate IsWord(w: string) {
    w != [] && forall k :: 0 <= k < |w| ==> !IsSpace(w[k])
  }

  /** The end of the word starting at `i`. */
  function WordEnd(t: string, i: nat): (r: nat)
    requires i <= |t|
    ensures i <= r <= |t|
    ensures forall k :: i <= k < r ==> !IsSpace(t[k])
    ensures r == |t| || IsSpace(t[r])
    decreases |t| - i
  {
    if i == |t| || IsSpace(t[i]) then i else WordEnd(t, i + 1)
  }

  /** `s.split()`. */
  function Split(s: string): seq<string>
    decreases |s|
  {
    TrimStartSpec(s);
    var t := TrimStart(s);
    if t == [] then []
    else
      var n := WordEnd(t, 0);
      [t[..n]] + Split(t[n..])
  }

  /** `sep.join(parts)`. */
  function Join(sep: string, parts: seq<string>): string {
    if parts == [] then ""
    else if |parts| == 1 then parts[0]
    else parts[0] + sep + Join(sep, parts[1..])
  }

  /** Every piece of `split()` is a word, and a property every character of the input
      has holds of every character of every word. */
  lemma {:induction false} SplitSpec(s: string, P: char -> bool)
    requires forall i :: 0 <= i < |s| ==> P(s[i])
    ensures forall k :: 0 <= k < |Split(s)| ==> IsWord(Split(s)[k])
    ensures forall k, i :: 0 <= k < |Split(s)| && 0 <= i < |Split(s)[k]| ==> P(Split(s)[k][i])
    decreases |s|
  {
    TrimStartSpec(s);
    var t := TrimStart(s);
    if t != [] {
      var n := WordEnd(t, 0);
      assert forall i :: 0 <= i < |t| ==> t[i] == s[|s| - |t| + i];
      SplitSpec(t[n..], P);
      assert Split(s) == [t[..n]] + Split(t[n..]);
    }
  }

  /** Leading whitespace does not change the split. */
  lemma SplitSkipsSpace(c: char, x: string)
    requires IsSpace(c)
    ensures Split([c] + x) == Split(x)
  {
    assert ([c] + x)[1..] == x;
    assert TrimStart([c] + x) == TrimStart(x);
  }

  /** A word and a space open the split. */
  lemma SplitWordThenSpace(w: string, rest: string)
    requires IsWord(w)
    ensures Split(w + [' '] + rest) == [w] + Split(rest)
  {
    assert w + [' '] + rest == w + ([' '] + rest);
    SplitFirstWord(w, [' '] + rest);
    SplitSkipsSpace(' ', rest);
  }

  /** A single word splits into itself. */
  lemma SplitOneWord(w: string)
    requires IsWord(w)
    ensures Split(w) == [w]
  {
    assert w + [] == w;
    SplitFirstWord(w, []);
  }

  /** Splitting words joined by single spaces gives the words back. */
  lemma {:induction false} SplitOfJoin(ws: seq<string>)
    requires forall k :: 0 <= k < |ws| ==> IsWord(ws[k])
    ensures Split(Join(" ", ws)) == ws
  {
    if ws != [] {
      var w := ws[0];
      var rest := if |ws| == 1 then [] else [' '] + Join(" ", ws[1..]);
      assert Join(" ", ws) == w + rest;
      SplitFirstWord(w, rest);
      if |ws| > 1 {
        SplitSkipsSpace(' ', Join(" ", ws[1..]));
        SplitOfJoin(ws[1..]);
      }
    }
  }

  /** A word followed by nothing or by a space is the first piece of the split. */
  lemma SplitFirstWord(w: string, rest: string)
    requires IsWord(w) && (rest == [] || rest[0] == ' ')
    ensures Split(w + rest) == [w] + Split(rest)
  {
    var j := w + rest;
    assert TrimStart(j) == j;
    assert forall k :: 0 <= k < |w| ==> j[k] == w[k] && !IsSpace(j[k]);
    assert |w| == |j| || IsSpace(j[|w|]);
    assert WordEnd(j, 0) == |w|;
    assert j[..|w|] == w && j[|w|..] == rest;
  }

  /** Words joined by single spaces: every whitespace character is a plain space, with
      a non-space character on either side. */
  predicate SingleSpaced(s: string) {
    forall k :: 0 <= k < |s| && IsSpace(s[k]) ==>
      s[k] == ' ' && 0 < k < |s| - 1 && !IsSpace(s[k - 1]) && !IsSpace(s[k + 1])
  }

  /** Joining words by single spaces gives a single-spaced string whose characters
      come from the words or are that space. */
  lemma {:induction false} JoinSpec(ws: seq<string>, P: char -> bool)
    requires forall k :: 0 <= k < |ws| ==> IsWord(ws[k])
    requires P(' ') && forall k, i :: 0 <= k < |ws| && 0 <= i < |ws[k]| ==> P(ws[k][i])
    ensures SingleSpaced(Join(" ", ws))
    ensures forall i :: 0 <= i < |Join(" ", ws)| ==> P(Join(" ", ws)[i])
    ensures ws != [] ==> Join(" ", ws) != []
  {
    if |ws| > 1 {
      var w := ws[0];
      var tail := Join(" ", ws[1..]);
      JoinSpec(ws[1..], P);
      var j := Join(" ", ws);
      assert j == w + [' '] + tail;
      assert forall i :: 0 <= i < |w| ==> j[i] == w[i];
      assert j[|w|] == ' ';
      assert forall i :: |w| < i < |j| ==> j[i] == tail[i - |w| - 1];
    }
  }

  /** Each joined part occurs in the joined text. */
  lemma {:induction false} JoinContains(sep: string, parts: seq<string>, k: nat)
    requires k < |parts|
    ensures Contains(Join(sep, parts), parts[k])
  {
    if |parts| == 1 {
      SliceContained(parts[0], 0, |parts[0]|);
      assert parts[0][0..|parts[0]|] == parts[0];
    } else if k == 0 {
      var j := Join(sep, parts);
      assert j[..|parts[0]|] == parts[0];
      SliceContained(j, 0, |parts[0]|);
    } else {
      JoinContains(sep, parts[1..], k - 1);
      ContainsSuffix(parts[0] + sep, Join(sep, parts[1..]), parts[k]);
    }
  }
}
