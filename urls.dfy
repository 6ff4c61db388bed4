/** URL helpers of functions.py: `clean_url`, `is_valid_url`,
    `extract_unique_urls`, over the part of `urllib.parse.urlparse` they read. */
module Urls {

  import opened Wrappers
  import opened Text
  import opened Seqs

  // ---------------------------------------------------------------------------
  // urlparse: scheme, network location and path (section 3 of RFC 3986, as
  // Python's urllib.parse splits them)
  // ---------------------------------------------------------------------------

  /** The parts of `urlparse(url)` the crawler reads. */
  datatype UrlParts = UrlParts(scheme: string, netloc: string, path: string)

  /** A C0 control character or a space, which `urlsplit` strips from the front. */
  predicate IsC0OrSpace(c: char) { c <= ' ' }

  function StripC0Start(s: string): (r: string)
    ensures r == [] || !IsC0OrSpace(r[0])
    ensures !(s != [] && IsC0OrSpace(s[0])) ==> r == s
  {
    if s != [] && IsC0OrSpace(s[0]) then StripC0Start(s[1..]) else s
  }

  /** Tab, carriage return and line feed, which `urlsplit` deletes everywhere. */
  predicate IsUnsafe(c: char) { c == '\t' || c == '\r' || c == '\n' }

  function RemoveUnsafe(s: string): (r: string)
    ensures |r| <= |s|
  {
    if s == [] then []
    else if IsUnsafe(s[0]) then RemoveUnsafe(s[1..])
    else [s[0]] + RemoveUnsafe(s[1..])
  }

  lemma {:induction false} RemoveUnsafePrefix(p: string, s: string)
    requires forall k :: 0 <= k < |p| ==> !IsUnsafe(p[k])
    ensures RemoveUnsafe(p + s) == p + RemoveUnsafe(s)
  {
    if p == [] {
      assert p + s == s;
    } else {
      assert (p + s)[0] == p[0] && !IsUnsafe(p[0]);
      assert (p + s)[1..] == p[1..] + s;
      RemoveUnsafePrefix(p[1..], s);
      assert p == [p[0]] + p[1..];
    }
  }

  predicate IsSchemeChar(c: char) {
    IsAsciiLetter(c) || IsDigit(c) || c == '+' || c == '-' || c == '.'
  }

  /** The scheme (lower-cased) and the rest, or no scheme and the whole text. */
  function SplitScheme(u: string): (string, string) {
    match Find(u, ':')
    case Some(i) =>
      if i > 0 && IsAsciiLetter(u[0]) && forall k :: 0 <= k < i ==> IsSchemeChar(u[k])
      then (Lower(u[..i]), u[i + 1..])
      else ("", u)
    case None => ("", u)
  }

  /** End of the network location: the first `/`, `?` or `#` at or after `from`. */
  function NetlocEnd(s: string, from: nat): (e: nat)
    requires from <= |s|
    ensures from <= e <= |s|
    ensures forall k :: from <= k < e ==> s[k] != '/' && s[k] != '?' && s[k] != '#'
    ensures e < |s| ==> s[e] == '/' || s[e] == '?' || s[e] == '#'
    decreases |s| - from
  {
    if from == |s| || s[from] == '/' || s[from] == '?' || s[from] == '#' then from
    else NetlocEnd(s, from + 1)
  }

  /** The text before the first `c`, or all of it. */
  function Before(s: string, c: char): string {
    match Find(s, c)
    case Some(i) => s[..i]
    case None => s
  }

  /** The schemes for which `urlparse` separates `;params` from the path. */
  const UsesParams: seq<string> :=
    ["", "ftp", "hdl", "prospero", "http", "imap", "https", "shttp", "rtsp",
     "rtspu", "rtsps", "sip", "sips", "mms", "sftp", "tel"]

  /** `_splitparams`: the path without the parameters of its last segment. */
  function SplitParams(p: string): string {
    match FindLast(p, '/')
    case Some(slash) =>
      (match FindFrom(p, ';', slash)
       case Some(i) => p[..i]
       case None => p)
    case None => Before(p, ';')
  }

  /** The path: before the fragment and the query, and without `;params`. */
  function PathOf(scheme: string, s: string): string {
    var p := Before(Before(s, '#'), '?');
    if scheme in UsesParams && HasChar(p, ';') then SplitParams(p) else p
  }

  /** The text after the last `c`, or all of it: `s.rpartition(c)[2]`. */
  function AfterLast(s: string, c: char): string {
    match FindLast(s, c)
    case Some(i) => s[i + 1..]
    case None => s
  }

  /** The text after the first `c`, or nothing: `s.partition(c)[2]`. */
  function AfterFirst(s: string, c: char): string {
    match Find(s, c)
    case Some(i) => s[i + 1..]
    case None => ""
  }

  predicate IsHexDigit(c: char) { IsDigit(c) || 'a' <= c <= 'f' || 'A' <= c <= 'F' }

  /** End of the run of hexadecimal digits starting at `from`. */
  function HexRunEnd(s: string, from: nat): (e: nat)
    requires from <= |s|
    ensures from <= e <= |s|
    ensures forall k :: from <= k < e ==> IsHexDigit(s[k])
    ensures e < |s| ==> !IsHexDigit(s[e])
    decreases |s| - from
  {
    if from == |s| || !IsHexDigit(s[from]) then from else HexRunEnd(s, from + 1)
  }

  /** `re.match(r"\Av[a-fA-F0-9]+\..+\z", h)`: an IPvFuture literal (section
      3.2.2 of RFC 3986). `.` matches anything but `\n`, which `urlsplit` has
      already deleted. */
  predicate IsIpvFuture(h: string) {
    h != [] && h[0] == 'v' &&
    var d := HexRunEnd(h, 1);
    2 <= d < |h| - 1 && h[d] == '.'
  }

  /** `_check_bracketed_netloc` does not raise. Only the host after the last `@`
      counts. A `[` there must come first, and after the matching `]` only a
      `:port` may follow; a bracketed host starting with `v` must be an IPvFuture
      literal. Without a `[` there, the host before any `:` is checked the same
      way: only an IPvFuture literal passes, since `ip_address` refuses anything
      else that holds no `:` or puts an IPv4 address in brackets. */
  predicate BracketedNetlocOk(netloc: string) {
    var hostAndPort := AfterLast(netloc, '@');
    match Find(hostAndPort, '[')
    case Some(i) =>
      var bracketed := hostAndPort[i + 1..];
      var host := Before(bracketed, ']');
      var port := AfterFirst(bracketed, ']');
      i == 0 && (port == [] || port[0] == ':') && (StartsWith(host, "v") ==> IsIpvFuture(host))
    case None => IsIpvFuture(Before(hostAndPort, ':'))
  }

  /** `urlparse(url)`; `None` where it raises `ValueError`: an unmatched bracket in
      the network location, or one `_check_bracketed_netloc` refuses. */
  function SplitUrl(url: string): Option<UrlParts> {
    var u := RemoveUnsafe(StripC0Start(url));
    var (scheme, rest) := SplitScheme(u);
    if StartsWith(rest, "//") then
      var e := NetlocEnd(rest, 2);
      var netloc := rest[2..e];
      if HasChar(netloc, '[') != HasChar(netloc, ']') then None
      else if HasChar(netloc, '[') && !BracketedNetlocOk(netloc) then None
      else Some(UrlParts(scheme, netloc, PathOf(scheme, rest[e..])))
    else Some(UrlParts(scheme, "", PathOf(scheme, rest)))
  }

  /** The network location of a `//` URL, as `_splitnetloc` cuts it. */
  function NetlocOf(url: string): string {
    var rest := SplitScheme(RemoveUnsafe(StripC0Start(url))).1;
    if StartsWith(rest, "//") then rest[2..NetlocEnd(rest, 2)] else ""
  }

  /** `urlparse` raises exactly for an unmatched bracket or a bracketed network
      location `_check_bracketed_netloc` refuses; otherwise it reports that
      network location. */
  lemma SplitUrlRaises(url: string)
    ensures SplitUrl(url).None? <==>
      (HasChar(NetlocOf(url), '[') != HasChar(NetlocOf(url), ']')
       || (HasChar(NetlocOf(url), '[') && !BracketedNetlocOk(NetlocOf(url))))
    ensures SplitUrl(url).Some? ==> SplitUrl(url).value.netloc == NetlocOf(url)
  {
  }

  /** Text in front of the `[` refuses a network location, as in `a]b[conference.com`,
      which the markdown-link pattern can hand over. */
  lemma TextBeforeBracketRefused(before: string, after: string)
    requires before != [] && !HasChar(before, '[') && !HasChar(before, '@')
    requires !HasChar(after, '@')
    ensures !BracketedNetlocOk(before + "[" + after)
  {
    var n := before + "[" + after;
    assert forall k :: 0 <= k < |before| ==> n[k] == before[k];
    assert forall k :: |before| < k < |n| ==> n[k] == after[k - |before| - 1];
    assert AfterLast(n, '@') == n;
    assert n[|before|] == '[';
    assert forall k :: 0 <= k < |before| ==> n[k] == before[k] && n[k] != '[';
    assert Find(n, '[') == Some(|before|);
  }

  /** A `]` after the bracketed host must be followed by `:port` or nothing. */
  lemma TextAfterBracketRefused(host: string, tail: string)
    requires !HasChar(host, '[') && !HasChar(host, ']') && !HasChar(host, '@')
    requires tail != [] && tail[0] != ':' && !HasChar(tail, '@')
    ensures !BracketedNetlocOk("[" + host + "]" + tail)
  {
    var n := "[" + host + "]" + tail;
    assert forall k :: 1 <= k <= |host| ==> n[k] == host[k - 1];
    assert forall k :: |host| + 1 < k < |n| ==> n[k] == tail[k - |host| - 2];
    assert AfterLast(n, '@') == n;
    assert Find(n, '[') == Some(0);
    var bracketed := n[1..];
    assert bracketed == host + "]" + tail;
    assert bracketed[|host|] == ']';
    assert forall k :: 0 <= k < |host| ==> bracketed[k] == host[k] && bracketed[k] != ']';
    assert Find(bracketed, ']') == Some(|host|);
    assert bracketed[|host| + 1..] == tail;
  }

  /** A link whose cleaned network location `urlparse` refuses is dropped by `clean_url`. */
  lemma CleanUrlRefusesBadNetloc(url: string)
    requires var n := NetlocOf(Cleaned(url));
      HasChar(n, '[') != HasChar(n, ']') || (HasChar(n, '[') && !BracketedNetlocOk(n))
    ensures CleanUrl(url) == ""
  {
    var u := Cleaned(url);
    SplitUrlRaises(u);
    if StartsWith(u, "http://") || StartsWith(u, "https://") {
      HttpPrefixes(u);
      assert SplitUrl(u).None?;
    }
  }

  /** The scheme `SplitUrl` reports is the one `SplitScheme` finds. */
  lemma SplitUrlScheme(url: string)
    requires SplitUrl(url).Some?
    ensures SplitUrl(url).value.scheme == SplitScheme(RemoveUnsafe(StripC0Start(url))).0
  {
  }

  lemma SplitSchemeHttp(v: string, p: string)
    requires p == "http://" || p == "https://"
    requires StartsWith(v, p)
    ensures SplitScheme(v).0 == p[..|p| - 3]
  {
    var i := |p| - 3;
    assert v[i] == ':';
    assert forall k :: 0 <= k < i ==> v[k] == p[k] && v[k] != ':' && IsSchemeChar(v[k]);
    assert Find(v, ':') == Some(i);
    assert v[..i] == p[..i];
    LowerAt(p[..i]);
    assert Lower(p[..i]) == p[..i];
  }

  lemma SchemeOfPrefixedUrl(u: string, p: string)
    requires p == "http://" || p == "https://"
    requires StartsWith(u, p)
    ensures SplitUrl(u).Some? ==> SplitUrl(u).value.scheme == p[..|p| - 3]
  {
    assert StripC0Start(u) == u;
    assert u == p + u[|p|..];
    RemoveUnsafePrefix(p, u[|p|..]);
    SplitSchemeHttp(RemoveUnsafe(u), p);
    if SplitUrl(u).Some? {
      SplitUrlScheme(u);
    }
  }

  /** A URL that starts with `http://` or `https://` has that scheme, if it parses. */
  lemma SchemeOfHttpUrl(u: string)
    requires StartsWith(u, "http://") || StartsWith(u, "https://")
    ensures SplitUrl(u).Some? ==> SplitUrl(u).value.scheme in {"http", "https"}
  {
    if StartsWith(u, "http://") {
      SchemeOfPrefixedUrl(u, "http://");
      assert "http://"[..4] == "http";
    } else {
      SchemeOfPrefixedUrl(u, "https://");
      assert "https://"[..5] == "https";
    }
  }

  // ---------------------------------------------------------------------------
  // clean_url (functions.py:7-37)
  // ---------------------------------------------------------------------------

  /** Where the `[...]` starting just before `i` closes: the first `]` at or after `i`,
      provided no line break comes first (`.` does not match a line break). */
  function SegmentEnd(s: string, i: nat): (r: Option<nat>)
    decreases |s| - i
    ensures r.Some? ==> i <= r.value < |s|
  {
    if i >= |s| then None
    else if s[i] == ']' then Some(i)
    else if s[i] == '\n' then None
    else SegmentEnd(s, i + 1)
  }

  /** `re.sub(r'\[.*?\]', '', s)`: removes each shortest `[...]` on one line, left to right. */
  function RemoveBracketed(s: string): (r: string)
    decreases |s|
  {
    if s == [] then []
    else if s[0] == '[' && SegmentEnd(s, 1).Some? then RemoveBracketed(s[SegmentEnd(s, 1).value + 1..])
    else [s[0]] + RemoveBracketed(s[1..])
  }

  predicate IsParen(c: char) { c == '(' || c == ')' }

  /** `re.sub(r'\(|\)', '', s)`. */
  function RemoveParens(s: string): string {
    if s == [] then []
    else if IsParen(s[0]) then RemoveParens(s[1..])
    else [s[0]] + RemoveParens(s[1..])
  }

  /** The text `clean_url` goes on to check: without `[...]`, parentheses and
      surrounding whitespace. */
  function Cleaned(url: string): string {
    Strip(RemoveParens(RemoveBracketed(url)))
  }

  /** `clean_url(url)`. */
  function CleanUrl(url: string): string {
    var u := Cleaned(url);
    if StartsWith(u, "data:") || !(StartsWith(u, "http://") || StartsWith(u, "https://")) then ""
    else if StartsWith(u, "/") then u
    else
      match SplitUrl(u)
      case None => ""
      case Some(parts) => if parts.scheme == "" then "https://" + u else u
  }

  // Text without any `[...]` that `RemoveBracketed` would still delete.

  /** No `]` comes before the next line break. */
  predicate NoCloseBeforeBreak(t: string) {
    t == [] || t[0] == '\n' || (t[0] != ']' && NoCloseBeforeBreak(t[1..]))
  }

  /** Every `[` is left alone by `RemoveBracketed`. */
  predicate BracketFree(s: string) {
    s == [] || ((s[0] != '[' || NoCloseBeforeBreak(s[1..])) && BracketFree(s[1..]))
  }

  lemma {:induction false} SegmentEndNone(s: string, i: nat)
    requires i <= |s|
    ensures SegmentEnd(s, i).None? <==> NoCloseBeforeBreak(s[i..])
    decreases |s| - i
  {
    if i < |s| {
      assert s[i..][1..] == s[i + 1..];
      SegmentEndNone(s, i + 1);
    }
  }

  lemma {:induction false} BracketFreeFixed(s: string)
    requires BracketFree(s)
    ensures RemoveBracketed(s) == s
  {
    if s != [] {
      SegmentEndNone(s, 1);
      BracketFreeFixed(s[1..]);
    }
  }

  lemma {:induction false} NoCloseRemoveBracketed(t: string)
    requires NoCloseBeforeBreak(t)
    ensures NoCloseBeforeBreak(RemoveBracketed(t))
  {
    if t != [] && t[0] != '\n' {
      SegmentEndNone(t, 1);
      NoCloseRemoveBracketed(t[1..]);
    }
  }

  /** What `RemoveBracketed` leaves has nothing more to remove. */
  lemma {:induction false} RemoveBracketedBracketFree(s: string)
    ensures BracketFree(RemoveBracketed(s))
    decreases |s|
  {
    if s != [] {
      if s[0] == '[' && SegmentEnd(s, 1).Some? {
        RemoveBracketedBracketFree(s[SegmentEnd(s, 1).value + 1..]);
      } else {
        RemoveBracketedBracketFree(s[1..]);
        if s[0] == '[' {
          SegmentEndNone(s, 1);
          NoCloseRemoveBracketed(s[1..]);
        }
        assert ([s[0]] + RemoveBracketed(s[1..]))[1..] == RemoveBracketed(s[1..]);
      }
    }
  }

  lemma {:induction false} NoCloseRemoveParens(t: string)
    requires NoCloseBeforeBreak(t)
    ensures NoCloseBeforeBreak(RemoveParens(t))
  {
    if t != [] && t[0] != '\n' {
      NoCloseRemoveParens(t[1..]);
    }
  }

  lemma {:induction false} BracketFreeRemoveParens(s: string)
    requires BracketFree(s)
    ensures BracketFree(RemoveParens(s))
  {
    if s != [] {
      BracketFreeRemoveParens(s[1..]);
      if s[0] == '[' {
        NoCloseRemoveParens(s[1..]);
      }
      if !IsParen(s[0]) {
        assert ([s[0]] + RemoveParens(s[1..]))[1..] == RemoveParens(s[1..]);
      }
    }
  }

  lemma {:induction false} NoCloseBeforeBreakPrefix(t: string, n: nat)
    requires NoCloseBeforeBreak(t) && n <= |t|
    ensures NoCloseBeforeBreak(t[..n])
  {
    if n > 0 && t[0] != '\n' {
      assert t[..n][1..] == t[1..][..n - 1];
      NoCloseBeforeBreakPrefix(t[1..], n - 1);
    }
  }

  lemma {:induction false} BracketFreePrefix(s: string, n: nat)
    requires BracketFree(s) && n <= |s|
    ensures BracketFree(s[..n])
  {
    if n > 0 {
      assert s[..n][1..] == s[1..][..n - 1];
      BracketFreePrefix(s[1..], n - 1);
      if s[0] == '[' {
        NoCloseBeforeBreakPrefix(s[1..], n - 1);
      }
    }
  }

  lemma {:induction false} BracketFreeSuffix(s: string, n: nat)
    requires BracketFree(s) && n <= |s|
    ensures BracketFree(s[n..])
  {
    if n > 0 {
      assert s[n..] == s[1..][n - 1..];
      BracketFreeSuffix(s[1..], n - 1);
    }
  }

  lemma {:induction false} RemoveParensNone(s: string)
    ensures forall k :: 0 <= k < |RemoveParens(s)| ==> !IsParen(RemoveParens(s)[k])
  {
    if s != [] {
      RemoveParensNone(s[1..]);
      var r := RemoveParens(s[1..]);
      if IsParen(s[0]) {
        assert RemoveParens(s) == r;
      } else {
        assert RemoveParens(s) == [s[0]] + r;
        assert forall k :: 1 <= k < |r| + 1 ==> ([s[0]] + r)[k] == r[k - 1];
      }
    }
  }

  lemma {:induction false} RemoveParensFixed(s: string)
    requires forall k :: 0 <= k < |s| ==> !IsParen(s[k])
    ensures RemoveParens(s) == s
  {
    if s != [] {
      RemoveParensFixed(s[1..]);
    }
  }

  lemma CleanedBracketFree(url: string)
    ensures BracketFree(Cleaned(url))
  {
    var x := RemoveParens(RemoveBracketed(url));
    RemoveBracketedBracketFree(url);
    BracketFreeRemoveParens(RemoveBracketed(url));
    var t := TrimStart(x);
    var u := TrimEnd(t);
    TrimStartSpec(x);
    TrimEndSpec(t);
    BracketFreeSuffix(x, |x| - |t|);
    assert x[|x| - |t|..] == t;
    BracketFreePrefix(t, |u|);
    assert t[..|u|] == u;
    assert Cleaned(url) == u;
  }

  lemma CleanedNoParens(url: string)
    ensures var u := Cleaned(url); forall k :: 0 <= k < |u| ==> !IsParen(u[k])
  {
    var x := RemoveParens(RemoveBracketed(url));
    RemoveParensNone(RemoveBracketed(url));
    var t := TrimStart(x);
    var u := TrimEnd(t);
    TrimStartSpec(x);
    TrimEndSpec(t);
    assert forall k :: 0 <= k < |u| ==> u[k] == t[k] == x[|x| - |t| + k];
  }

  /** The cleaned text has nothing left for the cleaning to remove. */
  lemma CleanedIsClean(url: string)
    ensures var u := Cleaned(url);
      BracketFree(u) && (forall k :: 0 <= k < |u| ==> !IsParen(u[k])) && Strip(u) == u
  {
    CleanedBracketFree(url);
    CleanedNoParens(url);
    StripTwice(RemoveParens(RemoveBracketed(url)));
  }

  /** Cleaning cleaned text changes nothing. */
  lemma CleanedTwice(url: string)
    ensures Cleaned(Cleaned(url)) == Cleaned(url)
  {
    var u := Cleaned(url);
    CleanedIsClean(url);
    BracketFreeFixed(u);
    RemoveParensFixed(u);
  }

  /** `clean_url` looks at the cleaned text only. */
  lemma CleanUrlOfCleaned(x: string, y: string)
    requires Cleaned(x) == Cleaned(y)
    ensures CleanUrl(x) == CleanUrl(y)
  {
  }

  /** `clean_url` returns the cleaned text or nothing: the branches that would add
      `https://` or keep a relative `/path` cannot be taken. */
  lemma CleanUrlIsCleaned(url: string)
    ensures CleanUrl(url) == "" || CleanUrl(url) == Cleaned(url)
  {
    var u := Cleaned(url);
    if StartsWith(u, "http://") || StartsWith(u, "https://") {
      SchemeOfHttpUrl(u);
    }
  }

  /** A non-empty result passed the prefix test and `urlparse`. */
  lemma CleanUrlAccepted(url: string)
    requires CleanUrl(url) != ""
    ensures StartsWith(Cleaned(url), "http://") || StartsWith(Cleaned(url), "https://")
    ensures SplitUrl(Cleaned(url)).Some?
  {
    HttpPrefixes(Cleaned(url));
  }

  lemma HttpPrefixes(u: string)
    requires StartsWith(u, "http://") || StartsWith(u, "https://")
    ensures !StartsWith(u, "/") && !StartsWith(u, "data:")
  {
    assert u[0] == 'h';
  }

  /** What `clean_url` returns: empty, or a stripped `http://`/`https://` URL that
      `urlparse` accepts, without parentheses and without a `[...]` to remove. */
  lemma CleanUrlShape(url: string)
    ensures var r := CleanUrl(url);
      r == [] ||
      ((StartsWith(r, "http://") || StartsWith(r, "https://"))
       && r == Strip(r)
       && (forall k :: 0 <= k < |r| ==> !IsParen(r[k]))
       && BracketFree(r)
       && SplitUrl(r).Some? && SplitUrl(r).value.scheme in {"http", "https"})
  {
    var r := CleanUrl(url);
    CleanUrlIsCleaned(url);
    if r != [] {
      CleanedIsClean(url);
      CleanUrlAccepted(url);
      SchemeOfHttpUrl(r);
    }
  }

  /** `clean_url` applied to its own output changes nothing. */
  lemma CleanUrlIdempotent(url: string)
    ensures CleanUrl(CleanUrl(url)) == CleanUrl(url)
  {
    var r := CleanUrl(url);
    CleanUrlIsCleaned(url);
    if r != [] {
      CleanedTwice(url);
      CleanUrlOfCleaned(r, url);
    }
  }

  /** No `[` and no parenthesis in `p`, and no space at either end. */
  predicate PlainPrefix(p: string) {
    p != [] && !IsSpace(p[0]) && !IsSpace(p[|p| - 1])
    && forall k :: 0 <= k < |p| ==> p[k] != '[' && !IsParen(p[k])
  }

  lemma {:induction false} RemoveBracketedPrefix(p: string, s: string)
    requires forall k :: 0 <= k < |p| ==> p[k] != '['
    ensures RemoveBracketed(p + s) == p + RemoveBracketed(s)
  {
    if p == [] {
      assert p + s == s;
    } else {
      assert (p + s)[0] == p[0];
      assert (p + s)[1..] == p[1..] + s;
      RemoveBracketedPrefix(p[1..], s);
      assert p == [p[0]] + p[1..];
    }
  }

  lemma {:induction false} RemoveParensPrefix(p: string, s: string)
    requires forall k :: 0 <= k < |p| ==> !IsParen(p[k])
    ensures RemoveParens(p + s) == p + RemoveParens(s)
  {
    if p == [] {
      assert p + s == s;
    } else {
      assert (p + s)[0] == p[0];
      assert (p + s)[1..] == p[1..] + s;
      RemoveParensPrefix(p[1..], s);
      assert p == [p[0]] + p[1..];
    }
  }

  /** Cleaning keeps a plain prefix in front. */
  lemma CleanedKeepsPrefix(p: string, s: string)
    requires PlainPrefix(p)
    ensures StartsWith(Cleaned(p + s), p)
  {
    RemoveBracketedPrefix(p, s);
    RemoveParensPrefix(p, RemoveBracketed(s));
    var x := p + RemoveParens(RemoveBracketed(s));
    assert x[0] == p[0];
    assert TrimStart(x) == x;
    var r := TrimEnd(x);
    TrimEndSpec(x);
    assert x[|p| - 1] == p[|p| - 1];
    assert |r| >= |p|;
    assert r[..|p|] == x[..|p|] == p;
  }

  /** A link whose text starts with a plain prefix other than `h...` is refused by
      `clean_url`, whatever follows; `javascript:`, `mailto:`, `data:` and `ftp://`
      are such prefixes. */
  lemma CleanUrlRejectsOtherSchemes(p: string, s: string)
    requires PlainPrefix(p) && p[0] != 'h'
    ensures CleanUrl(p + s) == ""
  {
    CleanedKeepsPrefix(p, s);
    var u := Cleaned(p + s);
    assert u[0] == p[0];
    assert !StartsWith(u, "http://") && !StartsWith(u, "https://");
  }

  lemma OtherSchemesArePlain()
    ensures PlainPrefix("javascript:") && PlainPrefix("mailto:")
    ensures PlainPrefix("data:") && PlainPrefix("ftp://")
  {
  }

  // ---------------------------------------------------------------------------
  // is_valid_url (functions.py:67-103)
  // ---------------------------------------------------------------------------

  /** The terms that make a host or path look like an event page. */
  const EventTerms: seq<string> :=
    ["conference", "summit", "symposium", "event", "expo",
     "meetup", "forum", "congress", "convention", "workshop",
     "ai-", "ml-", "tech-", "artificial-intelligence"]

  /** Some term of `terms` occurs in `s`. */
  predicate ContainsAny(s: string, terms: seq<string>) {
    terms != [] && (Contains(s, terms[0]) || ContainsAny(s, terms[1..]))
  }

  lemma {:induction false} ContainsAnyMeans(s: string, terms: seq<string>)
    ensures ContainsAny(s, terms) <==> exists i :: 0 <= i < |terms| && Contains(s, terms[i])
  {
    if terms != [] {
      ContainsAnyMeans(s, terms[1..]);
      assert forall i :: 1 <= i < |terms| ==> terms[i] == terms[1..][i - 1];
    }
  }

  /** The host and path contain an event term or the year 2025. */
  predicate EventLike(s: string) {
    ContainsAny(s, EventTerms) || Contains(s, "2025")
  }

  /** `is_valid_url(url)`. */
  predicate IsValidUrl(url: string) {
    if StartsWith(url, "data:") then false
    else
      match SplitUrl(url)
      case None => false
      case Some(p) =>
        p.scheme != "" && p.netloc != "" && (p.scheme == "http" || p.scheme == "https")
        && EventLike(Lower(p.netloc + p.path))
  }

  /** For a cleaned URL the scheme test always passes: validity is exactly a
      non-empty host and an event term (or the year) in the host or path. */
  lemma IsValidCleanUrl(url: string)
    requires CleanUrl(url) != ""
    ensures var r := CleanUrl(url);
      SplitUrl(r).Some? &&
      (IsValidUrl(r) <==> SplitUrl(r).value.netloc != "" && EventLike(Lower(SplitUrl(r).value.netloc + SplitUrl(r).value.path)))
  {
    CleanUrlShape(url);
    IsValidHttpUrl(CleanUrl(url));
  }

  lemma IsValidHttpUrl(u: string)
    requires StartsWith(u, "http://") || StartsWith(u, "https://")
    requires SplitUrl(u).Some?
    ensures var p := SplitUrl(u).value;
      IsValidUrl(u) <==> p.netloc != "" && EventLike(Lower(p.netloc + p.path))
  {
    HttpPrefixes(u);
    SchemeOfHttpUrl(u);
  }

  /** A `data:` URL is never valid. */
  lemma DataUrlInvalid(url: string)
    requires StartsWith(url, "data:")
    ensures !IsValidUrl(url)
  {
  }

  // ---------------------------------------------------------------------------
  // extract_unique_urls (functions.py:39-65)
  // ---------------------------------------------------------------------------

  /** A cleaned link `extract_unique_urls` keeps. */
  predicate Kept(u: string) {
    u != "" && IsValidUrl(u)
  }

  /** The cleaned candidates that are non-empty and valid, in order. */
  function AcceptedUrls(candidates: seq<string>): (r: seq<string>)
    ensures forall k :: 0 <= k < |r| ==> Kept(r[k])
  {
    if candidates == [] then []
    else
      var rest := AcceptedUrls(candidates[..|candidates| - 1]);
      var u := CleanUrl(candidates[|candidates| - 1]);
      if Kept(u) then rest + [u] else rest
  }

  /** Every candidate whose cleaned form is kept is among the accepted URLs. */
  lemma {:induction false} AcceptedUrlsHas(candidates: seq<string>, i: nat)
    requires i < |candidates| && Kept(CleanUrl(candidates[i]))
    ensures CleanUrl(candidates[i]) in AcceptedUrls(candidates)
  {
    var p := candidates[..|candidates| - 1];
    if i < |p| {
      assert p[i] == candidates[i];
      AcceptedUrlsHas(p, i);
    }
  }

  /** `extract_unique_urls` after the regular-expression scan: `candidates` are the
      matches of both URL patterns, in the order `re.findall` yields them. */
  method ExtractUniqueUrls(candidates: seq<string>) returns (urls: seq<string>)
    ensures urls == Dedup(AcceptedUrls(candidates))
    ensures Distinct(urls)
    ensures forall k :: 0 <= k < |urls| ==> Kept(urls[k])
    ensures forall i :: 0 <= i < |candidates| && Kept(CleanUrl(candidates[i])) ==> CleanUrl(candidates[i]) in urls
  {
    urls := [];
    var seen: set<string> := {};
    for i := 0 to |candidates|
      invariant urls == Dedup(AcceptedUrls(candidates[..i]))
      invariant forall u :: u in seen <==> u in urls
    {
      PrefixStep(candidates, i);
      var u := CleanUrl(candidates[i]);
      if Kept(u) && u !in seen {
        urls := urls + [u];
        seen := seen + {u};
      }
    }
    assert candidates[..|candidates|] == candidates;
    forall i | 0 <= i < |candidates| && Kept(CleanUrl(candidates[i]))
      ensures CleanUrl(candidates[i]) in urls
    {
      AcceptedUrlsHas(candidates, i);
    }
  }
}
