/** `extract_prices` (functions.py): four fixed patterns, a symbol-prefixed amount or
    range for each of `$`, `€` and `£`, and an amount followed by a currency code; every
    match, stripped, is kept once in order of discovery. */
module Prices {

  import opened Wrappers
  import opened Text
  import opened Seqs
  import opened Pattern

  /** `(?:,\d{3})*(?:\.\d{2})?`, the part of an amount after its leading digits. */
  const Grouping: seq<Pat> :=
    [Star(Cat([Lit(","), Rep(Digit, 3, Some(3))])), Opt(Cat([Lit("."), Rep(Digit, 2, Some(2))]))]

  /** `\d+(?:,\d{3})*(?:\.\d{2})?`. */
  const Amount: seq<Pat> := [Rep(Digit, 1, None)] + Grouping

  /** The symbol-prefixed pattern: an amount, optionally followed by `\s*-\s*` and a
      second amount with the same symbol. */
  function SymbolPrice(symbol: char): (p: Pat)
    ensures p.Cat? && |p.parts| > 0 && p.parts[0] == Lit([symbol])
  {
    Cat([Lit([symbol])] + Amount
        + [Opt(Cat([Rep(Space, 0, None), Lit("-"), Rep(Space, 0, None), Lit([symbol])] + Amount))])
  }

  /** `\d+(?:,\d{3})*(?:\.\d{2})?\s*(?:USD|EUR|GBP)`. */
  const CodePrice: Pat := Cat(Amount + [Rep(Space, 0, None), OneOf(["USD", "EUR", "GBP"])])

  const Symbols: seq<char> := ['$', '€', '£']

  const PricePatterns: seq<Pat> :=
    [SymbolPrice('$'), SymbolPrice('€'), SymbolPrice('£'), CodePrice]

  /** `[m.group().strip() for m in ms]`. */
  function StripAll(ms: seq<string>): (r: seq<string>)
    ensures |r| == |ms| && forall k :: 0 <= k < |ms| ==> r[k] == Strip(ms[k])
  {
    seq(|ms|, k requires 0 <= k < |ms| => Strip(ms[k]))
  }

  lemma StripAllAppend(a: seq<string>, b: seq<string>)
    ensures StripAll(a + b) == StripAll(a) + StripAll(b)
  {
  }

  /** The loop of `extract_prices` over a list of patterns: every stripped match is
      appended unless already present. */
  method Collect(patterns: seq<Pat>, text: string) returns (prices: seq<string>)
    ensures prices == Dedup(StripAll(Scan(patterns, text, |patterns|)))
  {
    prices := [];
    for n := 0 to |patterns|
      invariant prices == Dedup(StripAll(Scan(patterns, text, n)))
    {
      var matches := FindAll(patterns[n], text, 0);
      StripAllAppend(Scan(patterns, text, n), matches);
      prices := AppendNew(prices, StripAll(Scan(patterns, text, n)), matches);
    }
  }

  /** The inner loop, over the matches of one pattern, after the prices `seen` so far
      have left `prices0`. */
  method AppendNew(prices0: seq<string>, ghost seen0: seq<string>, matches: seq<string>)
    returns (prices: seq<string>)
    requires prices0 == Dedup(seen0)
    ensures prices == Dedup(seen0 + StripAll(matches))
  {
    prices := prices0;
    ghost var seen := seen0;
    for j := 0 to |matches|
      invariant seen == seen0 + StripAll(matches[..j])
      invariant prices == Dedup(seen)
    {
      var price := Strip(matches[j]);
      assert StripAll(matches[..j + 1]) == StripAll(matches[..j]) + [price];
      DedupSnoc(seen, price);
      seen := seen + [price];
      if price !in prices {
        prices := prices + [price];
      }
    }
    assert matches[..|matches|] == matches;
  }

  /** `extract_prices(text)`: the distinct stripped matches, in order of discovery. */
  method ExtractPrices(text: string) returns (prices: seq<string>)
    ensures prices == Dedup(StripAll(Scan(PricePatterns, text, |PricePatterns|)))
  {
    prices := Collect(PricePatterns, text);
  }

  /** A string opening with a non-space character keeps that character first after
      `strip`. */
  lemma StripKeepsHead(m: string)
    requires |m| > 0 && !IsSpace(m[0])
    ensures |Strip(m)| > 0 && Strip(m)[0] == m[0]
  {
    assert TrimStart(m) == m;
    TrimEndSpec(m);
  }

  /** Opens with a currency symbol or a digit. */
  predicate PriceLike(p: string) {
    |p| > 0 && (p[0] in Symbols || IsDigit(p[0]))
  }

  /** Every price opens with a currency symbol or a digit. */
  lemma {:induction false} FoundShape(text: string, n: nat)
    requires n <= |PricePatterns|
    ensures forall p :: p in StripAll(Scan(PricePatterns, text, n)) ==> PriceLike(p)
  {
    if n > 0 {
      FoundShape(text, n - 1);
      var ms := FindAll(PricePatterns[n - 1], text, 0);
      StripAllAppend(Scan(PricePatterns, text, n - 1), ms);
      forall p | p in StripAll(ms)
        ensures PriceLike(p)
      {
        StrippedShape(n - 1, text, ms, p);
      }
    }
  }

  lemma StrippedShape(n: nat, text: string, ms: seq<string>, p: string)
    requires n < |PricePatterns| && ms == FindAll(PricePatterns[n], text, 0)
    requires p in StripAll(ms)
    ensures PriceLike(p)
  {
    var k :| 0 <= k < |ms| && p == Strip(ms[k]);
    MatchShape(n, text, ms[k]);
    StripKeepsHead(ms[k]);
  }

  /** A match of the `n`-th pattern opens with its currency symbol, or with a digit for
      the code pattern. */
  lemma MatchShape(n: nat, text: string, m: string)
    requires n < |PricePatterns| && m in FindAll(PricePatterns[n], text, 0)
    ensures |m| > 0 && (m[0] in Symbols || IsDigit(m[0]))
  {
    var pat := PricePatterns[n];
    if n < 3 {
      var symbol := Symbols[n];
      assert pat == SymbolPrice(symbol);
      FindAllStartsWith(pat.parts, text, 0, m);
      assert m[..1] == [symbol];
    } else {
      assert pat.parts[0] == Rep(Digit, 1, None);
      FindAllStartsWithDigit(pat.parts, text, 0, m);
    }
  }
}
