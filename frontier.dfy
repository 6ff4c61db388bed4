/** The crawl frontier of utils.py: `URLManager`, a discovered set, a processed
    set and a first-in first-out queue of cleaned URLs. */
module Frontier {

  import opened Wrappers
  import opened Seqs
  import opened Urls

  /** `clean_url` applied to every element. */
  function CleanAll(urls: seq<string>): (r: seq<string>)
    ensures |r| == |urls|
  {
    if urls == [] then [] else CleanAll(urls[..|urls| - 1]) + [CleanUrl(urls[|urls| - 1])]
  }

  lemma {:induction false} CleanAllAt(urls: seq<string>, i: nat)
    requires i < |urls|
    ensures CleanAll(urls)[i] == CleanUrl(urls[i])
  {
    if i < |urls| - 1 {
      var p := urls[..|urls| - 1];
      CleanAllAt(p, i);
      assert p[i] == urls[i];
    }
  }

  lemma CleanAllSnoc(urls: seq<string>, i: nat)
    requires i < |urls|
    ensures CleanAll(urls[..i + 1]) == CleanAll(urls[..i]) + [CleanUrl(urls[i])]
  {
    PrefixStep(urls, i);
  }

  /** The non-empty elements of `xs` that are not in `seen`, in order. */
  function Unseen(seen: set<string>, xs: seq<string>): seq<string> {
    if xs == [] then []
    else
      var rest := Unseen(seen, xs[..|xs| - 1]);
      var x := xs[|xs| - 1];
      if x != "" && x !in seen then rest + [x] else rest
  }

  lemma {:induction false} UnseenMembers(seen: set<string>, xs: seq<string>)
    ensures forall x :: x in Unseen(seen, xs) <==> x in xs && x != "" && x !in seen
  {
    if xs != [] {
      UnseenMembers(seen, xs[..|xs| - 1]);
      assert forall y :: y in xs <==> y in xs[..|xs| - 1] || y == xs[|xs| - 1];
    }
  }

  /** What `add_urls(urls)` appends when `seen` are the discovered and processed URLs:
      each non-empty cleaned form not seen before, once, in input order. */
  function Admitted(seen: set<string>, urls: seq<string>): seq<string> {
    Dedup(Unseen(seen, CleanAll(urls)))
  }

  /** `add_urls` admits exactly the cleaned, non-empty, unseen forms of its input,
      each once and in the order of first occurrence. */
  lemma AdmittedExactly(seen: set<string>, urls: seq<string>)
    ensures var a := Admitted(seen, urls);
      Distinct(a) &&
      (forall u :: u in a <==> u in CleanAll(urls) && u != "" && u !in seen)
  {
    var xs := Unseen(seen, CleanAll(urls));
    UnseenMembers(seen, CleanAll(urls));
    assert forall u :: u in Dedup(xs) <==> u in xs;
  }

  /** The admitted URLs are distinct and none of them was seen. */
  lemma AdmittedFresh(seen: set<string>, urls: seq<string>)
    ensures var a := Admitted(seen, urls);
      Distinct(a) && forall k :: 0 <= k < |a| ==> a[k] !in seen
  {
    AdmittedExactly(seen, urls);
  }

  /** A non-empty cleaned input is either seen already or admitted. */
  lemma AdmittedHas(seen: set<string>, urls: seq<string>, i: nat)
    requires i < |urls| && CleanUrl(urls[i]) != ""
    ensures CleanUrl(urls[i]) in seen || CleanUrl(urls[i]) in Admitted(seen, urls)
  {
    CleanAllAt(urls, i);
    AdmittedExactly(seen, urls);
  }

  /** `Dedup(Unseen(seen, xs))` for one more element `u`. */
  lemma UnseenDedupSnoc(seen: set<string>, xs: seq<string>, u: string)
    ensures var a := Dedup(Unseen(seen, xs));
      Dedup(Unseen(seen, xs + [u])) == if u != "" && u !in seen && u !in a then a + [u] else a
  {
    var ys := Unseen(seen, xs);
    assert (xs + [u])[..|xs|] == xs;
    if u != "" && u !in seen {
      assert Unseen(seen, xs + [u]) == ys + [u];
      DedupSnoc(ys, u);
    } else {
      assert Unseen(seen, xs + [u]) == ys;
    }
  }

  /** One step of `add_urls`, for the cleaned form `u` of the next input. */
  lemma AddStep(seen: set<string>, discovered0: set<string>, processed: set<string>, queue0: seq<string>,
                xs: seq<string>, u: string, discovered: set<string>, queue: seq<string>)
    requires seen == discovered0 + processed
    requires queue == queue0 + Dedup(Unseen(seen, xs))
    requires discovered == discovered0 + Elems(Dedup(Unseen(seen, xs)))
    ensures var admit := u != "" && !(u in discovered || u in processed);
      (if admit then queue + [u] else queue) == queue0 + Dedup(Unseen(seen, xs + [u]))
      && (if admit then discovered + {u} else discovered) == discovered0 + Elems(Dedup(Unseen(seen, xs + [u])))
  {
    var a := Dedup(Unseen(seen, xs));
    UnseenDedupSnoc(seen, xs, u);
    assert u in discovered <==> u in discovered0 || u in a;
    if u != "" && u !in seen && u !in a {
      ElemsSnoc(a, u);
      assert queue + [u] == queue0 + (a + [u]);
    }
  }

  /** The loop of `add_urls` over the discovered set `d`, the processed set `p` and
      the queue `q`. */
  method Admit(d: set<string>, p: set<string>, q: seq<string>, urls: seq<string>)
    returns (d': set<string>, q': seq<string>)
    ensures q' == q + Admitted(d + p, urls)
    ensures d' == d + Elems(Admitted(d + p, urls))
  {
    d', q' := d, q;
    for i := 0 to |urls|
      invariant q' == q + Admitted(d + p, urls[..i])
      invariant d' == d + Elems(Admitted(d + p, urls[..i]))
    {
      var cleaned := CleanUrl(urls[i]);
      CleanAllSnoc(urls, i);
      AddStep(d + p, d, p, q, CleanAll(urls[..i]), cleaned, d', q');
      if cleaned != "" && !(cleaned in d' || cleaned in p) {
        d' := d' + {cleaned};
        q' := q' + [cleaned];
      }
    }
    assert urls[..|urls|] == urls;
  }

  /** The queue after dropping the front entries that are already processed. */
  function SkipProcessed(queue: seq<string>, processed: set<string>): (r: seq<string>)
    ensures |r| <= |queue| && r == queue[|queue| - |r|..]
    ensures r == [] || r[0] !in processed
  {
    if queue != [] && queue[0] in processed then SkipProcessed(queue[1..], processed) else queue
  }

  /** The loop of `get_next_url`: pops the processed URLs at the front of the queue,
      then the first unprocessed one, if any. */
  method PopUnprocessed(queue: seq<string>, processed: set<string>)
    returns (rest: seq<string>, r: Option<string>)
    ensures var q := SkipProcessed(queue, processed);
      if q == [] then r == None && rest == [] else r == Some(q[0]) && rest == q[1..]
    ensures r.Some? ==> r.value in queue && r.value !in processed
  {
    rest := queue;
    while rest != []
      invariant SkipProcessed(rest, processed) == SkipProcessed(queue, processed)
    {
      var url := rest[0];
      rest := rest[1..];
      if url !in processed {
        return rest, Some(url);
      }
    }
    r := None;
  }

  /** With no processed URL in the queue there is nothing to skip. */
  lemma {:induction false} SkipNothing(queue: seq<string>, processed: set<string>)
    requires forall k :: 0 <= k < |queue| ==> queue[k] !in processed
    ensures SkipProcessed(queue, processed) == queue
  {
  }

  /** The frontier invariant: the queue has no duplicates, holds discovered URLs only
      and no processed one; the processed URLs are exactly those served, each once. */
  ghost predicate FrontierInvariant(discovered: set<string>, processed: set<string>,
                                    queue: seq<string>, served: seq<string>) {
    Distinct(queue)
    && (forall k :: 0 <= k < |queue| ==> queue[k] in discovered && queue[k] !in processed)
    && processed <= discovered
    && Distinct(served)
    && (forall u :: u in processed <==> u in served)
  }

  /** Appending distinct, never-seen URLs to the queue and the discovered set keeps
      the invariant. */
  lemma AdmitKeepsInvariant(discovered: set<string>, processed: set<string>,
                            queue: seq<string>, served: seq<string>, added: seq<string>)
    requires FrontierInvariant(discovered, processed, queue, served)
    requires Distinct(added)
    requires forall k :: 0 <= k < |added| ==> added[k] !in discovered && added[k] !in processed
    ensures FrontierInvariant(discovered + Elems(added), processed, queue + added, served)
  {
    var q := queue + added;
    forall i, j | 0 <= i < j < |q|
      ensures q[i] != q[j]
    {
      if i < |queue| && j >= |queue| {
        assert q[i] in discovered && q[j] == added[j - |queue|];
      }
    }
  }

  /** Serving the front of the queue keeps the invariant. */
  lemma ServeKeepsInvariant(discovered: set<string>, processed: set<string>,
                            queue: seq<string>, served: seq<string>)
    requires FrontierInvariant(discovered, processed, queue, served)
    requires queue != []
    ensures FrontierInvariant(discovered, processed + {queue[0]}, queue[1..], served + [queue[0]])
  {
    var s := served + [queue[0]];
    assert queue[0] !in served;
    forall i, j | 0 <= i < j < |s|
      ensures s[i] != s[j]
    {
      if j == |served| {
        assert s[i] in served;
      }
    }
    forall k | 0 <= k < |queue| - 1
      ensures queue[1..][k] != queue[0]
    {
      assert queue[1..][k] == queue[k + 1];
    }
  }

  class UrlManager {
    var discovered: set<string>
    var processed: set<string>
    var queue: seq<string>
    /** The URLs `GetNextUrl` has returned, in order. */
    ghost var served: seq<string>

    ghost predicate Valid()
      reads this
    {
      FrontierInvariant(discovered, processed, queue, served)
    }

    constructor()
      ensures Valid()
      ensures discovered == {} && processed == {} && queue == [] && served == []
    {
      discovered := {};
      processed := {};
      queue := [];
      served := [];
    }

    /** `has_seen_url(url)`. */
    predicate HasSeenUrl(url: string)
      reads this
    {
      url in discovered || url in processed
    }

    /** `has_urls()`. */
    predicate HasUrls()
      reads this
    {
      queue != []
    }

    /** `add_urls(urls)`. */
    method AddUrls(urls: seq<string>)
      requires Valid()
      modifies this
      ensures Valid()
      ensures queue == old(queue) + Admitted(old(discovered) + old(processed), urls)
      ensures discovered == old(discovered) + Elems(Admitted(old(discovered) + old(processed), urls))
      ensures processed == old(processed) && served == old(served)
    {
      ghost var seen := discovered + processed;
      discovered, queue := Admit(discovered, processed, queue, urls);
      AdmittedFresh(seen, urls);
      AdmitKeepsInvariant(old(discovered), old(processed), old(queue), old(served), Admitted(seen, urls));
    }

    /** `get_next_url()`: pops from the front, skipping processed URLs, and marks
        the URL it returns as processed. */
    method GetNextUrl() returns (r: Option<string>)
      modifies this
      ensures old(Valid()) ==> Valid()
      ensures var q := SkipProcessed(old(queue), old(processed));
        if q == [] then r == None && queue == [] && processed == old(processed) && served == old(served)
        else r == Some(q[0]) && queue == q[1..] && processed == old(processed) + {q[0]}
             && served == old(served) + [q[0]]
      ensures discovered == old(discovered)
      ensures old(Valid()) && old(HasUrls()) ==> r == Some(old(queue)[0]) && queue == old(queue)[1..]
      ensures r.Some? ==> r.value !in old(processed)
      ensures old(Valid()) && r.Some? ==> r.value !in old(served)
    {
      if Valid() {
        SkipNothing(queue, processed);
      }
      var rest, url := PopUnprocessed(queue, processed);
      queue := rest;
      if url.Some? {
        if old(Valid()) {
          ServeKeepsInvariant(old(discovered), old(processed), old(queue), old(served));
        }
        processed := processed + {url.value};
        served := served + [url.value];
      }
      r := url;
    }
  }
}
