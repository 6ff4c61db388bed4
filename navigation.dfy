/** The response handling of `NavigationAgent.decide` (navigation_agent.py): the
    prompt's truncated slots, the scan over the runner's final responses, the
    brace-block parse, `link` -> `links` normalisation and the fail-open default. */
module Navigation {

  import opened Wrappers
  import opened Text
  import opened PyJson
  import opened LlmOutput
  import opened Words

  /** A message from the runner: whether it is a final response, and its text. */
  datatype Message = Message(isFinal: bool, text: string)

  /** Python's slice `s[:n]`. */
  function Take<T>(s: seq<T>, n: nat): (r: seq<T>)
    ensures |r| == if |s| < n then |s| else n
    ensures r == s[..|r|]
  {
    if |s| <= n then s else s[..n]
  }

  /** The page text and link list the prompt embeds: at most 2000 characters of the
      text and at most 20 links, one per line. */
  function PromptText(text: string): string {
    Take(text, 2000)
  }

  function PromptLinks(links: seq<string>): string {
    Join("\n", Take(links, 20))
  }

  /** The text slot is a prefix of the page text of at most 2000 characters, and the
      link slot holds each of the first 20 links. */
  lemma PromptSlotsBounded(text: string, links: seq<string>)
    ensures |PromptText(text)| <= 2000 && StartsWith(text, PromptText(text))
    ensures |text| <= 2000 ==> PromptText(text) == text
    ensures forall k :: 0 <= k < |links| && k < 20 ==> Contains(PromptLinks(links), links[k])
  {
    forall k | 0 <= k < |links| && k < 20
      ensures Contains(PromptLinks(links), links[k])
    {
      JoinContains("\n", Take(links, 20), k);
    }
  }

  /** The decision returned when no final response yields an object. */
  const DefaultDecision: Dict := [Field("action", Str("extract")), Field("links", Arr([]))]

  /** `if "link" in result and "links" not in result: result["links"] = ...`. */
  function Normalize(result: Dict): Dict {
    if HasKey(result, "link") && !HasKey(result, "links") then
      var link := GetOrNull(result, "link");
      Put(result, "links", if Truthy(link) then Arr([link]) else Arr([]))
    else result
  }

  /** Normalisation only ever adds `links`, last, from a truthy `link`; an object that
      already has `links` (or has no `link`) is returned as it is, whatever its
      `action`. */
  lemma NormalizeSpec(result: Dict)
    ensures HasKey(result, "links") || !HasKey(result, "link") ==> Normalize(result) == result
    ensures HasKey(result, "link") && !HasKey(result, "links") ==>
      var link := GetOrNull(result, "link");
      Normalize(result) == result + [Field("links", if Truthy(link) then Arr([link]) else Arr([]))]
    ensures HasKey(result, "link") ==> HasKey(Normalize(result), "links")
    ensures forall k :: k != "links" ==> Get(Normalize(result), k) == Get(result, k)
  {
  }

  /** The object the `i`-th message yields: only a final response counts, and only when
      its greedy `{...}` block parses (`parse` stands for `json.loads`, which on a text
      that starts with `{` and ends with `}` gives an object or fails). */
  function ParsedAt(messages: seq<Message>, parse: string -> Option<Dict>, i: nat): Option<Dict>
    requires i < |messages|
  {
    if !messages[i].isFinal then None
    else match ExtractJsonBlock(messages[i].text)
      case None => None
      case Some(block) => parse(block)
  }

  /** `decide`'s loop over the runner's messages: the first message that yields an
      object wins, normalised; a parse failure falls through to the next message; with
      none, the default decision. */
  method Decide(messages: seq<Message>, parse: string -> Option<Dict>) returns (r: Dict)
    ensures (forall k :: 0 <= k < |messages| ==> ParsedAt(messages, parse, k).None?) ==>
      r == DefaultDecision
    ensures forall k ::
      (0 <= k < |messages| && ParsedAt(messages, parse, k).Some?
       && (forall k' :: 0 <= k' < k ==> ParsedAt(messages, parse, k').None?)) ==>
      r == Normalize(ParsedAt(messages, parse, k).value)
  {
    for i := 0 to |messages|
      invariant forall k :: 0 <= k < i ==> ParsedAt(messages, parse, k).None?
    {
      if messages[i].isFinal {
        var block := ExtractJsonBlock(messages[i].text);
        if block.Some? {
          var parsed := parse(block.value);
          assert parsed == ParsedAt(messages, parse, i);
          if parsed.Some? {
            return Normalize(parsed.value);
          }
        }
      }
    }
    return DefaultDecision;
  }
}
