/** Post-processing of model output in utils.py: the greedy brace-block search
    (`re.search(r'\{[\s\S]*\}', text)`) and the recursive emptiness test that
    decides whether an extracted record is worth storing. */
module LlmOutput {

  import opened Wrappers
  import opened Text
  import opened PyJson

  /** `{` at `i` and `}` at `j` after it: the ends of some match of `\{[\s\S]*\}`. */
  predicate BraceSpan(text: string, i: int, j: int) {
    0 <= i < j < |text| && text[i] == '{' && text[j] == '}'
  }

  /** `_extract_json_block(text)`: from the first `{` through the last `}`, when a `}`
      follows that `{`. */
  function ExtractJsonBlock(text: string): Option<string> {
    match Find(text, '{')
    case None => None
    case Some(i) =>
      match FindLast(text, '}')
      case Some(j) => if i < j then Some(text[i..j + 1]) else None
      case None => None
  }

  /** The block is what the regular expression finds: absent exactly when no `}`
      follows a `{`; otherwise the leftmost start, and from it the longest match. */
  lemma ExtractJsonBlockIsLeftmostLongest(text: string)
    ensures ExtractJsonBlock(text).None? <==> !exists i, j :: BraceSpan(text, i, j)
    ensures ExtractJsonBlock(text).Some? ==>
      exists i, j :: BraceSpan(text, i, j) && ExtractJsonBlock(text).value == text[i..j + 1]
        && forall i', j' :: BraceSpan(text, i', j') ==> i <= i' && j' <= j
  {
    match Find(text, '{')
    case None =>
    case Some(i) =>
      match FindLast(text, '}')
      case None =>
      case Some(j) =>
        if i < j {
          assert BraceSpan(text, i, j);
        } else {
          assert forall i', j' :: BraceSpan(text, i', j') ==> i <= i' && j' <= j;
        }
  }

  /** A found block starts with `{` and ends with `}`; no repair is attempted. */
  lemma ExtractJsonBlockShape(text: string)
    ensures ExtractJsonBlock(text).Some? ==>
      var b := ExtractJsonBlock(text).value;
      |b| >= 2 && b[0] == '{' && b[|b| - 1] == '}' && Contains(text, b)
  {
    match ExtractJsonBlock(text)
    case None =>
    case Some(b) =>
      var i := Find(text, '{').value;
      var j := FindLast(text, '}').value;
      SliceContained(text, i, j + 1);
  }

  /** The keys the emptiness test ignores. */
  predicate Ignored(key: string) {
    key == "source_url" || key == "last_updated"
  }

  /** `_has_meaningful_fields(d)`, reading the items of `d` from index `i` on. */
  predicate MeaningfulFields(fs: seq<Field>, i: nat)
    requires i <= |fs|
    decreases Obj(fs), 0, |fs| - i
  {
    if i == |fs| then false
    else if !Ignored(fs[i].key) && MeaningfulValue(fs[i].val) then true
    else MeaningfulFields(fs, i + 1)
  }

  /** Whether one value makes its item meaningful: dicts recursively, lists through
      their items, other values unless `None` or `''`. */
  predicate MeaningfulValue(v: Json)
    decreases v, 1
  {
    match v
    case Obj(fs) => MeaningfulFields(fs, 0)
    case Arr(xs) => MeaningfulItems(xs, 0)
    case Null => false
    case Str(s) => s != ""
    case Bool(_) => true
    case Num(_) => true
  }

  /** `any(has_meaningful(x) if isinstance(x, dict) else x for x in xs[i:])`. */
  predicate MeaningfulItems(xs: seq<Json>, i: nat)
    requires i <= |xs|
    decreases Arr(xs), 0, |xs| - i
  {
    if i == |xs| then false
    else if (match xs[i] case Obj(fs) => MeaningfulFields(fs, 0) case _ => Truthy(xs[i])) then true
    else MeaningfulItems(xs, i + 1)
  }

  /** `_has_meaningful_fields(event)`. */
  predicate HasMeaningfulFields(event: Dict) {
    MeaningfulFields(event, 0)
  }

  /** The loop with early return is an existential over the items. */
  lemma {:induction false} MeaningfulFieldsExists(fs: seq<Field>, i: nat)
    requires i <= |fs|
    ensures MeaningfulFields(fs, i) <==>
      exists k :: i <= k < |fs| && !Ignored(fs[k].key) && MeaningfulValue(fs[k].val)
    decreases |fs| - i
  {
    if i < |fs| {
      MeaningfulFieldsExists(fs, i + 1);
    }
  }

  /** `any(...)` over list items is an existential over the items. */
  lemma {:induction false} MeaningfulItemsExists(xs: seq<Json>, i: nat)
    requires i <= |xs|
    ensures MeaningfulItems(xs, i) <==>
      exists k :: i <= k < |xs| &&
        (if xs[k].Obj? then MeaningfulFields(xs[k].fields, 0) else Truthy(xs[k]))
    decreases |xs| - i
  {
    if i < |xs| {
      MeaningfulItemsExists(xs, i + 1);
    }
  }

  /** A record whose every item is ignored or holds `None`, `''`, `[]` or `{}` is not
      meaningful. */
  lemma EmptyRecordNotMeaningful(event: Dict)
    requires forall k :: 0 <= k < |event| ==>
      Ignored(event[k].key) || event[k].val in {Null, Str(""), Arr([]), Obj([])}
    ensures !HasMeaningfulFields(event)
  {
    MeaningfulFieldsExists(event, 0);
    forall k | 0 <= k < |event| && !Ignored(event[k].key)
      ensures !MeaningfulValue(event[k].val)
    {
      var v := event[k].val;
      assert v in {Null, Str(""), Arr([]), Obj([])};
      if v == Obj([]) {
        assert !MeaningfulFields([], 0);
      } else if v == Arr([]) {
        assert !MeaningfulItems([], 0);
      }
    }
  }

  /** A scalar `False` or `0` under a key that is not ignored makes the record
      meaningful, although neither is truthy. */
  lemma FalsyScalarsAreMeaningful(event: Dict, k: nat)
    requires k < |event| && !Ignored(event[k].key)
    requires event[k].val == Bool(false) || event[k].val == Num(0)
    ensures HasMeaningfulFields(event)
  {
    MeaningfulFieldsExists(event, 0);
  }

  /** Inside a list, a non-dict item counts only when truthy: `[0, False, '', []]` is
      not meaningful, while the same values directly under a key are, except `''`. */
  lemma ListItemsUseTruthiness()
    ensures !MeaningfulValue(Arr([Num(0), Bool(false), Str(""), Arr([])]))
    ensures MeaningfulValue(Num(0)) && MeaningfulValue(Bool(false))
  {
    var xs := [Num(0), Bool(false), Str(""), Arr([])];
    MeaningfulItemsExists(xs, 0);
  }

  /** The ignored keys never make a record meaningful: adding `source_url` and
      `last_updated` items changes nothing. */
  lemma IgnoredKeysDoNotCount(event: Dict, url: Json, stamp: Json)
    ensures HasMeaningfulFields(event + [Field("source_url", url), Field("last_updated", stamp)])
        == HasMeaningfulFields(event)
  {
    var e' := event + [Field("source_url", url), Field("last_updated", stamp)];
    MeaningfulFieldsExists(event, 0);
    MeaningfulFieldsExists(e', 0);
    if HasMeaningfulFields(event) {
      var k :| 0 <= k < |event| && !Ignored(event[k].key) && MeaningfulValue(event[k].val);
      assert e'[k] == event[k];
    }
  }
}
