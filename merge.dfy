/** `merge_event_data` (functions.py): a field-by-field merge of an incoming record
    into a copy of an existing one, with a policy per key, and a `last_updated`
    restamp. Records are values here, so the existing record is never changed. */
module Merge {

  import opened Wrappers
  import opened Text
  import opened PyJson

  /** The keys whose lists are merged by union. */
  predicate IsListKey(key: string) {
    key == "speakers" || key == "topics" || key == "prices"
  }

  /** `for x in v`: the items of a list, the one-character strings of a string, the
      keys of a dict; other values are not iterable. */
  function Iterate(v: Json): Option<seq<Json>> {
    match v
    case Arr(xs) => Some(xs)
    case Str(s) => Some(seq(|s|, i requires 0 <= i < |s| => Str([s[i]])))
    case Obj(fs) => Some(seq(|fs|, i requires 0 <= i < |fs| => Str(fs[i].key)))
    case _ => None
  }

  /** `len(v)`, defined on strings, lists and dicts. */
  function Len(v: Json): Option<nat> {
    match v
    case Str(s) => Some(|s|)
    case Arr(xs) => Some(|xs|)
    case Obj(fs) => Some(|fs|)
    case _ => None
  }

  /** `[x for x in xs if x not in existing]`: duplicates within `xs` are kept. */
  function Novel(xs: seq<Json>, existing: seq<Json>): (r: seq<Json>)
    ensures |r| <= |xs|
    ensures forall x :: x in r <==> x in xs && x !in existing
  {
    if xs == [] then []
    else (if xs[0] in existing then [] else [xs[0]]) + Novel(xs[1..], existing)
  }

  /** A value Python can hash: not a list and not a dict. */
  predicate Hashable(v: Json) {
    !v.Arr? && !v.Obj?
  }

  predicate AllHashable(xs: seq<Json>) {
    forall i :: 0 <= i < |xs| ==> Hashable(xs[i])
  }

  /** The exception `SequenceMatcher(None, a, b).ratio()` raises for a non-empty `a`,
      in the order it runs: indexing the items of `b` needs them iterable and hashable;
      the ratio needs `len(a)`; the longest-match search reads `a[0]`, `a[1]`, ... and
      hashes each, which a dict answers with `KeyError` as its keys are strings. */
  function MatcherError(a: Json, b: Json): Option<PyError> {
    match Iterate(b)
    case None => Some(TypeError)
    case Some(bs) =>
      if !AllHashable(bs) then Some(TypeError)
      else match Iterate(a)
        case None => Some(TypeError)
        case Some(items) =>
          if a.Obj? then Some(KeyError)
          else if !AllHashable(items) then Some(TypeError)
          else None
  }

  /** `event_name`: the existing name when `difflib` finds the two similar, both
      joined by ` / ` otherwise, or the exception `difflib` raises. */
  function CombineNames(existing: Json, incoming: Json, similar: (Json, Json) -> bool): Result<Json, PyError> {
    match MatcherError(existing, incoming)
    case Some(e) => Err(e)
    case None => Ok(if similar(existing, incoming) then existing else Str(Show(existing) + " / " + Show(incoming)))
  }

  /** The value a key gets when both the existing and the incoming value are truthy.
      `similar(a, b)` stands for `SequenceMatcher(None, a, b).ratio() >= 0.8`. */
  function Combine(key: string, existing: Json, incoming: Json,
                   similar: (Json, Json) -> bool): Result<Json, PyError> {
    if IsListKey(key) then
      match Iterate(incoming)
      case None => Err(TypeError)
      case Some(items) =>
        if existing.Arr? then Ok(Arr(existing.items + Novel(items, existing.items)))
        else Err(TypeError)
    else if key == "description" then
      match (Len(incoming), Len(existing))
      case (Some(n), Some(e)) => Ok(if n > e then incoming else existing)
      case _ => Err(TypeError)
    else if key == "dates" || key == "location" then
      Ok(if incoming != existing then Str(Show(existing) + "; " + Show(incoming)) else existing)
    else if key == "event_name" then CombineNames(existing, incoming, similar)
    else if key == "registration_url" then Ok(incoming)
    else Ok(existing)
  }

  /** Which names `difflib` can compare: strings always; lists of hashable items;
      a dict as the incoming name only. An existing dict name raises `KeyError`. */
  lemma EventNameErrors(existing: Json, incoming: Json, similar: (Json, Json) -> bool)
    ensures Combine("event_name", existing, incoming, similar).Ok? <==>
      (existing.Str? || (existing.Arr? && AllHashable(existing.items)))
      && (incoming.Str? || incoming.Obj? || (incoming.Arr? && AllHashable(incoming.items)))
    ensures existing.Obj? && (incoming.Str? || incoming.Obj?) ==>
      Combine("event_name", existing, incoming, similar) == Err(KeyError)
    ensures Combine("event_name", existing, incoming, similar) == Err(KeyError) ==> existing.Obj?
  {
    if existing.Str? || existing.Obj? {
      StringItemsHashable(existing);
    }
    if incoming.Str? || incoming.Obj? {
      StringItemsHashable(incoming);
    }
  }

  /** The items of a string and the keys of a dict are strings, hence hashable. */
  lemma StringItemsHashable(v: Json)
    requires v.Str? || v.Obj?
    ensures Iterate(v).Some? && AllHashable(Iterate(v).value)
  {
  }

  /** One iteration of the loop over the incoming items. */
  function Step(merged: Dict, item: Field, similar: (Json, Json) -> bool): Result<Dict, PyError> {
    if !Truthy(item.val) then Ok(merged)
    else
      var existing := GetOrNull(merged, item.key);
      if !Truthy(existing) then Ok(Put(merged, item.key, item.val))
      else
        match Combine(item.key, existing, item.val, similar)
        case Ok(v) => Ok(Put(merged, item.key, v))
        case Err(e) => Err(e)
  }

  /** The merged copy after the loop over `items`, or the exception it raises. */
  function MergeFields(existing: Dict, items: seq<Field>, similar: (Json, Json) -> bool): Result<Dict, PyError> {
    if items == [] then Ok(existing)
    else
      match MergeFields(existing, items[..|items| - 1], similar)
      case Ok(m) => Step(m, items[|items| - 1], similar)
      case Err(e) => Err(e)
  }

  /** The result of `merge_event_data`; `now` is the timestamp `datetime.now()` gives. */
  function MergedEvent(existing: Dict, incoming: Dict, similar: (Json, Json) -> bool,
                       now: string): Result<Dict, PyError> {
    match MergeFields(existing, incoming, similar)
    case Ok(m) => Ok(Put(m, "last_updated", Str(now)))
    case Err(e) => Err(e)
  }

  /** `merge_event_data(existing_event, new_event)`. */
  method MergeEventData(existing: Dict, incoming: Dict, similar: (Json, Json) -> bool,
                        now: string) returns (r: Result<Dict, PyError>)
    ensures r == MergedEvent(existing, incoming, similar, now)
  {
    var merged := existing;
    for i := 0 to |incoming|
      invariant MergeFields(existing, incoming[..i], similar) == Ok(merged)
    {
      assert incoming[..i + 1][..i] == incoming[..i];
      var key, value := incoming[i].key, incoming[i].val;
      if Truthy(value) {
        var current := GetOrNull(merged, key);
        if !Truthy(current) {
          merged := Put(merged, key, value);
        } else {
          var combined := Combine(key, current, value, similar);
          if combined.Err? {
            MergeFieldsErrPersists(existing, incoming, i + 1, similar);
            return Err(combined.error);
          }
          merged := Put(merged, key, combined.value);
        }
      }
    }
    assert incoming[..|incoming|] == incoming;
    merged := Put(merged, "last_updated", Str(now));
    return Ok(merged);
  }

  /** Where the merge of `item` into a record holding `existing` under its key raises. */
  predicate Clash(existing: Dict, item: Field, similar: (Json, Json) -> bool) {
    Truthy(item.val) && Truthy(GetOrNull(existing, item.key))
    && Combine(item.key, GetOrNull(existing, item.key), item.val, similar).Err?
  }

  /** What the loop leaves under one key `k`: the existing value when the incoming one
      is missing or falsy, the incoming value when the existing one is missing or
      falsy, and otherwise the key's policy. */
  lemma {:induction false} MergeFieldsAt(existing: Dict, items: seq<Field>,
                                        similar: (Json, Json) -> bool, k: string)
    requires DistinctKeys(items)
    requires MergeFields(existing, items, similar).Ok?
    ensures var m := MergeFields(existing, items, similar).value;
      var ev := GetOrNull(existing, k);
      (!HasKey(items, k) || !Truthy(Get(items, k).value) ==> Get(m, k) == Get(existing, k))
      && (HasKey(items, k) && Truthy(Get(items, k).value) && !Truthy(ev) ==>
            Get(m, k) == Get(items, k))
      && (HasKey(items, k) && Truthy(Get(items, k).value) && Truthy(ev) ==>
            Combine(k, ev, Get(items, k).value, similar).Ok?
            && Get(m, k) == Some(Combine(k, ev, Get(items, k).value, similar).value))
    decreases |items|
  {
    if items != [] {
      var n := |items| - 1;
      var prefix, f := items[..n], items[n];
      assert items == prefix + [f];
      assert DistinctKeys(prefix);
      GetAppend(prefix, f, k);
      MergeFieldsAt(existing, prefix, similar, k);
      var m0 := MergeFields(existing, prefix, similar).value;
      if f.key == k {
        assert !HasKey(prefix, k);
        assert Get(m0, k) == Get(existing, k);
      }
    }
  }

  /** The merge raises exactly when some incoming item clashes with the existing value
      under its key. */
  lemma {:induction false} MergeFieldsFails(existing: Dict, items: seq<Field>,
                                           similar: (Json, Json) -> bool)
    requires DistinctKeys(items)
    ensures MergeFields(existing, items, similar).Err? <==>
      exists i :: 0 <= i < |items| && Clash(existing, items[i], similar)
    decreases |items|
  {
    if items != [] {
      var n := |items| - 1;
      var prefix, f := items[..n], items[n];
      assert items == prefix + [f];
      assert DistinctKeys(prefix);
      MergeFieldsFails(existing, prefix, similar);
      assert forall i :: 0 <= i < n ==> items[i] == prefix[i];
      if MergeFields(existing, prefix, similar).Ok? {
        var m0 := MergeFields(existing, prefix, similar).value;
        GetAppend(prefix, f, f.key);
        assert !HasKey(prefix, f.key);
        MergeFieldsAt(existing, prefix, similar, f.key);
        assert Get(m0, f.key) == Get(existing, f.key);
      }
    }
  }

  /** `merge_event_data` restamps `last_updated` and gives every other key what the
      per-key rule says. */
  lemma MergedEventAt(existing: Dict, incoming: Dict, similar: (Json, Json) -> bool,
                      now: string, k: string)
    requires DistinctKeys(incoming)
    requires MergedEvent(existing, incoming, similar, now).Ok?
    ensures Get(MergedEvent(existing, incoming, similar, now).value, "last_updated") == Some(Str(now))
    ensures k != "last_updated" ==>
      var m := MergedEvent(existing, incoming, similar, now).value;
      var ev := GetOrNull(existing, k);
      (!HasKey(incoming, k) || !Truthy(Get(incoming, k).value) ==> Get(m, k) == Get(existing, k))
      && (HasKey(incoming, k) && Truthy(Get(incoming, k).value) && !Truthy(ev) ==>
            Get(m, k) == Get(incoming, k))
      && (HasKey(incoming, k) && Truthy(Get(incoming, k).value) && Truthy(ev) ==>
            Combine(k, ev, Get(incoming, k).value, similar).Ok?
            && Get(m, k) == Some(Combine(k, ev, Get(incoming, k).value, similar).value))
  {
    MergeFieldsAt(existing, incoming, similar, k);
  }

  /** Nothing is novel when every item is already present. */
  lemma {:induction false} NovelOfCovered(xs: seq<Json>, existing: seq<Json>)
    requires forall x :: x in xs ==> x in existing
    ensures Novel(xs, existing) == []
  {
    if xs != [] {
      NovelOfCovered(xs[1..], existing);
    }
  }

  /** An exception ends the loop: the result of a prefix that raised is the result. */
  lemma {:induction false} MergeFieldsErrPersists(existing: Dict, items: seq<Field>, n: nat,
                                                 similar: (Json, Json) -> bool)
    requires n <= |items| && MergeFields(existing, items[..n], similar).Err?
    ensures MergeFields(existing, items, similar) == MergeFields(existing, items[..n], similar)
  {
    if n < |items| {
      var prefix := items[..|items| - 1];
      assert prefix[..n] == items[..n];
      MergeFieldsErrPersists(existing, prefix, n, similar);
    } else {
      assert items[..n] == items;
    }
  }

  /** The list keys take the existing list followed by the incoming items it lacks,
      in incoming order and keeping duplicates among them. */
  lemma ListUnion(key: string, a: seq<Json>, b: seq<Json>, similar: (Json, Json) -> bool)
    requires IsListKey(key)
    ensures Combine(key, Arr(a), Arr(b), similar) == Ok(Arr(a + Novel(b, a)))
    ensures forall x :: x in Combine(key, Arr(a), Arr(b), similar).value.items <==> x in a || x in b
    ensures forall x :: x !in a ==> Novel([x, x], a) == [x, x]
  {
  }

  /** Merging a value with itself keeps it, for every key, when names are similar to
      themselves. */
  lemma CombineSelf(key: string, v: Json, similar: (Json, Json) -> bool)
    requires similar(v, v)
    requires IsListKey(key) ==> v.Arr?
    requires key == "description" ==> Len(v).Some?
    requires key == "event_name" ==> MatcherError(v, v).None?
    ensures Combine(key, v, v, similar) == Ok(v)
  {
    if IsListKey(key) {
      NovelOfCovered(v.items, v.items);
      assert v.items + [] == v.items;
    }
  }

  /** The values each key must have for a merge of a record with itself to succeed. */
  predicate WellTyped(record: Dict) {
    forall i :: 0 <= i < |record| && Truthy(record[i].val) ==>
      (IsListKey(record[i].key) ==> record[i].val.Arr?)
      && (record[i].key == "description" ==> Len(record[i].val).Some?)
      && (record[i].key == "event_name" ==> MatcherError(record[i].val, record[i].val).None?)
  }

  /** Merging a record into itself changes nothing but `last_updated`. */
  lemma MergeSelf(record: Dict, similar: (Json, Json) -> bool, now: string)
    requires DistinctKeys(record) && WellTyped(record)
    requires forall v :: similar(v, v)
    ensures MergedEvent(record, record, similar, now) == Ok(Put(record, "last_updated", Str(now)))
  {
    MergeSelfPrefix(record, |record|, similar);
    assert record[..|record|] == record;
  }

  lemma {:induction false} MergeSelfPrefix(record: Dict, n: nat, similar: (Json, Json) -> bool)
    requires n <= |record|
    requires DistinctKeys(record) && WellTyped(record)
    requires forall v :: similar(v, v)
    ensures MergeFields(record, record[..n], similar) == Ok(record)
  {
    if n > 0 {
      MergeSelfPrefix(record, n - 1, similar);
      assert record[..n][..n - 1] == record[..n - 1];
      var f := record[n - 1];
      GetDistinct(record, n - 1);
      if Truthy(f.val) {
        CombineSelf(f.key, f.val, similar);
        PutExisting(record, f.key);
      }
    }
  }
}
