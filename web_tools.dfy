/** The record bookkeeping of web_tools.py: `merge_event_info`, which fills a
    caller's record in place, and the upsert loop of `save_event_data`, which folds a
    batch of events into the saved list by `"url"`. */
module WebTools {

  import opened Wrappers
  import opened Text
  import opened PyJson

  /** A record the caller holds a reference to. */
  class EventRecord {
    var fields: Dict

    constructor(fields: Dict)
      ensures this.fields == fields
    {
      this.fields := fields;
    }
  }

  /** `key in base and base[key]`. */
  predicate Filled(base: Dict, key: string) {
    Truthy(GetOrNull(base, key))
  }

  /** The record after the fill loop has visited `items`. */
  function Fill(base: Dict, items: seq<Field>): Dict {
    if items == [] then base
    else
      var m := Fill(base, items[..|items| - 1]);
      var f := items[|items| - 1];
      if Filled(m, f.key) then m else Put(m, f.key, f.val)
  }

  /** `merge_event_info(base_event, new_event)`: assigns into the caller's record and
      returns that same record. */
  method MergeEventInfo(base: EventRecord, incoming: Dict) returns (r: EventRecord)
    modifies base
    ensures r == base
    ensures base.fields == Fill(old(base.fields), incoming)
  {
    for i := 0 to |incoming|
      invariant base.fields == Fill(old(base.fields), incoming[..i])
    {
      assert incoming[..i + 1][..i] == incoming[..i];
      var key, value := incoming[i].key, incoming[i].val;
      if !Filled(base.fields, key) {
        base.fields := Put(base.fields, key, value);
      }
    }
    assert incoming[..|incoming|] == incoming;
    return base;
  }

  /** A key the base holds truthily never changes; every other key of the incoming
      record takes its value, even a falsy one; keys absent from it are untouched;
      existing keys keep their positions. */
  lemma {:induction false} FillAt(base: Dict, items: seq<Field>, k: string)
    requires DistinctKeys(items)
    ensures Get(Fill(base, items), k) ==
      if HasKey(items, k) && !Filled(base, k) then Get(items, k) else Get(base, k)
    ensures |Fill(base, items)| >= |base|
    ensures forall i :: 0 <= i < |base| ==> Fill(base, items)[i].key == base[i].key
    decreases |items|
  {
    if items != [] {
      var n := |items| - 1;
      var prefix, f := items[..n], items[n];
      assert items == prefix + [f];
      assert DistinctKeys(prefix);
      GetAppend(prefix, f, k);
      FillAt(base, prefix, k);
      FillAt(base, prefix, f.key);
      if f.key == k {
        assert !HasKey(prefix, k);
      }
    }
  }

  /** `next((i for i, e in enumerate(data) if e["url"] == event["url"]), None)`,
      scanning from `from`: `e["url"]` is read before `event["url"]`, and either raises
      `KeyError` when missing. */
  function FindEntry(data: seq<Dict>, event: Dict, from: nat): (r: Result<Option<nat>, PyError>)
    requires from <= |data|
    ensures r.Ok? && r.value.Some? ==>
      from <= r.value.value < |data|
      && HasKey(data[r.value.value], "url") && HasKey(event, "url")
      && Get(data[r.value.value], "url") == Get(event, "url")
    ensures r.Ok? ==>
      forall j :: from <= j < |data| && (r.value.None? || j < r.value.value) ==>
        HasKey(data[j], "url") && HasKey(event, "url") && Get(data[j], "url") != Get(event, "url")
    ensures r.Err? ==> r.error == KeyError
    decreases |data| - from
  {
    if from == |data| then Ok(None)
    else if !HasKey(data[from], "url") || !HasKey(event, "url") then Err(KeyError)
    else if Get(data[from], "url") == Get(event, "url") then Ok(Some(from))
    else FindEntry(data, event, from + 1)
  }

  /** `len(str(event)) > len(str(entry))`. */
  predicate Longer(event: Dict, entry: Dict) {
    |Show(Obj(event))| > |Show(Obj(entry))|
  }

  /** One event folded into the list: a matching entry is `update`d with it when
      `len(str(event))` exceeds the entry's, and kept otherwise; with no match the
      event is appended. */
  function UpsertOne(data: seq<Dict>, event: Dict): Result<seq<Dict>, PyError> {
    match FindEntry(data, event, 0)
    case Err(e) => Err(e)
    case Ok(None) => Ok(data + [event])
    case Ok(Some(i)) =>
      Ok(if Longer(event, data[i]) then data[i := Update(data[i], event)] else data)
  }

  /** The list after the loop over `events`, or the exception it raises. */
  function Upserted(data: seq<Dict>, events: seq<Dict>): Result<seq<Dict>, PyError> {
    if events == [] then Ok(data)
    else
      match Upserted(data, events[..|events| - 1])
      case Ok(d) => UpsertOne(d, events[|events| - 1])
      case Err(e) => Err(e)
  }

  /** An exception ends the loop. */
  lemma {:induction false} UpsertedErrPersists(data: seq<Dict>, events: seq<Dict>, n: nat)
    requires n <= |events| && Upserted(data, events[..n]).Err?
    ensures Upserted(data, events) == Upserted(data, events[..n])
  {
    if n < |events| {
      var prefix := events[..|events| - 1];
      assert prefix[..n] == events[..n];
      UpsertedErrPersists(data, prefix, n);
    } else {
      assert events[..n] == events;
    }
  }

  /** The in-memory part of `save_event_data(events)`, from the loaded list. */
  method UpsertEvents(existing: seq<Dict>, events: seq<Dict>) returns (r: Result<seq<Dict>, PyError>)
    ensures r == Upserted(existing, events)
  {
    var data := existing;
    for i := 0 to |events|
      invariant Upserted(existing, events[..i]) == Ok(data)
    {
      assert events[..i + 1][..i] == events[..i];
      var event := events[i];
      var found := FindEntry(data, event, 0);
      if found.Err? {
        UpsertedErrPersists(existing, events, i + 1);
        return Err(found.error);
      }
      match found.value {
        case Some(idx) =>
          if |Show(Obj(event))| > |Show(Obj(data[idx]))| {
            data := data[idx := Update(data[idx], event)];
          }
        case None =>
          data := data + [event];
      }
    }
    assert events[..|events|] == events;
    return Ok(data);
  }

  /** Every record in the list is a proper dict. */
  predicate AllDistinct(data: seq<Dict>) {
    forall j :: 0 <= j < |data| ==> DistinctKeys(data[j])
  }

  /** The URL a record is filed under. */
  function UrlOf(d: Dict): Json {
    GetOrNull(d, "url")
  }

  /** The URLs of the list, entry by entry. */
  function UrlsOf(data: seq<Dict>): (r: seq<Json>)
    ensures |r| == |data| && forall j :: 0 <= j < |data| ==> r[j] == UrlOf(data[j])
  {
    seq(|data|, j requires 0 <= j < |data| => UrlOf(data[j]))
  }

  /** One fold step keeps every entry in place with its URL, leaves entries of other
      URLs as they were, and ends with an entry for the event's URL. */
  lemma UpsertOneSpec(data: seq<Dict>, event: Dict)
    requires AllDistinct(data) && DistinctKeys(event)
    ensures UpsertOne(data, event).Ok? ==>
      var d := UpsertOne(data, event).value;
      AllDistinct(d) && |d| >= |data| && UrlsOf(d)[..|data|] == UrlsOf(data)
      && (forall j :: 0 <= j < |data| && UrlOf(data[j]) != UrlOf(event) ==> d[j] == data[j])
      && UrlOf(event) in UrlsOf(d)
  {
    match FindEntry(data, event, 0)
    case Err(_) =>
    case Ok(None) => AppendEntry(data, event);
    case Ok(Some(i)) => FoundEntry(data, i, event);
  }

  /** Appending a new event keeps the list and adds its URL. */
  lemma AppendEntry(data: seq<Dict>, event: Dict)
    requires AllDistinct(data) && DistinctKeys(event)
    ensures var d := data + [event];
      AllDistinct(d) && UrlsOf(d)[..|data|] == UrlsOf(data) && UrlOf(event) in UrlsOf(d)
      && forall j :: 0 <= j < |data| ==> d[j] == data[j]
  {
    var d := data + [event];
    assert UrlsOf(d)[|data|] == UrlOf(event);
    assert UrlsOf(d)[..|data|] == UrlsOf(data);
  }

  /** Updating the entry with the event's URL, or keeping it, keeps the URL column and
      every other entry. */
  lemma FoundEntry(data: seq<Dict>, i: nat, event: Dict)
    requires i < |data| && AllDistinct(data) && DistinctKeys(event)
    requires HasKey(event, "url") && Get(data[i], "url") == Get(event, "url")
    ensures var d := if Longer(event, data[i]) then data[i := Update(data[i], event)] else data;
      AllDistinct(d) && |d| == |data| && UrlsOf(d) == UrlsOf(data) && UrlOf(event) in UrlsOf(d)
      && forall j :: 0 <= j < |data| && j != i ==> d[j] == data[j]
  {
    var d := if Longer(event, data[i]) then data[i := Update(data[i], event)] else data;
    if Longer(event, data[i]) {
      UpdateEntry(data, i, event);
    }
    assert UrlsOf(d)[i] == UrlOf(event);
  }

  /** `data[i].update(event)` for an event with the entry's URL keeps that URL and
      touches no other entry. */
  lemma UpdateEntry(data: seq<Dict>, i: nat, event: Dict)
    requires i < |data| && AllDistinct(data) && DistinctKeys(event)
    requires HasKey(event, "url") && Get(data[i], "url") == Get(event, "url")
    ensures var d := data[i := Update(data[i], event)];
      AllDistinct(d) && |d| == |data|
      && (forall j :: 0 <= j < |data| ==> UrlOf(d[j]) == UrlOf(data[j]))
      && (forall j :: 0 <= j < |data| && j != i ==> d[j] == data[j])
  {
    var u := Update(data[i], event);
    LastValueDistinct(event, "url");
    assert Get(u, "url") == Get(data[i], "url");
    var d := data[i := u];
    forall j | 0 <= j < |d|
      ensures DistinctKeys(d[j]) && UrlOf(d[j]) == UrlOf(data[j])
    {
      if j == i {
        assert d[j] == u;
      }
    }
  }

  /** Over the whole batch, entries never move and keep their URLs, and entries whose
      URL no event carries are unchanged. */
  lemma {:induction false} UpsertedKeeps(data: seq<Dict>, events: seq<Dict>)
    requires AllDistinct(data) && AllDistinct(events)
    ensures Upserted(data, events).Ok? ==>
      var d := Upserted(data, events).value;
      AllDistinct(d) && |d| >= |data| && UrlsOf(d)[..|data|] == UrlsOf(data)
      && (forall j :: 0 <= j < |data| && (forall i :: 0 <= i < |events| ==> UrlOf(events[i]) != UrlOf(data[j]))
            ==> d[j] == data[j])
  {
    if events != [] && Upserted(data, events).Ok? {
      var n := |events| - 1;
      var prefix := events[..n];
      assert AllDistinct(prefix);
      UpsertedKeeps(data, prefix);
      var d0 := Upserted(data, prefix).value;
      UpsertOneSpec(d0, events[n]);
      var d := Upserted(data, events).value;
      assert UrlsOf(d)[..|d0|][..|data|] == UrlsOf(d)[..|data|];
      assert forall i :: 0 <= i < n ==> prefix[i] == events[i];
    }
  }

  /** After the batch, every event's URL has an entry in the list. */
  lemma {:induction false} UpsertedCovers(data: seq<Dict>, events: seq<Dict>)
    requires AllDistinct(data) && AllDistinct(events)
    ensures Upserted(data, events).Ok? ==>
      forall i :: 0 <= i < |events| ==> UrlOf(events[i]) in UrlsOf(Upserted(data, events).value)
  {
    if events != [] && Upserted(data, events).Ok? {
      var n := |events| - 1;
      var prefix := events[..n];
      assert AllDistinct(prefix);
      UpsertedCovers(data, prefix);
      UpsertedKeeps(data, prefix);
      var d0 := Upserted(data, prefix).value;
      UpsertOneSpec(d0, events[n]);
      assert events == prefix + [events[n]];
      CoverStep(UrlsOf(d0), UrlsOf(Upserted(data, events).value), prefix, events[n]);
    }
  }

  /** Covering survives a step that keeps the earlier URLs in place and covers the new
      event. */
  lemma CoverStep(urls0: seq<Json>, urls: seq<Json>, covered: seq<Dict>, event: Dict)
    requires forall i :: 0 <= i < |covered| ==> UrlOf(covered[i]) in urls0
    requires |urls| >= |urls0| && urls[..|urls0|] == urls0
    requires UrlOf(event) in urls
    ensures forall i :: 0 <= i < |covered + [event]| ==> UrlOf((covered + [event])[i]) in urls
  {
    forall i | 0 <= i < |covered|
      ensures UrlOf(covered[i]) in urls
    {
      var j :| 0 <= j < |urls0| && urls0[j] == UrlOf(covered[i]);
      assert urls[j] == urls0[j];
    }
  }
}
