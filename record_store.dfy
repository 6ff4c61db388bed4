/** Record-file keying of utils.py: `EventDataStore.store_event` and
    `get_stored_urls`, over the events folder seen as a map from file name to the
    record stored in it. */
module RecordStore {

  import opened Wrappers
  import opened Text
  import opened PyJson

  /** The events folder: file name -> stored record. */
  type Folder = map<string, Dict>

  /** `event.get('source_url') or event.get('url')`. */
  function KeyUrl(event: Dict): Json {
    var s := GetOrNull(event, "source_url");
    if Truthy(s) then s else GetOrNull(event, "url")
  }

  /** `event_<md5 of the URL>.json`; `digest` stands for `hashlib.md5(..).hexdigest()`. */
  function HashedName(digest: string -> string, url: string): string {
    "event_" + digest(url) + ".json"
  }

  /** Matches the glob `event_*.json`. */
  predicate MatchesEventGlob(name: string) {
    |name| >= 11 && name[..6] == "event_" && name[|name| - 5..] == ".json"
  }

  /** `event<digits>.json`, the shape of the count-based fallback names. */
  predicate IsNumberedName(name: string) {
    |name| > 10 && name[..5] == "event" && name[|name| - 5..] == ".json"
    && forall k :: 5 <= k < |name| - 5 ==> IsDigit(name[k])
  }

  function NumberOf(name: string): nat
    requires IsNumberedName(name)
  {
    var digits := name[5..|name| - 5];
    assert forall k :: 0 <= k < |digits| ==> digits[k] == name[k + 5];
    ParseDecimal(digits)
  }

  /** `f"event{n}.json"`. */
  function NumberedName(n: nat): string {
    "event" + NatToDecimal(n) + ".json"
  }

  /** A numbered name is never matched by `event_*.json` and carries its number. */
  lemma NumberedNameShape(n: nat)
    ensures IsNumberedName(NumberedName(n)) && NumberOf(NumberedName(n)) == n
    ensures !MatchesEventGlob(NumberedName(n))
  {
    var name := NumberedName(n);
    var digits := NatToDecimal(n);
    assert name[5] == digits[0];
    assert name[5..|name| - 5] == digits;
    assert forall k :: 5 <= k < |name| - 5 ==> name[k] == digits[k - 5];
    DecimalRoundTrip(n);
  }

  /** A hashed name is matched by `event_*.json` and is not a numbered name. */
  lemma HashedNameShape(digest: string -> string, url: string)
    ensures MatchesEventGlob(HashedName(digest, url))
    ensures !IsNumberedName(HashedName(digest, url))
  {
    var name := HashedName(digest, url);
    assert name[..6] == "event_";
    assert name[|name| - 5..] == ".json";
    assert name[5] == '_';
  }

  /** The files `event_*.json` in the folder. */
  function GlobbedNames(files: Folder): set<string> {
    set n | n in files && MatchesEventGlob(n)
  }

  /** The numbered files in the folder. */
  function NumberedNames(files: Folder): set<string> {
    set n | n in files && IsNumberedName(n)
  }

  /** The fallback name AS WRITTEN: one more than the number of `event_*.json` files. */
  function FallbackNameAsWritten(files: Folder): string {
    NumberedName(|GlobbedNames(files)| + 1)
  }

  /** As written, the fallback name does not change when a record is stored under it,
      so the next record without a URL overwrites the previous one. */
  lemma FallbackNameAsWrittenRepeats(files: Folder, event: Dict)
    ensures var name := FallbackNameAsWritten(files);
      FallbackNameAsWritten(files[name := event]) == name
  {
    var name := FallbackNameAsWritten(files);
    NumberedNameShape(|GlobbedNames(files)| + 1);
    assert GlobbedNames(files[name := event]) == GlobbedNames(files);
  }

  /** From an empty folder, two records without a URL both go to `event1.json`. */
  lemma FallbackNameAsWrittenCollides(first: Dict, second: Dict)
    ensures FallbackNameAsWritten(map[]) == NumberedName(1)
    ensures FallbackNameAsWritten(map[NumberedName(1) := first]) == NumberedName(1)
  {
    assert GlobbedNames(map[]) == {};
    FallbackNameAsWrittenRepeats(map[], first);
  }

  /** The corrected fallback name: one more than the number of numbered files. */
  function FallbackName(files: Folder): string {
    NumberedName(|NumberedNames(files)| + 1)
  }

  /** No numbered file carries a number above the count of numbered files; true of an
      empty folder and kept by every store. */
  predicate NumbersBounded(files: Folder) {
    forall n :: n in files && IsNumberedName(n) ==> NumberOf(n) <= |NumberedNames(files)|
  }

  /** The corrected fallback name is always a new file. */
  lemma FallbackNameFresh(files: Folder)
    requires NumbersBounded(files)
    ensures FallbackName(files) !in files
  {
    NumberedNameShape(|NumberedNames(files)| + 1);
  }

  /** With the corrected fallback name, storing keeps the numbers bounded: so does
      storing under a name that is not numbered. */
  lemma StoreKeepsNumbersBounded(files: Folder, name: string, event: Dict)
    requires NumbersBounded(files)
    requires name == FallbackName(files) || !IsNumberedName(name)
    ensures NumbersBounded(files[name := event])
  {
    var files' := files[name := event];
    if name == FallbackName(files) {
      var c := |NumberedNames(files)|;
      FallbackNameFresh(files);
      NumberedNameShape(c + 1);
      assert NumberedNames(files') == NumberedNames(files) + {name};
      assert |NumberedNames(files')| == c + 1;
    } else {
      assert NumberedNames(files') == NumberedNames(files);
    }
  }

  /** The file `store_event` writes for `event`, or the exception it raises. */
  function StoreTarget(files: Folder, digest: string -> string, event: Dict): Result<string, PyError> {
    var url := KeyUrl(event);
    if Truthy(url) then
      if url.Str? then Ok(HashedName(digest, url.s)) else Err(AttributeError)
    else Ok(FallbackNameAsWritten(files))
  }

  /** The same URL always selects the same file, whatever the folder holds: a second
      store for it overwrites the first record. */
  lemma SameUrlSameFile(files1: Folder, files2: Folder, digest: string -> string, e1: Dict, e2: Dict)
    requires KeyUrl(e1) == KeyUrl(e2) && Truthy(KeyUrl(e1))
    ensures StoreTarget(files1, digest, e1) == StoreTarget(files2, digest, e2)
  {
  }

  /** A record without a URL goes to the numbered file one past the count of
      `event_*.json` files, a name `get_stored_urls` never reads and that may already
      hold a record; a record with a string URL goes to an `event_*.json` file. */
  lemma StoreTargetShape(files: Folder, digest: string -> string, event: Dict)
    ensures !Truthy(KeyUrl(event)) ==>
      StoreTarget(files, digest, event) == Ok(NumberedName(|GlobbedNames(files)| + 1))
      && IsNumberedName(StoreTarget(files, digest, event).value)
      && !MatchesEventGlob(StoreTarget(files, digest, event).value)
    ensures Truthy(KeyUrl(event)) && KeyUrl(event).Str? ==>
      StoreTarget(files, digest, event).Ok?
      && MatchesEventGlob(StoreTarget(files, digest, event).value)
      && !IsNumberedName(StoreTarget(files, digest, event).value)
    ensures Truthy(KeyUrl(event)) && !KeyUrl(event).Str? ==>
      StoreTarget(files, digest, event) == Err(AttributeError)
  {
    NumberedNameShape(|GlobbedNames(files)| + 1);
    if KeyUrl(event).Str? {
      HashedNameShape(digest, KeyUrl(event).s);
    }
  }

  /** Two records without a URL stored one after the other go to the same file: the
      second overwrites the first, whatever the folder held. */
  lemma UrlLessStoresCollide(files: Folder, digest: string -> string, e1: Dict, e2: Dict)
    requires !Truthy(KeyUrl(e1)) && !Truthy(KeyUrl(e2))
    ensures StoreTarget(files, digest, e1).Ok?
    ensures var name := StoreTarget(files, digest, e1).value;
      StoreTarget(files[name := e1], digest, e2) == Ok(name)
  {
    FallbackNameAsWrittenRepeats(files, e1);
  }

  /** A key URL `set.add` accepts and that passes `if url:`: truthy and hashable. */
  predicate Reportable(url: Json) {
    Truthy(url) && !url.Arr? && !url.Obj?
  }

  /** What `get_stored_urls` returns for a folder. */
  function StoredUrls(files: Folder): set<Json> {
    ReportedUrls(files, GlobbedNames(files))
  }

  /** The reportable key URLs of the records `names` of the folder. */
  function ReportedUrls(files: Folder, names: set<string>): set<Json> {
    set n | n in names && n in files && Reportable(KeyUrl(files[n])) :: KeyUrl(files[n])
  }

  /** Reading one more record adds its URL when it is reportable. */
  lemma ReportedUrlsAdd(files: Folder, names: set<string>, name: string)
    requires name in files
    ensures ReportedUrls(files, names + {name}) ==
      ReportedUrls(files, names) + (if Reportable(KeyUrl(files[name])) then {KeyUrl(files[name])} else {})
  {
  }

  /** After a record with a string URL is stored, `get_stored_urls` reports that URL. */
  lemma StoredUrlReported(files: Folder, digest: string -> string, event: Dict)
    requires Truthy(KeyUrl(event)) && KeyUrl(event).Str?
    ensures StoreTarget(files, digest, event).Ok?
    ensures KeyUrl(event) in StoredUrls(files[StoreTarget(files, digest, event).value := event])
  {
    var name := HashedName(digest, KeyUrl(event).s);
    HashedNameShape(digest, KeyUrl(event).s);
    var files' := files[name := event];
    assert name in files' && MatchesEventGlob(name) && files'[name] == event;
  }

  /** The loop of `get_stored_urls` over the globbed records of `files`. */
  method ReadStoredUrls(files: Folder) returns (urls: set<Json>)
    ensures urls == StoredUrls(files)
  {
    var names := GlobbedNames(files);
    ghost var all := names;
    ghost var done: set<string> := {};
    urls := {};
    while names != {}
      invariant names <= files.Keys
      invariant names + done == all
      invariant urls == ReportedUrls(files, done)
      decreases |names|
    {
      var name :| name in names;
      var url := KeyUrl(files[name]);
      ReportedUrlsAdd(files, done, name);
      if Reportable(url) {
        urls := urls + {url};
      }
      names := names - {name};
      done := done + {name};
    }
  }

  class EventDataStore {
    /** The events folder. */
    var files: Folder
    /** `hashlib.md5(url.encode()).hexdigest()`. */
    const digest: string -> string

    constructor(digest: string -> string)
      ensures files == map[] && this.digest == digest
    {
      files := map[];
      this.digest := digest;
    }

    /** `store_event(event)`: writes the record under its file name, replacing any
        record already there, and returns that name. */
    method StoreEvent(event: Dict) returns (r: Result<string, PyError>)
      modifies this
      ensures r == StoreTarget(old(files), digest, event)
      ensures r.Ok? ==> files == old(files)[r.value := event]
      ensures r.Err? ==> files == old(files)
    {
      var url := KeyUrl(event);
      var name;
      if Truthy(url) {
        if !url.Str? {
          return Err(AttributeError);
        }
        name := "event_" + digest(url.s) + ".json";
      } else {
        var count := |set n | n in files && MatchesEventGlob(n)| + 1;
        name := "event" + NatToDecimal(count) + ".json";
      }
      files := files[name := event];
      r := Ok(name);
    }

    /** `get_stored_urls()`: the truthy key URLs of the `event_*.json` records. */
    method GetStoredUrls() returns (urls: set<Json>)
      ensures urls == StoredUrls(files)
    {
      urls := ReadStoredUrls(files);
    }
  }
}
