# event-scraper crawl core in Dafny

This project models the crawl and ingestion core of the event-scraper, a crawler that looks for AI/ML conference pages. It covers:

- **URL frontier.** `clean_url`, `is_valid_url` and `extract_unique_urls`, and the `URLManager` that queues discovered URLs and hands them out once each.
- **Document store.** The `DocumentCollector` that holds fetched pages until they are processed.
- **Model-output handling.** Cutting the JSON block out of the language model's reply (`_extract_json_block`), the emptiness filter (`_has_meaningful_fields`), and the navigation decision `NavigationAgent.decide`.
- **Record store.** `EventDataStore`, which stores events as JSON files, one per URL plus numbered files for events without one, and lists the stored URLs.
- **Record merging.** `merge_event_data` (functions.py), `merge_event_info` (web_tools.py), and the upsert loop of `save_event_data`.
- **Text helpers.** `clean_text`, `extract_topics`, `extract_prices` and `standardize_date`.

Representations:

- **JSON values.** A `Json` datatype. A dict is its item list in insertion order (`PyJson.Dict`). Item lookup, assignment and `update` are proved to behave like Python's.
- **Objects the source mutates in place.** Each is a class:
  - `Frontier.UrlManager`;
  - `Documents.DocumentCollector`;
  - `RecordStore.EventDataStore`, where the events folder is a map from file name to record;
  - `WebTools.EventRecord`, the dict `merge_event_info` assigns into.
- **Loops.** The loops of the source are methods with loop invariants, each proved equal to a specification function about which the properties are proved. The one exception is the loop of `_has_meaningful_fields`, whose early return makes it an existential: it is the recursive `LlmOutput.MeaningfulFields`, with `MeaningfulFieldsExists` stating the existential.
- **Regular expressions.** The fixed patterns of `extract_topics`, `extract_prices` and `standardize_date` are values of a small pattern language (`Pattern.Pat`), with a matcher and a `finditer` scan (`Pattern.FindAll`).

## Model

| member | source | states |
|---|---|---|
| Urls.CleanUrlShape | functions.py:7-37 | A cleaned URL is empty or starts with `http://`/`https://`, has no surrounding whitespace, no parentheses and no `[...]` group, and parses with scheme http or https |
| Urls.CleanUrlIsCleaned | functions.py:17-24 | `clean_url` returns either `''` or the text left after removing `[...]`, parentheses and surrounding whitespace, unchanged (the `/` and `https://` branches never fire) |
| Urls.CleanUrlAccepted | functions.py:23-35 | A non-empty result starts with an http(s) prefix and `urlparse` does not raise on it |
| Urls.CleanUrlIdempotent | functions.py:7-37 | Cleaning a cleaned URL changes nothing |
| Urls.CleanedIsClean | functions.py:18-20 | After the two substitutions and `strip`, no bracket group, no parenthesis and no surrounding whitespace is left |
| Urls.CleanedTwice | functions.py:18-20 | The removal of markdown artefacts is idempotent |
| Urls.CleanUrlOfCleaned | functions.py:17-37 | `clean_url` depends only on the cleaned text |
| Urls.CleanUrlRejectsOtherSchemes | functions.py:23-24 | Any input opening with a plain prefix not starting with `h` (such as `javascript:`, `mailto:`, `data:`, `ftp://`) is rejected |
| Urls.OtherSchemesArePlain | functions.py:23 | `javascript:`, `mailto:`, `data:` and `ftp://` are such prefixes |
| Urls.CleanedKeepsPrefix | functions.py:18-20 | Cleaning keeps a prefix free of brackets, parentheses and edge whitespace |
| Urls.SplitUrlRaises | functions.py:32 | `urlparse` raises exactly for an unmatched bracket or a bracketed network location `_check_bracketed_netloc` refuses, and otherwise reports the network location `_splitnetloc` cuts |
| Urls.TextBeforeBracketRefused | functions.py:32 | Text in front of the `[` after the last `@` (as in `a]b[conference.com`) makes `urlparse` raise |
| Urls.TextAfterBracketRefused | functions.py:32 | After the `]` of a bracketed host only `:port` or nothing may follow, or `urlparse` raises |
| Urls.CleanUrlRefusesBadNetloc | functions.py:31-37 | `clean_url` returns `''` when `urlparse` raises on the cleaned text's network location |
| Urls.SplitUrlScheme | functions.py:32-34 | The scheme `urlparse` reports is the lower-cased text before the first `:` when it is a valid scheme |
| Urls.SchemeOfHttpUrl | functions.py:32-34 | A URL starting with `http://` or `https://` parses with scheme `http` or `https` |
| Urls.ContainsAnyMeans | functions.py:99 | `any(term in s for term in terms)` holds exactly when some term occurs in `s` |
| Urls.IsValidHttpUrl | functions.py:77-100 | For an http(s) URL, validity is exactly a non-empty host plus an event term or `2025` in the lower-cased host and path |
| Urls.IsValidCleanUrl | functions.py:61-100 | For a cleaned URL the scheme checks always pass, so validity is exactly host non-empty and event-like |
| Urls.DataUrlInvalid | functions.py:79-80 | A `data:` URL is never valid |
| Urls.AcceptedUrls | functions.py:61-62 | The list of cleaned, valid candidates holds only non-empty valid URLs |
| Urls.AcceptedUrlsHas | functions.py:61-62 | Every candidate whose cleaned form is non-empty and valid is in the list |
| Urls.ExtractUniqueUrls | functions.py:39-65 | The result is the first-occurrence deduplication of the cleaned valid candidates: it is distinct, every entry is valid, and every valid cleaned candidate appears |
| Seqs.DedupFirstOccurrenceOrder | functions.py:65 | `list(dict.fromkeys(xs))` lists elements in the order of their first occurrence |
| Seqs.DedupOfDistinct | functions.py:65 | Deduplicating a list without duplicates returns it unchanged |
| Frontier.AdmittedExactly | utils.py:116-124 | `add_urls` admits exactly the cleaned, non-empty, not yet seen inputs, each once |
| Frontier.AdmittedFresh | utils.py:120-124 | The admitted URLs are distinct and none of them was discovered or processed before |
| Frontier.AdmittedHas | utils.py:120-124 | Every input with a non-empty cleaned form is already seen or is admitted |
| Frontier.Admit | utils.py:120-124 | The loop appends the admitted URLs to the queue and the discovered set, in order of first occurrence |
| Frontier.SkipProcessed | utils.py:129-131 | The URLs skipped at the front are all processed, and what remains starts with an unprocessed URL |
| Frontier.SkipNothing | utils.py:129-133 | A queue without processed URLs is served from its head |
| Frontier.PopUnprocessed | utils.py:129-134 | The loop drops processed URLs from the front and pops the first unprocessed one, which was queued and not processed; with none left the queue ends empty and `None` is returned |
| Frontier.AdmitKeepsInvariant | utils.py:116-124 | Adding fresh distinct URLs preserves the frontier invariant (queue distinct, unprocessed and discovered; processed ⊆ discovered; processed = served) |
| Frontier.ServeKeepsInvariant | utils.py:127-133 | Serving the queue head preserves the frontier invariant |
| Frontier.UrlManager.constructor | utils.py:107-110 | A new manager has empty sets and an empty queue |
| Frontier.UrlManager.AddUrls | utils.py:116-125 | The queue grows by the admitted URLs and the discovered set by the same URLs; the processed set is unchanged; the invariant is kept |
| Frontier.UrlManager.GetNextUrl | utils.py:127-134 | Processed URLs are dropped from the front; the first unprocessed one is returned and marked processed, or `None` is returned with an empty queue; no URL is ever served twice |
| Documents.Unprocessed | utils.py:174-177 | The listed documents are exactly the stored ones whose URL is not processed |
| Documents.Without | utils.py:184-185 | `del documents[url]` removes exactly the document for that URL |
| Documents.WithoutUnique | utils.py:184-185 | Deleting keeps URLs unique |
| Documents.MarkedStaysHidden | utils.py:171-185 | Once a URL is marked processed, no document for it is listed again, whatever is added afterwards |
| Documents.MarkedThenAdded | utils.py:183-185 | After marking, the collector holds no document for the URL, so a later `add_document` for it is accepted |
| Documents.DocumentCollector.constructor | utils.py:155-158 | A new collector is empty |
| Documents.DocumentCollector.AddDocument | utils.py:143-169 | A document is appended only if none is stored for the URL, otherwise nothing changes; the new document holds the URL, page source and title, no extracted text and no links, the current timestamp, and the given metadata or `{}` |
| Documents.DocumentCollector.GetUnprocessedDocuments | utils.py:171-178 | Returns the unprocessed documents in insertion order |
| Documents.DocumentCollector.MarkProcessed | utils.py:180-185 | The URL joins the processed set and its document is removed |
| PyJson.Get | utils.py:74 | `d.get(k)` finds a value exactly when `k` is a key |
| PyJson.Put | functions.py:178 | `d[k] = v` sets `k`, leaves every other key alone, keeps positions, appends a new key, and keeps keys distinct |
| PyJson.PutExisting | functions.py:169-178 | Writing back a key's own value changes nothing |
| PyJson.GetAppend | web_tools.py:112 | Looking up in a dict with one more item |
| PyJson.GetDistinct | functions.py:171 | In a dict, every item is what `get` finds for its key |
| PyJson.Update | web_tools.py:263 | `d.update(e)`: each key of `e` takes its last value in `e`, and other keys keep theirs |
| PyJson.LastValueDistinct | web_tools.py:263 | In a dict, the last value for a key is its only value |
| RecordStore.NumberedNameShape | utils.py:81-82 | The fallback name `event{n}.json` carries `n` and never matches the glob `event_*.json` |
| RecordStore.HashedNameShape | utils.py:77-78 | A hashed name matches `event_*.json` and is never a fallback name |
| RecordStore.FallbackNameAsWrittenRepeats | utils.py:81-82 | As written, storing under the fallback name leaves the fallback name unchanged |
| RecordStore.FallbackNameAsWrittenCollides | utils.py:81-82 | As written, two URL-less records stored into an empty folder both go to `event1.json` |
| RecordStore.UrlLessStoresCollide | utils.py:74-85 | As written, two records without a URL stored one after the other go to the same file, whatever the folder held, so the second overwrites the first |
| RecordStore.FallbackNameFresh | utils.py:81-82 | Corrected: counting the numbered files instead, the fallback name is always a new file |
| RecordStore.StoreKeepsNumbersBounded | utils.py:73-85 | Corrected: a store under the corrected fallback name or under a hashed name keeps the numbered files' numbers within their count, which makes the corrected name fresh |
| RecordStore.SameUrlSameFile | utils.py:74-78 | Records with the same truthy key URL go to the same file, whatever the folder holds |
| RecordStore.StoreTargetShape | utils.py:74-82 | A URL-less record goes to `event{n}.json` with `n` one past the count of `event_*.json` files, a numbered name the glob never matches; a string URL goes to a hashed `event_*.json` file; a truthy non-string URL raises `AttributeError` |
| RecordStore.StoredUrlReported | utils.py:69-102 | After a record with a string URL is stored, `get_stored_urls` reports that URL |
| RecordStore.ReadStoredUrls | utils.py:92-102 | The loop over the globbed files collects exactly the truthy hashable key URLs of the `event_*.json` records |
| RecordStore.EventDataStore.constructor | utils.py:65-68 | A new store has an empty folder and the given digest |
| RecordStore.EventDataStore.StoreEvent | utils.py:69-89 | Writes the record under the file `store_event` picks (the hashed name, or the count-based fallback name, which may replace an earlier record) and returns that name; the folder is unchanged when the store raises |
| RecordStore.EventDataStore.GetStoredUrls | utils.py:90-102 | Returns the truthy hashable key URLs of the `event_*.json` records |
| LlmOutput.ExtractJsonBlockIsLeftmostLongest | utils.py:298-305 | The block is absent exactly when no `}` follows a `{`; otherwise it is the leftmost, longest `{...}` span |
| LlmOutput.ExtractJsonBlockShape | utils.py:298-305 | A block starts with `{`, ends with `}`, has at least two characters and occurs in the text |
| LlmOutput.MeaningfulFieldsExists | utils.py:310-321 | The loop with early return holds exactly when some item with a non-ignored key has a meaningful value |
| LlmOutput.MeaningfulItemsExists | utils.py:317 | A list is meaningful exactly when some dict item is meaningful or some other item is truthy |
| LlmOutput.EmptyRecordNotMeaningful | utils.py:319 | A record whose values are all `None`, `''`, `[]` or `{}` is not meaningful |
| LlmOutput.FalsyScalarsAreMeaningful | utils.py:319 | A scalar `False` or `0` makes a record meaningful, since only the four empty values are excluded |
| LlmOutput.ListItemsUseTruthiness | utils.py:317-319 | Inside a list, `0`, `False`, `''` and `[]` do not count, though `0` and `False` count at the top level |
| LlmOutput.IgnoredKeysDoNotCount | utils.py:311-312 | Adding `source_url` and `last_updated` items never changes the verdict |
| Navigation.Take | navigation_agent.py:36-39 | A Python slice `s[:n]` is the first `min(len(s), n)` elements |
| Navigation.PromptSlotsBounded | navigation_agent.py:36-39 | The prompt's text slot is a prefix of the page text of at most 2000 characters, and every one of the first 20 links occurs in its link slot |
| Navigation.NormalizeSpec | navigation_agent.py:67-68 | `links` is added, last, only when `link` is present and `links` is not; it is `[link]` for a truthy link and `[]` otherwise; no other key changes |
| Navigation.Decide | navigation_agent.py:58-72 | The first final message whose JSON block parses decides, normalised; with none, the result is `{"action": "extract", "links": []}` |
| Merge.Novel | functions.py:183 | `[x for x in new if x not in existing]` keeps exactly the incoming items the existing list lacks |
| Merge.MergeEventData | functions.py:158-209 | The loop computes the specification `MergedEvent`, including the exception the merge raises: a `TypeError` for a list or description it cannot combine, and `difflib`'s `TypeError` or `KeyError` for an `event_name` it cannot compare |
| Merge.MergeFieldsAt | functions.py:171-204 | Per key: a missing or falsy incoming value leaves the existing one; a falsy existing one is replaced; otherwise the key's policy applies |
| Merge.MergeFieldsFails | functions.py:171-204 | The merge raises exactly when some truthy incoming value meets a truthy existing value of a type its policy cannot combine, including the `TypeError` and `KeyError` `difflib` raises for `event_name` |
| Merge.EventNameErrors | functions.py:196-200 | `SequenceMatcher` compares an `event_name` exactly when the existing one is a string or a list of hashable items and the incoming one a string, a dict or such a list; an existing dict raises `KeyError` against a string or a dict, and nothing else raises `KeyError` |
| Merge.MergedEventAt | functions.py:158-209 | The result has `last_updated` set to the timestamp and every other key as the per-key rule says |
| Merge.MergeFieldsErrPersists | functions.py:171-204 | An exception ends the merge |
| Merge.NovelOfCovered | functions.py:183 | When every incoming item is already present, nothing is added |
| Merge.ListUnion | functions.py:181-184 | `speakers`, `topics` and `prices` become the existing list followed by the missing incoming items; the elements are the union; duplicates among the incoming items are kept |
| Merge.CombineSelf | functions.py:181-204 | Combining a value with itself returns it, under every policy, whenever the policy does not raise on it |
| Merge.MergeSelf | functions.py:158-209 | Merging a record whose values every policy accepts (`WellTyped`: lists under the list keys, sized descriptions, names `difflib` can compare) into itself only restamps `last_updated` |
| Merge.MergeSelfPrefix | functions.py:171-204 | Merging a prefix of a record into the record changes nothing |
| WebTools.EventRecord.constructor | web_tools.py:98 | The record holds the given items |
| WebTools.MergeEventInfo | web_tools.py:98-113 | Fills the caller's record in place and returns that same record |
| WebTools.FillAt | web_tools.py:109-112 | A key the base holds truthily never changes; every other incoming key takes its incoming value, even a falsy one; other keys are untouched; positions are kept |
| WebTools.FindEntry | web_tools.py:257-258 | The index found is the first entry whose `url` equals the event's; a missing `url` raises `KeyError` |
| WebTools.UpsertEvents | web_tools.py:255-266 | The loop computes the specification `Upserted`, including the `KeyError` it raises |
| WebTools.UpsertedErrPersists | web_tools.py:255-266 | An exception ends the loop |
| WebTools.UpsertOneSpec | web_tools.py:257-266 | One event keeps every entry's URL in place, leaves entries with other URLs untouched, and leaves the event's URL in the list |
| WebTools.AppendEntry | web_tools.py:264-266 | Appending an event with a new URL keeps the earlier entries and their URLs, and the list then holds the event's URL |
| WebTools.FoundEntry | web_tools.py:260-263 | Updating the found entry, or leaving it when the event is not longer, keeps the URL column and every other entry |
| WebTools.UpdateEntry | web_tools.py:262-263 | `update` with a same-URL event keeps the URL column and touches no other entry |
| WebTools.UpsertedKeeps | web_tools.py:255-266 | The batch never removes or reorders entries, and leaves entries whose URL no event carries untouched |
| WebTools.UpsertedCovers | web_tools.py:255-266 | After the batch, every event's URL has an entry |
| WebTools.CoverStep | web_tools.py:255-266 | Coverage survives a step that keeps earlier URLs in place |
| Text.StripSpec | functions.py:127 | `strip()` keeps a contiguous part of the text, removes only whitespace, and leaves none at either end |
| Text.StripTwice | functions.py:127 | `strip()` is idempotent |
| Text.StripKeeps | functions.py:127 | `strip()` only removes characters |
| Words.SplitSpec | functions.py:122 | Every piece of `split()` is a non-empty whitespace-free word made of the input's characters |
| Words.SplitOfJoin | functions.py:122 | Splitting words joined by single spaces gives the words back |
| Words.JoinSpec | functions.py:122 | Joining words with single spaces gives single-spaced text made of their characters |
| Words.JoinContains | navigation_agent.py:39 | Every joined part occurs in the joined text |
| CleanText.RemoveTagsSpec | functions.py:119 | Tag removal changes a string exactly when a tag `<[^>]+>` occurs in it, and is idempotent |
| CleanText.RemoveTagsTagFree | functions.py:119 | What tag removal leaves contains no tag |
| CleanText.KeepAllowedSpec | functions.py:125 | Only `[\w\s.,!?-]` characters survive, and a string of such characters survives whole |
| CleanText.CleanTextSpec | functions.py:105-127 | Cleaned text has only allowed characters, its only whitespace is the space, and it has none at either end |
| CleanText.CleanTextKeepsDoubleSpace | functions.py:122-125 | As written, `"a & b"` cleans to `"a  b"`, which is not single-spaced, and cleaning again gives `"a b"` |
| CleanText.CleanTextCollapsedSpec | functions.py:121-125 | Filtering before collapsing gives single-spaced text of allowed characters |
| CleanText.CleanTextCollapsedIdempotent | functions.py:105-127 | The corrected cleaning is idempotent |
| CleanText.CleanTextAgrees | functions.py:118-127 | When the filter removes nothing, the code and the corrected order agree |
| Pattern.Run | functions.py:225-272 | A class run `\s`, `\d` with bounds is maximal within its bound |
| Pattern.SolidMatchNonEmpty | functions.py:247 | A pattern that must consume a character never matches empty |
| Pattern.FindAllAreMatches | functions.py:247 | Every `finditer` match is a real non-empty match of the pattern at some position |
| Pattern.FindAllStartsWith | functions.py:269-271 | Every match of a pattern opening with a literal starts with that literal |
| Pattern.FindAllStartsWithDigit | functions.py:272 | Every match of a pattern opening with `\d+` starts with a digit |
| Topics.Capitalize | functions.py:250 | `capitalize()` keeps the length |
| Topics.CapitalizeSpec | functions.py:250 | `capitalize()` keeps a word a word and is idempotent |
| Topics.TopicIdempotent | functions.py:250 | A topic is in normal form: re-spacing and re-capitalising it changes nothing |
| Topics.LessIrreflexive | functions.py:253 | String `<` is irreflexive |
| Topics.LessTransitive | functions.py:253 | String `<` is transitive |
| Topics.LessTotal | functions.py:253 | String `<` is total on distinct strings |
| Topics.LeastExists | functions.py:253 | Every non-empty finite set of strings has a least element |
| Topics.SortedList | functions.py:253 | `sorted(list(s))` lists exactly the elements of `s` in strictly increasing order |
| Topics.SortedUnique | functions.py:253 | A set has only one strictly sorted listing |
| Topics.AddTopics | functions.py:248-251 | The inner loop adds the topic of every match |
| Topics.ExtractTopics | functions.py:211-253 | The result is strictly sorted and holds exactly the topics of all matches of the 18 patterns in the lower-cased text |
| Topics.TopicsComeFromMatches | functions.py:246-251 | Every topic is the normalised form of a real match of one of the patterns |
| Prices.AppendNew | functions.py:277-280 | The inner loop appends each stripped match not yet present |
| Prices.Collect | functions.py:275-280 | The loops give the first-occurrence deduplication of all stripped matches, pattern by pattern |
| Prices.ExtractPrices | functions.py:255-282 | `extract_prices` returns the distinct stripped matches of the four patterns, in order of discovery |
| Prices.FoundShape | functions.py:268-280 | Every price starts with `$`, `€`, `£` or a digit |
| Prices.MatchShape | functions.py:268-273 | A match of a symbol pattern starts with its symbol, and one of the code pattern with a digit |
| Dates.IndexOf | functions.py:151 | `s.split(sub)[0]` ends at the first occurrence of `sub`: an occurrence starts there and none before; there is one exactly when `sub in s` |
| Dates.ReplaceAllAbsent | functions.py:151 | `replace` of an absent target changes nothing |
| Dates.SubSeparatorsSpec | functions.py:154 | The substitution keeps the length and changes only `.` or `/` into `-` |
| Dates.DateMatches | functions.py:154 | `(\d+)[./](\d+)[./](2025)` matches a whole `d.m.2025` or `d/m/2025` string |
| Dates.HyphenateDate | functions.py:154 | `\1-\2-\3` of such a match is `d-m-2025` |
| Dates.DateRewritten | functions.py:154 | The separator substitution rewrites `d.m.2025` and `d/m/2025` into `d-m-2025` |
| Dates.StandardizeDate | functions.py:129-156 | The loop applies the month replacements in map order, then the separator substitution |
| Dates.ExpandAsWrittenMangles | functions.py:149-151 | As written, one replacement turns `"1 mar"` into `"March"` and `"march"` into `"Marchch"` |
| Dates.FullMonthFrom | functions.py:139-144 | A recognised abbreviation maps to its full name from the month map |
| Dates.ExpandMonthsKeepsOtherText | functions.py:148-151 | The corrected expansion rewrites only whole abbreviation words: all non-letter text is kept in order |
| Dates.ExpandMonthsKeepsDay | functions.py:148-151 | Corrected, `"1 mar"` becomes `"1 March"` |
| Dates.ExpandMonthsKeepsFullName | functions.py:148-151 | Corrected, `"march"` is left alone |

## Left out

- Locking: the `Lock`s of `EventDataStore` and `DocumentCollector` are not modelled. Each method is atomic and the model is single-threaded.
- I/O is not modelled: file writing and `json.dump`, the logging calls, and the mkdir of the events folder. Rather than the real directory, `EventDataStore` starts from an empty folder map.
- Foreign calls are parameters:
  - `hashlib.md5(...).hexdigest()` is the `digest` function of `EventDataStore`;
  - `datetime.now()` is `now`;
  - `json.loads` is `parse` in `Navigation.Decide`;
  - the runner's message stream is the `messages` sequence;
  - `difflib.SequenceMatcher(...).ratio() < 0.8` is the `similar` predicate of `Merge.MergeEventData`.
- Navigation.Decide: does not model the wording of the prompt, only what its slots contain (`PromptSlotsBounded`).
- Python value equality is Dafny structural equality: `True == 1`, `1 == 1.0` and order-insensitive dict equality are not modelled, and there are no floats.
- `str()` of a record (`len(str(event))` in the upsert loop, the f-strings of `merge_event_data`) is `PyJson.Show`, which does none of `repr`'s escaping: quotes, backslashes, `\n`, `\t` and non-printable characters inside nested strings count one character in `Show` and two or more in `str()`, and `repr`'s switch to double quotes is not modelled. So for scraped text holding newlines or backslashes, the `len(str(event)) > len(str(existing))` decision of the upsert loop (web_tools.py:262) can come out differently in the model.
- Lower-casing, `capitalize()`, `\d` and `\w` are ASCII-only (`\s` and `split()` use Python's full whitespace set). `[^\w\s.,!?-]` therefore also drops non-ASCII letters that Python keeps.
- Urls.SplitUrl: models the parts of `urlparse` the code reads (scheme, netloc, path) and its "Invalid IPv6 URL" errors: an unmatched bracket, and the `_check_bracketed_netloc` test of current Python releases (the fix for CVE-2025-0938; older releases check only the text between the first `[` and `]`). It does not model the `ipaddress` validation of a bracketed host that does not start with `v`: the model accepts any such host where Python demands an IPv6 address. It also does not model `_checknetloc`, which raises when NFKC normalisation of a non-ASCII network location produces one of `/?#@:`; the model accepts such URLs. Query and fragment values are not modelled.
- Urls.ExtractUniqueUrls: takes the regex matches of the two URL patterns (functions.py:50-58) as its `candidates` input. The `findall` scan itself is not modelled.
- Pattern.Match: matches possessively (no backtracking). For the fixed patterns used here this gives the same matches as Python's backtracking matcher, because no quantified part can consume what the part after it needs. The equivalence is argued in the module comment but not proved.
- The loaded list of `save_event_data` is taken to hold only dicts, and non-dict entries are not modelled. The file load and save around the loop are left out. So is aliasing: an appended event and the caller's dict being the same object.
- `EventDocument` is a value. The collector never hands out a document that is later mutated, so aliasing is not modelled.
- `extract_event_info`, `visit_webpage`, `setup_webdriver`, `EventProcessor.process_documents` and `_extract_event_info`, the checkpoint helpers and `main.py` are not part of this model. They drive a browser or a language model.
- Merge.Combine: for an incoming dict `event_name` compared with an existing string or list, `difflib` may index the dict by position while extending a match and raise `KeyError`, depending on which items match; the model returns the combined name there.
- RecordStore: the corrected fallback name (`FallbackName`, `FallbackNameFresh`, `StoreKeepsNumbersBounded`) is the corrected half of the first finding; `store_event` itself is modelled as written.
- Dates.StandardizeDateCorrected: the corrected `standardize_date`. No other member uses it, because nothing in the crawler calls `standardize_date`.
- `add_urls` only appends at the back of the queue and applies no event-term test; `_extract_json_block` does not repair truncated output; `_has_meaningful_fields` accepts a record holding only `event_name`, `title` and `organization`; `event_terms` includes `event`. The model does the same.

## Findings

| source | as written | input that shows it | evidently intended | confidence | as-written member | corrected member |
|---|---|---|---|---|---|---|
| utils.py:81-82 | The fallback file number counts the `event_*.json` files, but the names it makes (`event{n}.json`) never match that glob | two URL-less events stored into an empty folder: both go to `event1.json`, and the second overwrites the first | a new numbered file for each URL-less event | not executed | RecordStore.UrlLessStoresCollide | RecordStore.FallbackNameFresh |
| functions.py:121-125 | Whitespace is collapsed before special characters are removed, so a removed character between two spaces leaves a double space | `clean_text("a & b")` is `"a  b"`, and cleaning that again gives `"a b"` | single-spaced output, cleaning being idempotent | not executed | CleanText.CleanTextKeepsDoubleSpace | CleanText.CleanTextCollapsedIdempotent |
| functions.py:151 | The month replacement replaces the whole text before the abbreviation together with the abbreviation, and also fires inside full month names | `standardize_date("1 mar")` loses the day (`"March"`); `standardize_date("march")` gives `"Marchch"` | only the abbreviation word replaced by the full name | not executed | Dates.ExpandAsWrittenMangles | Dates.ExpandMonthsKeepsOtherText |
