/** The document lifecycle of utils.py: `EventDocument` and `DocumentCollector`,
    a URL-keyed, insertion-ordered collection of crawled pages and the set of
    URLs already handed to extraction. */
module Documents {

  import opened Wrappers
  import opened PyJson

  /** A crawled page waiting for extraction. */
  datatype EventDocument = EventDocument(
    url: string,
    rawContent: string,
    pageTitle: string,
    extractedText: string,
    relatedLinks: seq<string>,
    crawlTimestamp: string,
    metadata: Dict)

  /** `metadata or {}`: a missing or empty metadata dict becomes `{}`. */
  function MetadataOrEmpty(metadata: Option<Dict>): Dict {
    match metadata
    case Some(m) => m
    case None => []
  }

  /** The document `add_document` builds; `now` is the time `datetime.now()` gives. */
  function NewDocument(url: string, pageSource: string, title: string, metadata: Option<Dict>,
                       now: string): EventDocument {
    EventDocument(url, pageSource, title, "", [], now, MetadataOrEmpty(metadata))
  }

  /** Some document of `docs` has this URL. */
  predicate HasDocument(docs: seq<EventDocument>, url: string) {
    exists i :: 0 <= i < |docs| && docs[i].url == url
  }

  /** No two documents share a URL, as in the dict keyed by URL. */
  predicate UniqueUrls(docs: seq<EventDocument>) {
    forall i, j :: 0 <= i < j < |docs| ==> docs[i].url != docs[j].url
  }

  /** The documents whose URL is not processed, in insertion order. */
  function Unprocessed(docs: seq<EventDocument>, processed: set<string>): (r: seq<EventDocument>)
    ensures forall k :: 0 <= k < |r| ==> r[k] in docs && r[k].url !in processed
    ensures forall k :: 0 <= k < |docs| && docs[k].url !in processed ==> docs[k] in r
  {
    if docs == [] then []
    else
      var rest := Unprocessed(docs[..|docs| - 1], processed);
      var d := docs[|docs| - 1];
      assert forall k :: 0 <= k < |docs| - 1 ==> docs[k] == docs[..|docs| - 1][k];
      if d.url !in processed then rest + [d] else rest
  }

  /** The documents without the one for `url` (`del documents[url]`). */
  function Without(docs: seq<EventDocument>, url: string): (r: seq<EventDocument>)
    ensures forall k :: 0 <= k < |r| ==> r[k] in docs && r[k].url != url
    ensures forall k :: 0 <= k < |docs| && docs[k].url != url ==> docs[k] in r
    ensures |r| <= |docs|
  {
    if docs == [] then []
    else
      var rest := Without(docs[..|docs| - 1], url);
      var d := docs[|docs| - 1];
      assert forall k :: 0 <= k < |docs| - 1 ==> docs[k] == docs[..|docs| - 1][k];
      if d.url != url then rest + [d] else rest
  }

  /** Removing a URL keeps the URLs unique. */
  lemma {:induction false} WithoutUnique(docs: seq<EventDocument>, url: string)
    requires UniqueUrls(docs)
    ensures UniqueUrls(Without(docs, url))
  {
    if docs != [] {
      var p := docs[..|docs| - 1];
      assert UniqueUrls(p);
      WithoutUnique(p, url);
      var d := docs[|docs| - 1];
      var rest := Without(p, url);
      if d.url != url {
        forall k | 0 <= k < |rest|
          ensures rest[k].url != d.url
        {
          assert rest[k] in p;
        }
      }
    }
  }

  /** A URL that was marked processed never comes back from
      `get_unprocessed_documents`, even if a document for it is added again. */
  lemma MarkedStaysHidden(docs: seq<EventDocument>, processed: set<string>, url: string,
                          later: seq<EventDocument>)
    ensures forall k :: 0 <= k < |Unprocessed(Without(docs, url) + later, processed + {url})|
              ==> Unprocessed(Without(docs, url) + later, processed + {url})[k].url != url
  {
  }

  /** Marking `url` and then adding a document for it again stores that document:
      the URL has no document once marked. */
  lemma MarkedThenAdded(docs: seq<EventDocument>, url: string)
    ensures !HasDocument(Without(docs, url), url)
  {
    var r := Without(docs, url);
    forall i | 0 <= i < |r|
      ensures r[i].url != url
    {
    }
  }

  class DocumentCollector {
    /** `documents`, URL -> document, as its items in insertion order. */
    var documents: seq<EventDocument>
    var processed: set<string>

    ghost predicate Valid()
      reads this
    {
      UniqueUrls(documents)
    }

    constructor()
      ensures Valid() && documents == [] && processed == {}
    {
      documents := [];
      processed := {};
    }

    /** `add_document(url, page_source, title, metadata)`: a URL that already has a
        document keeps it unchanged. */
    method AddDocument(url: string, pageSource: string, title: string, metadata: Option<Dict>,
                       now: string)
      requires Valid()
      modifies this
      ensures Valid()
      ensures HasDocument(old(documents), url) ==> documents == old(documents)
      ensures !HasDocument(old(documents), url) ==>
                documents == old(documents) + [NewDocument(url, pageSource, title, metadata, now)]
      ensures !HasDocument(old(documents), url) ==>
                var d := documents[|documents| - 1];
                d.url == url && d.rawContent == pageSource && d.pageTitle == title
                && d.extractedText == "" && d.relatedLinks == [] && d.crawlTimestamp == now
                && d.metadata == (if metadata.Some? then metadata.value else [])
      ensures processed == old(processed)
    {
      var present := false;
      for i := 0 to |documents|
        invariant present <==> exists k :: 0 <= k < i && documents[k].url == url
      {
        if documents[i].url == url {
          present := true;
        }
      }
      if !present {
        documents := documents + [NewDocument(url, pageSource, title, metadata, now)];
      }
    }

    /** `get_unprocessed_documents()`. */
    method GetUnprocessedDocuments() returns (r: seq<EventDocument>)
      ensures r == Unprocessed(documents, processed)
      ensures forall k :: 0 <= k < |r| ==> r[k] in documents && r[k].url !in processed
    {
      r := [];
      for i := 0 to |documents|
        invariant r == Unprocessed(documents[..i], processed)
      {
        assert documents[..i + 1][..i] == documents[..i];
        if documents[i].url !in processed {
          r := r + [documents[i]];
        }
      }
      assert documents[..|documents|] == documents;
    }

    /** `mark_processed(url)`: the URL joins the processed set and its document,
        if any, is deleted. */
    method MarkProcessed(url: string)
      requires Valid()
      modifies this
      ensures Valid()
      ensures processed == old(processed) + {url}
      ensures documents == Without(old(documents), url)
      ensures !HasDocument(documents, url)
    {
      processed := processed + {url};
      WithoutUnique(documents, url);
      MarkedThenAdded(documents, url);
      documents := Without(documents, url);
    }
  }
}
