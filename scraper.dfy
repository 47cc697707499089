/**
 * The `Scraper` object: the response and the parsed page that `open` stores,
 * and the four queries over them. Each query first checks that both are
 * present and that the response is truthy, and returns an empty result
 * otherwise.
 */
module Scraping {
  import opened Wrappers
  import opened Sequences
  import opened Html
  import opened Links
  import opened Words

  /** What the object keeps of a `requests` response. */
  datatype Response = Response(status: int)

  /**
   * A response is truthy when `Response.ok` holds, that is when
   * `raise_for_status` would not raise: the status is not a client error
   * (400 to 499) or a server error (500 to 599).
   */
  predicate IsOk(r: Response) {
    !(400 <= r.status < 600)
  }

  /**
   * How the `try` block of `open` ends: `requests.get` raises (network
   * failure, timeout), the parser raises after the response was stored, or
   * both succeed.
   */
  datatype FetchOutcome =
    | RequestFailed
    | ParseFailed(response: Response)
    | Loaded(response: Response, document: Document)

  const PRIVACY_MARKER: string := "privacy-policy"

  /** What `hrefs()` returns when the loaded page is `doc`. */
  function HrefsOf(doc: Option<Document>): seq<string> {
    match doc
    case None => []
    case Some(d) => Dedup(AnchorHrefs(d.tags))
  }

  /**
   * The `href` list has no repeats; its elements are exactly the values of
   * `href` on `<a>` tags; they appear in the order each value first occurs
   * among the anchors; and it is empty when no page is loaded.
   */
  lemma HrefsMeaning(doc: Option<Document>)
    ensures doc.None? ==> HrefsOf(doc) == []
    ensures NoDuplicates(HrefsOf(doc))
    ensures doc.Some? ==> forall h :: h in HrefsOf(doc) <==>
              exists t :: t in doc.value.tags && t.name == "a" && t.href == Some(h)
    ensures doc.Some? ==> forall h :: h in HrefsOf(doc) ==> h in AnchorHrefs(doc.value.tags)
    ensures doc.Some? ==> forall i, j :: 0 <= i < j < |HrefsOf(doc)| ==>
              FirstIndex(AnchorHrefs(doc.value.tags), HrefsOf(doc)[i])
              < FirstIndex(AnchorHrefs(doc.value.tags), HrefsOf(doc)[j])
  {
    if doc.Some? {
      var anchors := AnchorHrefs(doc.value.tags);
      DedupDistinct(anchors);
      DedupMembers(anchors);
      DedupOrder(anchors);
      AnchorHrefsMembers(doc.value.tags);
    }
  }

  /**
   * The table `wordcount()` builds has as keys exactly the lower-cased
   * whitespace-separated tokens of the text, maps each to its number of
   * occurrences (at least one), and its counts add up to the number of
   * tokens.
   */
  lemma WordCountMeaning(text: string)
    ensures forall w :: w in Frequencies(Tokens(text)) <==> w in Tokens(text)
    ensures forall w :: w in Frequencies(Tokens(text)) ==>
              IsToken(w) && Lower(w) == w && Frequencies(Tokens(text))[w] == multiset(Tokens(text))[w] >= 1
    ensures Total(Frequencies(Tokens(text))) == |Tokens(text)|
  {
    FrequenciesCount(Tokens(text));
    FrequenciesTotal(Tokens(text));
    TokensAreLowerTokens(text);
  }

  class Scraper {
    /** The response of the last `open` that got one; `None` stands for the falsy default. */
    var page: Option<Response>
    /** The parsed page of the last `open` that got one. */
    var soup: Option<Document>

    constructor ()
      ensures page == None && soup == None
    {
      page := None;
      soup := None;
    }

    /** The page the queries work on: present when neither field is falsy. */
    function LoadedDocument(): Option<Document>
      reads this
    {
      if soup.Some? && page.Some? && IsOk(page.value) then soup else None
    }

    /**
     * `open(url)`, with the fetch and the parse done outside. A request that
     * raises changes nothing; a parse that raises leaves the new response
     * beside the old page; otherwise both are replaced.
     */
    method Open(outcome: FetchOutcome)
      modifies this
      ensures outcome.RequestFailed? ==> page == old(page) && soup == old(soup)
      ensures outcome.ParseFailed? ==> page == Some(outcome.response) && soup == old(soup)
      ensures outcome.Loaded? ==> page == Some(outcome.response) && soup == Some(outcome.document)
      ensures outcome.Loaded? ==> (LoadedDocument().Some? <==> IsOk(outcome.response))
    {
      match outcome
      case RequestFailed =>
      case ParseFailed(response) =>
        page := Some(response);
      case Loaded(response, document) =>
        page := Some(response);
        soup := Some(document);
    }

    /** `hrefs()`: the distinct anchor `href` values in order of first occurrence. */
    method Hrefs() returns (hrefs: seq<string>)
      ensures hrefs == HrefsOf(LoadedDocument())
    {
      hrefs := [];
      if LoadedDocument().None? {
        return;
      }
      var anchors := AnchorHrefs(soup.value.tags);
      for i := 0 to |anchors|
        invariant hrefs == Dedup(anchors[..i])
      {
        DedupPrefix(anchors, i);
        if anchors[i] !in hrefs {
          hrefs := hrefs + [anchors[i]];
        }
      }
      assert anchors[..|anchors|] == anchors;
    }

    /**
     * `privacy()`: `None` exactly when no element of `hrefs()` contains
     * "privacy-policy"; otherwise the first element that does.
     */
    method Privacy() returns (policy: Option<string>)
      ensures policy.None? <==> forall h :: h in HrefsOf(LoadedDocument()) ==> !Contains(h, PRIVACY_MARKER)
      ensures policy.Some? ==>
                exists i :: (0 <= i < |HrefsOf(LoadedDocument())|
                             && HrefsOf(LoadedDocument())[i] == policy.value
                             && Contains(policy.value, PRIVACY_MARKER)
                             && forall j :: 0 <= j < i ==> !Contains(HrefsOf(LoadedDocument())[j], PRIVACY_MARKER))
    {
      var hr := Hrefs();
      for i := 0 to |hr|
        invariant forall j :: 0 <= j < i ==> !Contains(hr[j], PRIVACY_MARKER)
      {
        if Contains(hr[i], PRIVACY_MARKER) {
          assert hr[i] in hr;
          return Some(hr[i]);
        }
      }
      return None;
    }

    /**
     * `external_links()`, with `order` the order in which the set of tag
     * names happens to be iterated.
     */
    method ExternalLinks(order: seq<string>) returns (r: Result<seq<Resource>, LinkError>)
      requires LoadedDocument().Some? ==> IsNameOrder(order, LoadedDocument().value.tags)
      ensures LoadedDocument().None? ==> r == Success([])
      ensures LoadedDocument().Some? ==> r == ExternalLinksOf(LoadedDocument().value.tags, order)
    {
      var resources: seq<Resource> := [];
      if LoadedDocument().None? {
        return Success(resources);
      }
      var tags := soup.value.tags;
      for k := 0 to |order|
        invariant Gather(Visit(tags, order[..k])) == Success(resources)
      {
        var matching := TagsNamed(tags, order[k]);
        assert Visit(tags, order[..k + 1]) == Visit(tags, order[..k]) + matching by {
          assert order[..k + 1][..k] == order[..k];
        }
        r := CollectRecords(matching, Visit(tags, order[..k]), resources);
        if r.Failure? {
          GatherMeaning(Visit(tags, order[..k + 1]));
          VisitMembers(tags, order[..k + 1]);
          var t :| t in Visit(tags, order[..k + 1]) && Chosen(t) == Some([]);
          assert t.name in order;
          EmptyResourceFails(tags, order, t);
          assert r.error == EmptyResourceIndex;
          return;
        }
        resources := r.value;
      }
      assert order[..|order|] == order;
      return Success(resources);
    }

    /** `wordcount()`: the token-frequency table of the page's text. */
    method WordCount() returns (freq: map<string, nat>)
      ensures LoadedDocument().None? ==> freq == map[]
      ensures LoadedDocument().Some? ==> freq == Frequencies(Tokens(LoadedDocument().value.text))
    {
      freq := map[];
      if LoadedDocument().None? {
        return;
      }
      freq := CountWords(Tokens(soup.value.text));
    }
  }

  /** The counting loop of `wordcount()` over the lower-cased tokens `words`. */
  method CountWords(words: seq<string>) returns (freq: map<string, nat>)
    ensures freq == Frequencies(words)
  {
    freq := map[];
    for i := 0 to |words|
      invariant freq == Frequencies(words[..i])
    {
      var word := words[i];
      FrequenciesPrefix(words, i);
      if word in freq.Keys {
        freq := freq[word := freq[word] + 1];
      } else {
        freq := freq[word := 1];
      }
    }
    assert words[..|words|] == words;
  }

  /**
   * The inner loop of `external_links()` over the tags `matching` of one
   * name, continuing the list `resources` built from the tags `done`.
   */
  method CollectRecords(matching: seq<Tag>, ghost done: seq<Tag>, resources: seq<Resource>)
    returns (r: Result<seq<Resource>, LinkError>)
    requires Gather(done) == Success(resources)
    ensures r == Gather(done + matching)
  {
    var acc := resources;
    assert done + matching[..0] == done;
    for j := 0 to |matching|
      invariant Gather(done + matching[..j]) == Success(acc)
    {
      var i := matching[j];
      GatherPrefix(done, matching, j);
      var res: Option<Resource> := None;
      if i.href.Some? {
        res := Some(Resource(i.name, i.href.value));
      } else if i.src.Some? {
        res := Some(Resource(i.name, i.src.value));
      }
      assert res == Candidate(i);
      if res.Some? && res.value !in acc {
        if res.value.resource == [] {
          GatherStopsEarly(done, matching, j + 1);
          return Failure(EmptyResourceIndex);
        }
        var v := res.value.resource;
        if v[0] != '/' && v[0] != '#' && !SameSite.SameSite(v) {
          acc := acc + [res.value];
        }
      }
    }
    assert matching[..|matching|] == matching;
    return Success(acc);
  }
}
