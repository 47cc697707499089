/**
 * Worked cases: the three reports on small example pages, and what a
 * client of `Scraper` sees when a field is falsy.
 */
module Cases {
  import opened Wrappers
  import opened Sequences
  import opened Words
  import opened Html
  import opened Links
  import opened Scraping
  import SameSite

  /** Anchors `/a`, `http://x.com`, `/a` give `["/a", "http://x.com"]`. */
  lemma HrefsExample()
    ensures HrefsOf(Some(Document([Tag("a", Some("/a"), None), Tag("a", Some("http://x.com"), None), Tag("a", Some("/a"), None)], "")))
            == ["/a", "http://x.com"]
  {
    AnchorsOfExample();
    DedupOfExample();
  }

  lemma AnchorsOfExample()
    ensures AnchorHrefs([Tag("a", Some("/a"), None), Tag("a", Some("http://x.com"), None), Tag("a", Some("/a"), None)])
            == ["/a", "http://x.com", "/a"]
  {
    var t1, t2 := Tag("a", Some("/a"), None), Tag("a", Some("http://x.com"), None);
    assert [t1][1..] == [] && [t2, t1][1..] == [t1] && [t1, t2, t1][1..] == [t2, t1];
    assert AnchorHrefs([t1]) == ["/a"];
    assert AnchorHrefs([t2, t1]) == ["http://x.com", "/a"];
  }

  lemma DedupOfExample()
    ensures Dedup(["/a", "http://x.com", "/a"]) == ["/a", "http://x.com"]
  {
    var s := ["/a", "http://x.com", "/a"];
    assert s[..1] == ["/a"] && s[..2] == ["/a", "http://x.com"] && s[..3] == s;
    DedupPrefix(s, 0);
    assert s[..0] == [];
    DedupPrefix(s, 1);
    DedupPrefix(s, 2);
  }

  /** Text `Risk Risk risk.` gives `{"risk": 2, "risk.": 1}`. */
  lemma WordCountExample()
    ensures Frequencies(Tokens("Risk Risk risk.")) == map["risk" := 2, "risk." := 1]
  {
    SplitRisk();
    LowerRisk();
    FreqRisk();
  }

  lemma SplitRisk()
    ensures Split("Risk Risk risk.") == ["Risk", "Risk", "risk."]
  {
    var ws := ["Risk", "Risk", "risk."];
    assert IsToken("Risk") && IsToken("risk.") by {
      assert !IsSpace('R') && !IsSpace('i') && !IsSpace('s') && !IsSpace('k') && !IsSpace('r') && !IsSpace('.');
    }
    assert Join(ws) == "Risk Risk risk.";
    SplitJoin(ws);
  }

  lemma LowerRisk()
    ensures LowerAll(["Risk", "Risk", "risk."]) == ["risk", "risk", "risk."]
  {
    LowerWord("Risk", "risk");
    LowerWord("risk.", "risk.");
    assert LowerAll(["Risk", "Risk", "risk."])[2] == "risk.";
  }

  /** `w.lower() == r`, checked character by character. */
  lemma LowerWord(w: string, r: string)
    requires |w| == |r| && forall i :: 0 <= i < |w| ==> LowerChar(w[i]) == r[i]
    ensures Lower(w) == r
  {
  }

  lemma FreqRisk()
    ensures Frequencies(["risk", "risk", "risk."]) == map["risk" := 2, "risk." := 1]
  {
    var r, rd := "risk", "risk.";
    assert [r][..0] == [] && [r, r][..1] == [r] && [r, r, rd][..2] == [r, r];
    assert Frequencies([r]) == map[r := 1];
    assert Frequencies([r, r]) == map[r := 2];
  }

  const EXTERNAL_URL: string := "http://external.example/page"

  /** An image with a site-relative `src`, an in-page anchor and one external link. */
  const LINK_PAGE: seq<Tag> :=
    [Tag("img", None, Some("/img.png")), Tag("a", Some("#top"), None), Tag("a", Some(EXTERNAL_URL), None)]

  /**
   * On that page `external_links()` drops `src="/img.png"` and `href="#top"`
   * and keeps the external link with type `a`, whatever the order in which
   * the set of tag names is iterated.
   */
  lemma LinksExample(order: seq<string>)
    requires IsNameOrder(order, LINK_PAGE)
    ensures ExternalLinksOf(LINK_PAGE, order) == Success([Resource("a", EXTERNAL_URL)])
  {
    var r := Resource("a", EXTERNAL_URL);
    LinkPageSucceeds(order);
    ExternalLinksSuccess(LINK_PAGE, order);
    ExternalLinkKept();
    var v := ExternalLinksOf(LINK_PAGE, order).value;
    forall x | x in v ensures x == r {
      OnlyExternalRecord(x);
    }
    OnlyElement(v, r);
  }

  /** No tag of the page has an empty `href` or `src`, so the call does not raise. */
  lemma LinkPageSucceeds(order: seq<string>)
    requires IsNameOrder(order, LINK_PAGE)
    ensures ExternalLinksOf(LINK_PAGE, order).Success?
  {
    ExternalLinksFails(LINK_PAGE, order);
  }

  lemma ExternalLinkKept()
    ensures Kept(LINK_PAGE[2]) && Candidate(LINK_PAGE[2]) == Some(Resource("a", EXTERNAL_URL))
  {
    ExternalUrlNotSameSite();
    assert EXTERNAL_URL[0] == 'h';
  }

  /** The only record of the page that passes the `/` and `#` tests is the external link's. */
  lemma OnlyExternalRecord(x: Resource)
    requires exists t :: t in LINK_PAGE && x.kind == t.name && Chosen(t) == Some(x.resource)
    requires x.resource != [] && x.resource[0] != '/' && x.resource[0] != '#'
    ensures x == Resource("a", EXTERNAL_URL)
  {
    var t :| t in LINK_PAGE && x.kind == t.name && Chosen(t) == Some(x.resource);
    assert "/img.png"[0] == '/' && "#top"[0] == '#';
  }

  /** A list without repeats all of whose elements are `x`, and which holds `x`, is `[x]`. */
  lemma OnlyElement<T>(s: seq<T>, x: T)
    requires NoDuplicates(s) && x in s
    requires forall y :: y in s ==> y == x
    ensures s == [x]
  {
    assert s[0] in s;
    if |s| > 1 {
      FirstTwoIn(s);
      assert false;
    }
  }

  lemma FirstTwoIn<T>(s: seq<T>)
    requires |s| > 1
    ensures s[0] in s && s[1] in s
  {
  }

  lemma ExternalUrlNotSameSite()
    ensures !SameSite.SameSite(EXTERNAL_URL)
  {
    assert 'f' !in EXTERNAL_URL;
    NoStemLetter(EXTERNAL_URL);
  }

  /** A string without the letter `f` cannot hold `cfcunderwritin`. */
  lemma NoStemLetter(s: string)
    requires 'f' !in s
    ensures !SameSite.SameSite(s)
  {
    forall i: nat, k: nat ensures !SameSite.MatchAt(s, i, k) {
      if i + |SameSite.STEM| <= |s| {
        assert s[i + 1] in s;
        assert s[i..i + |SameSite.STEM|][1] == s[i + 1];
      }
    }
    SameSite.SameSiteCorrect(s);
  }

  /** A fresh object, or one whose only fetch raised, answers every query with an empty result. */
  method QueriesWithoutFetch(order: seq<string>)
    returns (hrefs: seq<string>, policy: Option<string>, links: Result<seq<Resource>, LinkError>, freq: map<string, nat>)
    ensures hrefs == [] && policy == None && links == Success([]) && freq == map[]
  {
    var s := new Scraper();
    s.Open(RequestFailed);
    hrefs := s.Hrefs();
    policy := s.Privacy();
    links := s.ExternalLinks(order);
    freq := s.WordCount();
  }

  /** A page fetched with status 404 is falsy, so every query is empty although it was parsed. */
  method QueriesAfterNotFound(d: Document, order: seq<string>)
    returns (hrefs: seq<string>, policy: Option<string>, links: Result<seq<Resource>, LinkError>, freq: map<string, nat>)
    ensures hrefs == [] && policy == None && links == Success([]) && freq == map[]
  {
    var s := new Scraper();
    s.Open(Loaded(Response(404), d));
    hrefs := s.Hrefs();
    policy := s.Privacy();
    links := s.ExternalLinks(order);
    freq := s.WordCount();
  }
}
