# cfc scraper — a verified Dafny model

This project models the `Scraper` class of `Scraper.py`, a small web scraper.
The class fetches one page and answers four read-only queries about it:

- `hrefs()`: the distinct anchor links, in the order each first appears;
- `privacy()`: the first of those links that contains `privacy-policy`;
- `external_links()`: the deduplicated `{type, resource}` records of every tag with an
  `href` or `src`, leaving out site-relative links (`/…`), in-page anchors (`#…`) and
  links whose address matches the site's own domain pattern;
- `wordcount()`: a frequency table of the lower-cased, whitespace-separated words of the
  page's visible text.

The HTTP request and the HTML parser are outside the model. A parsed page is a
`Document`: its tags in document order (name, optional `href`, optional `src`) and its
visible text. `open` receives how its `try` block ended as a `FetchOutcome` value.

Files (one module each):

- `wrappers.dfy`: `Option` and `Result`.
- `sequences.dfy`: deduplication in first-occurrence order, and the substring test.
- `same_site.dfy`: the same-site regular expression. It has two readings, each a
  predicate: the pattern as an existential over the match position and the length of
  the `g+` run, and the backtracking search. A lemma proves they agree.
- `words.dfy`: Python's `str.split()` and ASCII `str.lower()`, and the frequency table
  with its properties.
- `html.dfy`: tags, the page, `find_all` by tag name, and the anchor `href` values.
- `links.dfy`: a functional definition of `external_links()` and its properties.
- `scraper.dfy`: the `Scraper` class. Its fields are `page` and `soup`, and
  `LoadedDocument()` says when neither is falsy. `Open` updates the state, and the four
  queries are loop methods proved equal to functional definitions. The inner loop of
  `external_links()` and the counting loop of `wordcount()` are methods of their own
  (`CollectRecords`, `CountWords`) that the class methods call.
- `cases.dfy`: the three reports on small example pages, worked through as lemmas, and
  two client methods.

Points where the code's behaviour is easy to misread, and which the model follows:

- `hrefs()` keeps an `<a>` tag whose `href` is present but empty, because
  `find_all("a", href=True)` matches any present attribute value.
- `external_links()` is not total: `res["resource"][0]` raises `IndexError` on an empty
  `href`/`src` value. The model returns `Failure(EmptyResourceIndex)` exactly when some
  tag's chosen value is empty.
- A response with an error status counts as no page, although `open` does not treat it
  as a failure. `not self.page` is true for a `requests` response whose `ok` is false,
  i.e. a status from 400 to 599. For such a response every query returns its empty
  result, exactly as when the request raised.

## Model

| member | source | states |
|---|---|---|
| `Scraping.Scraper.constructor` | Scraper.py:7-12 | a new object has neither a response nor a parsed page (the falsy class defaults) |
| `Scraping.Scraper.Open` | Scraper.py:14-23 | a request that raises leaves both fields as they were; a parse that raises stores only the new response; a full success replaces both, and the page then counts as loaded exactly when the response is ok |
| `Scraping.Scraper.Hrefs` | Scraper.py:57-71 | the loop returns the distinct anchor `href` values in first-occurrence order, and `[]` when no page is loaded |
| `Scraping.HrefsMeaning` | Scraper.py:62-71 | the `hrefs()` list has no repeats; it holds exactly the `href` values of `<a>` tags; an earlier element first occurs earlier among the anchors; it is `[]` with no page |
| `Sequences.DedupMembers` | Scraper.py:67-69 | append-if-absent keeps exactly the elements of its input |
| `Sequences.DedupDistinct` | Scraper.py:68-69 | append-if-absent never leaves an element twice |
| `Sequences.DedupOrder` | Scraper.py:67-69 | append-if-absent keeps elements in the order of their first occurrence in the input |
| `Html.AnchorHrefsMembers` | Scraper.py:67 | a value is collected from `find_all("a", href=True)` exactly when some `<a>` tag has it as `href` |
| `Html.TagsNamed` | Scraper.py:42 | `find_all(name)` yields exactly the page's tags with that name |
| `Scraping.Scraper.Privacy` | Scraper.py:73-83 | `None` exactly when no element of `hrefs()` contains `privacy-policy`; otherwise the returned string is the element at some index, contains the marker, and no earlier element does |
| `Sequences.ContainsAt` | Scraper.py:81 | the substring test holds exactly when the marker occurs at some index of the string |
| `Scraping.Scraper.ExternalLinks` | Scraper.py:25-55 | with no page the result is `Success([])`; otherwise the nested loops over the name order return exactly `Links.ExternalLinksOf(tags, order)`, that is `Links.Gather(Links.Visit(tags, order))`, failing with `IndexError` at an empty resource |
| `Scraping.CollectRecords` | Scraper.py:42-53 | the inner loop over the tags `matching` of one name, continuing the list built from the tags `done`, returns exactly `Links.Gather(done + matching)`: one `Links.Step` per tag, stopping with `IndexError` at a tag whose chosen value is empty |
| `Links.GatherMeaning` | Scraper.py:43-53 | the loop body over a tag sequence fails exactly when some tag's chosen value is empty; otherwise the result is the kept records, deduplicated in visiting order |
| `Links.KeptRecordsMembers` | Scraper.py:44-53 | a record is among the kept records exactly when some tag with that record has a non-empty value that passes the three exclusion tests |
| `Links.GatherFailurePersists` | Scraper.py:52 | once the loop has raised, later tags do not change the result |
| `Links.VisitMembers` | Scraper.py:39-42 | the nested loops visit exactly the tags whose name is in the name order |
| `Links.VisitAll` | Scraper.py:39-42 | when the name order enumerates the set of tag names, every tag of the page is visited |
| `Links.EmptyResourceFails` | Scraper.py:52 | a visited tag whose chosen value is empty makes the call raise `IndexError` |
| `Links.ExternalLinksFails` | Scraper.py:44-52 | `external_links()` raises exactly when some tag's `href` (or, with no `href`, its `src`) is empty |
| `Links.ExternalLinksSuccess` | Scraper.py:41-53 | on success there are no repeated records. Each record has its tag's name as type and its tag's `href`, or else its `src`, as resource. That resource is non-empty, starts with neither `/` nor `#`, and does not match the same-site pattern. Every tag whose value passes those tests has its record in the list |
| `Links.ExternalLinksOrderIndependent` | Scraper.py:39-41 | any two iteration orders of the tag-name set agree on whether the call fails and on which records it returns |
| `SameSite.TailFromCorrect` | Scraper.py:34 | backtracking over `g+(.)[a-z]` from a position succeeds exactly when some run length `k >= 1` of `g` is followed by a non-newline and a lower-case letter |
| `SameSite.SearchFromCorrect` | Scraper.py:34 | the unanchored search from a position succeeds exactly when a match starts at or after it |
| `SameSite.SameSiteCorrect` | Scraper.py:52 | `re.search(cfc_url, s)` finds a match exactly when `s` contains `cfcunderwritin`, one or more `g`, a non-newline and a lower-case ASCII letter |
| `SameSite.HomePageIsSameSite` | Scraper.py:104 | the site's own address `https://www.cfcunderwriting.com` matches the pattern |
| `Scraping.Scraper.WordCount` | Scraper.py:85-101 | with no page the table is empty; otherwise it is exactly the frequency table of the lower-cased tokens of the page's text |
| `Scraping.CountWords` | Scraper.py:96-100 | the counting loop over a word list builds exactly its frequency table |
| `Scraping.WordCountMeaning` | Scraper.py:95-100 | the keys are exactly the tokens; each key is a non-empty, whitespace-free, lower-cased word; each count equals its number of occurrences and is at least 1; the counts add up to the number of tokens |
| `Words.FrequenciesCount` | Scraper.py:96-100 | the table built from a word list has the words as keys, each mapped to its multiplicity |
| `Words.FrequenciesTotal` | Scraper.py:96-100 | the counts in the table sum to the length of the word list |
| `Words.SplitTokens` | Scraper.py:95 | every token of `split()` is non-empty and contains no whitespace |
| `Words.SplitJoin` | Scraper.py:95 | splitting tokens joined by single spaces gives back the tokens |
| `Words.SplitKeepsCharacters` | Scraper.py:95 | the tokens of `split()`, written one after another, are exactly the non-whitespace characters of the string, in order |
| `Words.SplitAtSpace` | Scraper.py:95 | any whitespace character separates tokens: splitting `a + c + b` with `c` whitespace gives the tokens of `a` followed by those of `b` (with `SplitJoin` on one token and the empty string, this fixes `split()` on every input) |
| `Words.LowerKeepsTokens` | Scraper.py:95 | `lower()` keeps a token a token, is idempotent and leaves no upper-case ASCII letter |
| `Words.TokensAreLowerTokens` | Scraper.py:95 | every element of `[word.lower() for word in text.split()]` is a lower-cased token |
| `Cases.HrefsExample` | Scraper.py:67-69 | anchors `/a`, `http://x.com`, `/a` give `["/a", "http://x.com"]` |
| `Cases.WordCountExample` | Scraper.py:95-100 | text `Risk Risk risk.` gives `{"risk": 2, "risk.": 1}` (no punctuation stripping) |
| `Cases.LinksExample` | Scraper.py:39-55 | on a page with `src="/img.png"`, `href="#top"` and `href="http://external.example/page"`, `external_links()` returns only `{type: a, resource: http://external.example/page}`, for every iteration order of the tag-name set |
| `Cases.QueriesWithoutFetch` | Scraper.py:36-93 | through the four guards (lines 36-37, 64-65, 79-83 via `hrefs()`, 92-93), a fresh object whose only request raised answers `[]`, `None`, `[]` and `{}` |
| `Cases.QueriesAfterNotFound` | Scraper.py:36-93 | through the four guards (lines 36-37, 64-65, 79-83 via `hrefs()`, 92-93), a page fetched with status 404 is falsy, so all four queries return their empty results |

## Left out

- `open`'s network request (`requests.get` with a 15-second timeout) and the HTML parsing are foreign code. `Open` receives their outcome as a value, and the printed exception message is not modelled.
- `find_all` and `get_text` are BeautifulSoup's. A page is given as its tags in document order, each with its name, `href` and `src`, plus its visible text. Other attributes, nesting and text extraction are not modelled.
- `str.lower()` is modelled on ASCII letters only; Unicode case mapping (including mappings that change a string's length) is not. `str.split()` uses Python's full list of whitespace characters.
- Scraping.Scraper.ExternalLinks: the iteration order of the set of tag names (Scraper.py:39) depends on the implementation. It is a parameter, required to list each tag name once. No claim is made about the order across tag names; within one tag name, tags are taken in document order.
- The `__main__` driver (Scraper.py:103-141) is not modelled. It does only console output, directory creation, JSON serialisation, file writing and the string concatenation of base URL and href.
- `wordcount()` returns a Python dict, whose keys keep the order in which each word first occurs; the `map<string, nat>` has no key order. Nothing depends on it: the driver writes the table with `sort_keys=True` (Scraper.py:136).
- The response is reduced to its status code, as that is all its truthiness depends on.
