/**
 * The parsed page, as far as the queries look at it. BeautifulSoup's tree
 * is abstracted to the tags in document order, each with its name and its
 * `href` and `src` attributes when present, and the page's visible text
 * (what `get_text()` returns).
 */
module Html {
  import opened Wrappers

  datatype Tag = Tag(name: string, href: Option<string>, src: Option<string>)

  datatype Document = Document(tags: seq<Tag>, text: string)

  /** `find_all(name)`: the tags called `name`, in document order. */
  function TagsNamed(tags: seq<Tag>, name: string): (r: seq<Tag>)
    ensures forall t :: t in r <==> t in tags && t.name == name
  {
    if tags == [] then []
    else (if tags[0].name == name then [tags[0]] else []) + TagsNamed(tags[1..], name)
  }

  /** The set of tag names on the page: `{tag.name for tag in find_all()}`. */
  function TagNames(tags: seq<Tag>): set<string> {
    set t | t in tags :: t.name
  }

  /** The `href` values of `find_all("a", href=True)`, in document order. */
  function AnchorHrefs(tags: seq<Tag>): seq<string> {
    if tags == [] then []
    else
      var t := tags[0];
      (if t.name == "a" && t.href.Some? then [t.href.value] else []) + AnchorHrefs(tags[1..])
  }

  /** An anchor href is collected exactly when some `<a>` tag carries it. */
  lemma {:induction false} AnchorHrefsMembers(tags: seq<Tag>)
    ensures forall h :: h in AnchorHrefs(tags) <==> exists t :: t in tags && t.name == "a" && t.href == Some(h)
  {
    if tags != [] {
      AnchorHrefsMembers(tags[1..]);
      forall h | exists t :: t in tags && t.name == "a" && t.href == Some(h)
        ensures h in AnchorHrefs(tags)
      {
        var t :| t in tags && t.name == "a" && t.href == Some(h);
        if t != tags[0] {
          assert t in tags[1..];
        }
      }
    }
  }
}
