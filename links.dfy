/**
 * A functional definition of `external_links()`. Tags are visited grouped by
 * name, in the order the set of tag names is iterated; each tag yields a
 * `{type, resource}` record from its `href`, or else its `src`. A record is
 * appended when it is not yet in the list and its resource neither starts
 * with `/` or `#` nor looks same-site. Reading the first character of an
 * empty resource raises `IndexError`.
 */
module Links {
  import opened Wrappers
  import opened Sequences
  import opened Html
  import SameSite

  /** A `{"type": kind, "resource": resource}` record. */
  datatype Resource = Resource(kind: string, resource: string)

  /** Python's `IndexError` from `res["resource"][0]` on an empty value. */
  datatype LinkError = EmptyResourceIndex

  /** The attribute value a tag contributes: `href` when present, otherwise `src`. */
  function Chosen(t: Tag): Option<string> {
    if t.href.Some? then t.href else t.src
  }

  function Candidate(t: Tag): Option<Resource> {
    match Chosen(t)
    case None => None
    case Some(v) => Some(Resource(t.name, v))
  }

  /** The three exclusion tests: site-relative, in-page anchor, same-site URL. */
  predicate Excluded(r: string)
    requires r != []
  {
    r[0] == '/' || r[0] == '#' || SameSite.SameSite(r)
  }

  /** A tag whose record the loop keeps (after deduplication). */
  predicate Kept(t: Tag) {
    Chosen(t).Some? && Chosen(t).value != [] && !Excluded(Chosen(t).value)
  }

  /** The records of the kept tags, repeats included, in visiting order. */
  function KeptRecords(ts: seq<Tag>): seq<Resource> {
    if ts == [] then []
    else
      var t := ts[|ts| - 1];
      KeptRecords(ts[..|ts| - 1]) + (if Kept(t) then [Candidate(t).value] else [])
  }

  /** One iteration of the inner loop, on the list built so far. */
  function Step(resources: seq<Resource>, t: Tag): Result<seq<Resource>, LinkError> {
    match Candidate(t)
    case None => Success(resources)
    case Some(res) =>
      if res in resources then Success(resources)
      else if res.resource == [] then Failure(EmptyResourceIndex)
      else if Excluded(res.resource) then Success(resources)
      else Success(resources + [res])
  }

  /** Running the inner loop body over the tags `ts` in order, starting from `[]`. */
  function Gather(ts: seq<Tag>): Result<seq<Resource>, LinkError> {
    if ts == [] then Success([])
    else
      match Gather(ts[..|ts| - 1])
      case Failure(e) => Failure(e)
      case Success(rs) => Step(rs, ts[|ts| - 1])
  }

  lemma GatherSnoc(ts: seq<Tag>, t: Tag)
    ensures Gather(ts + [t]) == match Gather(ts) { case Failure(e) => Failure(e) case Success(rs) => Step(rs, t) }
  {
    assert (ts + [t])[..|ts + [t]| - 1] == ts;
  }

  /** The inner loop taking the tag `ts[j]` after the tags `done + ts[..j]`. */
  lemma GatherPrefix(done: seq<Tag>, ts: seq<Tag>, j: nat)
    requires j < |ts|
    ensures Gather(done + ts[..j + 1])
            == match Gather(done + ts[..j]) { case Failure(e) => Failure(e) case Success(rs) => Step(rs, ts[j]) }
  {
    assert done + ts[..j + 1] == (done + ts[..j]) + [ts[j]];
    GatherSnoc(done + ts[..j], ts[j]);
  }

  /** Once the loop has raised, later tags change nothing. */
  lemma {:induction false} GatherFailurePersists(ts: seq<Tag>, more: seq<Tag>)
    requires Gather(ts).Failure?
    ensures Gather(ts + more) == Gather(ts)
  {
    if more == [] {
      assert ts + more == ts;
    } else {
      var init, t := more[..|more| - 1], more[|more| - 1];
      GatherFailurePersists(ts, init);
      assert ts + more == (ts + init) + [t];
      GatherSnoc(ts + init, t);
    }
  }

  /** A loop over `ts` that raised at the tag `ts[j - 1]` stops there. */
  lemma GatherStopsEarly(done: seq<Tag>, ts: seq<Tag>, j: nat)
    requires j <= |ts|
    requires Gather(done + ts[..j]).Failure?
    ensures Gather(done + ts) == Gather(done + ts[..j])
  {
    assert done + ts == (done + ts[..j]) + ts[j..];
    GatherFailurePersists(done + ts[..j], ts[j..]);
  }

  /** The tags in the order the nested loops visit them, for the tag-name order `names`. */
  function Visit(tags: seq<Tag>, names: seq<string>): seq<Tag> {
    if names == [] then []
    else Visit(tags, names[..|names| - 1]) + TagsNamed(tags, names[|names| - 1])
  }

  /** `names` is an iteration order of the set of tag names of `tags`. */
  ghost predicate IsNameOrder(names: seq<string>, tags: seq<Tag>) {
    NoDuplicates(names) && forall n :: n in names <==> n in TagNames(tags)
  }

  /** `external_links()` on a loaded page, for the set iteration order `names`. */
  function ExternalLinksOf(tags: seq<Tag>, names: seq<string>): Result<seq<Resource>, LinkError> {
    Gather(Visit(tags, names))
  }

  lemma {:induction false} KeptRecordsMembers(ts: seq<Tag>)
    ensures forall x :: x in KeptRecords(ts) <==> exists t :: t in ts && Kept(t) && Candidate(t) == Some(x)
  {
    if ts != [] {
      var init, t := ts[..|ts| - 1], ts[|ts| - 1];
      assert ts == init + [t];
      KeptRecordsMembers(init);
    }
  }

  /**
   * The loop fails exactly when some visited tag has an empty chosen value,
   * and otherwise returns the kept records without repeats.
   */
  lemma {:induction false} GatherMeaning(ts: seq<Tag>)
    ensures Gather(ts).Failure? <==> exists t :: t in ts && Chosen(t) == Some([])
    ensures Gather(ts).Success? ==> Gather(ts).value == Dedup(KeptRecords(ts))
  {
    if ts != [] {
      var init, t := ts[..|ts| - 1], ts[|ts| - 1];
      assert ts == init + [t];
      GatherMeaning(init);
      if Gather(init).Success? {
        var rs, k := Gather(init).value, KeptRecords(init);
        match Candidate(t)
        case None =>
          assert KeptRecords(ts) == k;
        case Some(c) =>
          DedupSnoc(k, c);
          DedupMembers(k);
          if c in rs {
            KeptRecordsMembers(init);
            var u :| u in init && Kept(u) && Candidate(u) == Some(c);
            assert Kept(t);
            assert KeptRecords(ts) == k + [c];
          } else if Kept(t) {
            assert KeptRecords(ts) == k + [c];
          } else {
            assert KeptRecords(ts) == k;
          }
      }
    }
  }

  /** The nested loops visit exactly the tags whose name is in `names`. */
  lemma {:induction false} VisitMembers(tags: seq<Tag>, names: seq<string>)
    ensures forall t :: t in Visit(tags, names) <==> t in tags && t.name in names
  {
    if names != [] {
      var init := names[..|names| - 1];
      assert names == init + [names[|names| - 1]];
      VisitMembers(tags, init);
    }
  }

  /** With a name order of the page, every tag is visited. */
  lemma VisitAll(tags: seq<Tag>, names: seq<string>)
    requires IsNameOrder(names, tags)
    ensures forall t :: t in Visit(tags, names) <==> t in tags
  {
    VisitMembers(tags, names);
    forall t | t in tags ensures t.name in names {
      assert t.name in TagNames(tags);
    }
  }

  /** `external_links()` raises `IndexError` exactly when some tag's chosen value is empty. */
  lemma ExternalLinksFails(tags: seq<Tag>, names: seq<string>)
    requires IsNameOrder(names, tags)
    ensures ExternalLinksOf(tags, names).Failure? <==> exists t :: t in tags && Chosen(t) == Some([])
  {
    VisitAll(tags, names);
    GatherMeaning(Visit(tags, names));
  }

  /** A visited tag with an empty chosen value makes the whole call fail. */
  lemma EmptyResourceFails(tags: seq<Tag>, names: seq<string>, t: Tag)
    requires t in tags && t.name in names && Chosen(t) == Some([])
    ensures ExternalLinksOf(tags, names) == Failure(EmptyResourceIndex)
  {
    VisitMembers(tags, names);
    GatherMeaning(Visit(tags, names));
    assert ExternalLinksOf(tags, names).error == EmptyResourceIndex;
  }

  /**
   * On success, the list has no repeated record; each record comes from a
   * tag, taking its name and its `href` if present, else its `src`, and its
   * resource is not site-relative, not an anchor and not same-site; and every
   * tag whose chosen value passes those tests has its record in the list.
   */
  lemma ExternalLinksSuccess(tags: seq<Tag>, names: seq<string>)
    requires IsNameOrder(names, tags)
    requires ExternalLinksOf(tags, names).Success?
    ensures NoDuplicates(ExternalLinksOf(tags, names).value)
    ensures forall x :: x in ExternalLinksOf(tags, names).value ==>
              exists t :: t in tags && x.kind == t.name && Chosen(t) == Some(x.resource)
    ensures forall x :: x in ExternalLinksOf(tags, names).value ==>
              x.resource != [] && x.resource[0] != '/' && x.resource[0] != '#'
              && !SameSite.SameSitePattern(x.resource)
    ensures forall t :: t in tags && Kept(t) ==> Candidate(t).value in ExternalLinksOf(tags, names).value
  {
    var ts := Visit(tags, names);
    VisitAll(tags, names);
    GatherMeaning(ts);
    DedupDistinct(KeptRecords(ts));
    DedupMembers(KeptRecords(ts));
    KeptRecordsMembers(ts);
    forall x | x in ExternalLinksOf(tags, names).value
      ensures !SameSite.SameSitePattern(x.resource)
    {
      SameSite.SameSiteCorrect(x.resource);
    }
  }

  /**
   * The order in which the set of tag names is iterated changes neither
   * whether the call fails nor which records it returns.
   */
  lemma ExternalLinksOrderIndependent(tags: seq<Tag>, names1: seq<string>, names2: seq<string>)
    requires IsNameOrder(names1, tags) && IsNameOrder(names2, tags)
    ensures ExternalLinksOf(tags, names1).Success? == ExternalLinksOf(tags, names2).Success?
    ensures ExternalLinksOf(tags, names1).Success? ==>
              forall x :: x in ExternalLinksOf(tags, names1).value <==> x in ExternalLinksOf(tags, names2).value
  {
    ExternalLinksFails(tags, names1);
    ExternalLinksFails(tags, names2);
    var ts1, ts2 := Visit(tags, names1), Visit(tags, names2);
    VisitAll(tags, names1);
    VisitAll(tags, names2);
    GatherMeaning(ts1);
    GatherMeaning(ts2);
    DedupMembers(KeptRecords(ts1));
    DedupMembers(KeptRecords(ts2));
    KeptRecordsMembers(ts1);
    KeptRecordsMembers(ts2);
  }
}
