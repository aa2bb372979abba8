/**
 * `AuthorTree` of src/generate_object_tree.py: the cache of scholarly-API
 * author records, the co-author set derived from an author's papers, and
 * the ranked profile `get_author_data` assembles. The author API is a
 * function from a requested identifier to its response; `None` stands for a
 * response the record cannot be built from, which the source catches and
 * hands to the debugger, leaving the cache as it was.
 */
module AuthorGraph {
  import opened Wrappers
  import opened Seqs
  import opened Ranking
  import opened Records
  import opened Dicts
  import opened SemSch

  /** An entry of the response's `papers` list. */
  datatype AuthoredPaper = AuthoredPaper(paperId: Option<string>, authorIds: seq<Option<string>>)

  /** The author API's answer for one author. */
  datatype AuthorResponse = AuthorResponse(
    authorId: string,
    name: Option<string>,
    homepage: Option<string>,
    paperCount: Option<int>,
    citationCount: Option<int>,
    hIndex: Option<int>,
    papers: seq<AuthoredPaper>)

  /**
   * `worked_with`: every author id on the author's papers, each once, except
   * the author's own id; a missing id (`None`) is kept like any other.
   */
  function Coauthors(ps: seq<AuthoredPaper>, self: string): (ids: seq<Option<string>>)
    ensures NoDup(ids)
    ensures forall x :: x in ids <==> x != Some(self) && exists k :: 0 <= k < |ps| && x in ps[k].authorIds
  {
    var all := Flatten(Map(ps, (p: AuthoredPaper) => p.authorIds));
    assert forall x :: x in all <==> exists k :: 0 <= k < |ps| && x in ps[k].authorIds by {
      forall x ensures x in all <==> exists k :: 0 <= k < |ps| && x in ps[k].authorIds {
        if x in all {
          var k :| 0 <= k < |ps| && x in Map(ps, (p: AuthoredPaper) => p.authorIds)[k];
          assert x in ps[k].authorIds;
        }
      }
    }
    Without(Dedup(all), Some(self))
  }

  /** The record `update_author_info` builds from a response. */
  function AuthorOf(r: AuthorResponse): (a: Author)
    ensures a.id == r.authorId && a.name == r.name && a.homepage == r.homepage
    ensures a.paperCount == r.paperCount && a.citations == r.citationCount && a.hindex == r.hIndex
    ensures |a.papers| == |r.papers| && forall k :: 0 <= k < |r.papers| ==> a.papers[k] == r.papers[k].paperId
    ensures NoDup(a.workedWith) && Some(a.id) !in a.workedWith
    ensures forall x :: x in a.workedWith <==> x != Some(r.authorId) && exists k :: 0 <= k < |r.papers| && x in r.papers[k].authorIds
  {
    Author(r.authorId, r.name, r.homepage, r.paperCount, r.citationCount, r.hIndex,
           Map(r.papers, (p: AuthoredPaper) => p.paperId), Coauthors(r.papers, r.authorId))
  }

  predicate HasCitations(a: Author) { a.citations.Some? }

  /** The sort key of co-authors, used only on those with a citation count. */
  function AuthorCitations(a: Author): int { a.citations.GetOr(0) }

  predicate HasCitationCount(p: SemSchPaper) { p.citationCount.Some? }

  /** The sort key of papers, used only on those with a citation count. */
  function PaperCitations(p: SemSchPaper): int { p.citationCount.GetOr(0) }

  /** The cached co-authors with a citation count, the 50 most cited first. */
  function TopCoauthors(cache: map<string, Author>, workedWith: seq<Option<string>>): seq<Author>
  {
    TopN(Filter(Present(cache, workedWith), HasCitations), AuthorCitations, 50)
  }

  /** The cached papers with a citation count, most cited first. */
  function RankPapers(cache: map<string, SemSchPaper>, paperIds: seq<Option<string>>): seq<SemSchPaper>
  {
    SortDesc(Filter(Present(cache, paperIds), HasCitationCount), PaperCitations)
  }

  /**
   * The co-author ranking keeps min(50, candidates) of the cached
   * co-authors that have a citation count, each no more often than it is a
   * candidate, in non-increasing order of citations, and no candidate left
   * out of the cut outranks one kept.
   */
  lemma TopCoauthorsRanked(cache: map<string, Author>, workedWith: seq<Option<string>>)
    ensures var pool := Filter(Present(cache, workedWith), HasCitations);
            var top := TopCoauthors(cache, workedWith);
            && |top| == (if |pool| <= 50 then |pool| else 50)
            && multiset(top) <= multiset(pool)
            && SortedDesc(top, AuthorCitations)
            && (forall y, z :: y in multiset(pool) - multiset(top) && z in top ==> AuthorCitations(y) <= AuthorCitations(z))
  {
    TopNSpec(Filter(Present(cache, workedWith), HasCitations), AuthorCitations, 50);
  }

  /** Every ranked co-author is the cached record of an id in `workedWith`, and has a citation count. */
  lemma TopCoauthorsFrom(cache: map<string, Author>, workedWith: seq<Option<string>>, a: Author)
    requires a in TopCoauthors(cache, workedWith)
    ensures a.citations.Some?
    ensures exists x :: Some(x) in workedWith && x in cache && cache[x] == a
  {
    var present := Present(cache, workedWith);
    var pool := Filter(present, HasCitations);
    var sorted := SortDesc(pool, AuthorCitations);
    assert a in sorted by {
      if |sorted| > 50 {
        assert a in sorted[..50];
      }
    }
    assert a in multiset(sorted);
    assert a in multiset(pool);
    var j :| 0 <= j < |pool| && pool[j] == a;
    assert HasCitations(pool[j]);
    assert a in multiset(present);
    assert a in present;
  }

  /**
   * The paper ranking is a permutation of the cached papers that have a
   * citation count, in non-increasing order of citations.
   */
  lemma RankPapersSpec(cache: map<string, SemSchPaper>, paperIds: seq<Option<string>>)
    ensures var pool := Filter(Present(cache, paperIds), HasCitationCount);
            && multiset(RankPapers(cache, paperIds)) == multiset(pool)
            && SortedDesc(RankPapers(cache, paperIds), PaperCitations)
            && forall p :: p in RankPapers(cache, paperIds) ==> p.citationCount.Some?
  {
    var pool := Filter(Present(cache, paperIds), HasCitationCount);
    SortDescSorted(pool, PaperCitations);
    forall p | p in RankPapers(cache, paperIds) ensures p.citationCount.Some? {
      assert p in multiset(RankPapers(cache, paperIds));
      var j :| 0 <= j < |pool| && pool[j] == p;
      assert HasCitationCount(pool[j]);
    }
  }

  /** The author record a requested id leads to: the cached one, or the one stored under that id from the response. */
  ghost function Subject(cache: map<string, Author>, id: string, api: string -> Option<AuthorResponse>): Option<Author>
  {
    if id in cache then Some(cache[id])
    else if api(id).Some? && api(id).value.authorId == id then Some(AuthorOf(api(id).value))
    else None
  }

  /**
   * The cache after one `request_and_update` of `id`: unchanged for a cached
   * id or a response the record cannot be built from, and otherwise with the
   * response's record stored under the response's author id.
   */
  function Step(d: Dict<Author>, id: string, api: string -> Option<AuthorResponse>): Dict<Author>
  {
    if id in d.entries || api(id).None? then d
    else d.Put(api(id).value.authorId, AuthorOf(api(id).value))
  }

  /** The ids `Step` sends to the author API: the id, when it is not cached. */
  function StepLog(d: Dict<Author>, id: string): seq<string>
  {
    if id in d.entries then [] else [id]
  }

  /** The cache after `request_and_update` was applied to each of `ids` in turn. */
  function FetchAll(d: Dict<Author>, ids: seq<string>, api: string -> Option<AuthorResponse>): Dict<Author>
  {
    if ids == [] then d
    else Step(FetchAll(d, ids[..|ids| - 1], api), ids[|ids| - 1], api)
  }

  /** The ids sent to the author API while `FetchAll` runs, in order. */
  function FetchLog(d: Dict<Author>, ids: seq<string>, api: string -> Option<AuthorResponse>): seq<string>
  {
    if ids == [] then []
    else
      var front := ids[..|ids| - 1];
      FetchLog(d, front, api) + StepLog(FetchAll(d, front, api), ids[|ids| - 1])
  }

  /** A request keeps the cache well formed and never drops a key. */
  lemma StepValid(d: Dict<Author>, id: string, api: string -> Option<AuthorResponse>)
    requires d.Valid()
    ensures Step(d, id, api).Valid()
    ensures d.entries.Keys <= Step(d, id, api).entries.Keys
  {
    if id !in d.entries && api(id).Some? {
      PutValid(d, api(id).value.authorId, AuthorOf(api(id).value));
    }
  }

  lemma {:induction false} FetchAllValid(d: Dict<Author>, ids: seq<string>, api: string -> Option<AuthorResponse>)
    requires d.Valid()
    ensures FetchAll(d, ids, api).Valid()
    ensures d.entries.Keys <= FetchAll(d, ids, api).entries.Keys
  {
    if ids != [] {
      FetchAllValid(d, ids[..|ids| - 1], api);
      StepValid(FetchAll(d, ids[..|ids| - 1], api), ids[|ids| - 1], api);
    }
  }

  /**
   * Every listed id ends up cached or was sent to the API, and every id sent
   * is a listed id that was not cached before; no id is sent twice when none
   * is listed twice.
   */
  lemma {:induction false} FetchCovers(d: Dict<Author>, ids: seq<string>, api: string -> Option<AuthorResponse>)
    requires d.Valid()
    ensures forall x :: x in ids ==> x in FetchAll(d, ids, api).entries || x in FetchLog(d, ids, api)
    ensures forall x :: x in FetchLog(d, ids, api) ==> x in ids && x !in d.entries
    ensures NoDup(ids) ==> NoDup(FetchLog(d, ids, api))
  {
    if ids != [] {
      var front, last := ids[..|ids| - 1], ids[|ids| - 1];
      var mid := FetchAll(d, front, api);
      FetchCovers(d, front, api);
      assert ids == front + [last];
      assert FetchAll(d, ids, api) == Step(mid, last, api);
      assert d.entries.Keys <= mid.entries.Keys by {
        FetchAllValid(d, front, api);
      }
      assert mid.entries.Keys <= Step(mid, last, api).entries.Keys;
      assert FetchLog(d, ids, api) == FetchLog(d, front, api) + StepLog(mid, last);
      assert forall x :: x in ids <==> x in front || x == last;
      if NoDup(ids) {
        NoDupSnoc(front, last);
        if last !in mid.entries {
          NoDupSnoc(FetchLog(d, front, api), last);
        }
      }
    }
  }

  /** Every response answers for the id that was asked for. */
  ghost predicate Faithful(api: string -> Option<AuthorResponse>)
  {
    forall x :: api(x).Some? ==> api(x).value.authorId == x
  }

  /**
   * When every response answers for the id asked for, each id ends up
   * holding exactly the record `Subject` gives it: a listed id is cached
   * iff it was cached or its response is complete, and every listed id not
   * cached before is sent to the API. Ids not listed keep their state.
   */
  lemma {:induction false} FetchFaithful(d: Dict<Author>, ids: seq<string>, api: string -> Option<AuthorResponse>)
    requires d.Valid() && Faithful(api)
    ensures forall x :: x in FetchAll(d, ids, api).entries <==>
              x in d.entries || (x in ids && Subject(d.entries, x, api).Some?)
    ensures forall x :: x in FetchAll(d, ids, api).entries ==>
              Subject(d.entries, x, api) == Some(FetchAll(d, ids, api).entries[x])
    ensures forall x :: x in ids && x !in d.entries ==> x in FetchLog(d, ids, api)
  {
    if ids != [] {
      var front, last := ids[..|ids| - 1], ids[|ids| - 1];
      var mid := FetchAll(d, front, api);
      FetchFaithful(d, front, api);
      FetchAllValid(d, front, api);
      assert ids == front + [last];
      assert forall x :: x in ids <==> x in front || x == last;
      if last !in mid.entries && api(last).Some? {
        assert api(last).value.authorId == last;
        PutValid(mid, last, AuthorOf(api(last).value));
      }
    }
  }

  /**
   * The author cache `d` and request log `log` after the author `a` was
   * requested under `authorId` and then each of its co-authors, starting
   * from `d0` and `log0`: every co-author is then cached or was requested.
   */
  ghost predicate CoauthorsFetched(d0: Dict<Author>, log0: seq<string>, d: Dict<Author>, log: seq<string>,
                                   authorId: string, a: Author, api: string -> Option<AuthorResponse>)
  {
    var mid := Step(d0, authorId, api);
    && d == FetchAll(mid, Somes(a.workedWith), api)
    && log == log0 + StepLog(d0, authorId) + FetchLog(mid, Somes(a.workedWith), api)
    && forall x :: Some(x) in a.workedWith ==> x in d.entries || x in log[|log0|..]
  }

  /** What `get_author_data` returns besides writing the caches. */
  datatype AuthorProfile = AuthorProfile(
    name: Option<string>,
    homepage: Option<string>,
    paperCount: Option<int>,
    citations: Option<int>,
    hindex: Option<int>,
    coauthors: seq<Author>,
    papers: seq<SemSchPaper>)

  /** The profile of author `a` over the two caches. */
  function ProfileOf(a: Author, authors: map<string, Author>, papers: map<string, SemSchPaper>): AuthorProfile
  {
    AuthorProfile(a.name, a.homepage, a.paperCount, a.citations, a.hindex,
                  TopCoauthors(authors, a.workedWith), RankPapers(papers, a.papers))
  }

  /**
   * The second loop of `get_author_data`: makes sure every paper is cached
   * in the scholarly tree, pausing whenever the request counter, which
   * starts at 1, reaches a multiple of 98; a response that cannot be stored
   * ends it.
   */
  method CachePapers(semsch: SemSchTree, ids: seq<string>, api: string -> Option<PaperResponse>) returns (ok: bool)
    requires semsch.Valid()
    modifies semsch
    ensures semsch.Valid()
    ensures Sweep(semsch.papers, semsch.requested, ok) ==
              SweepOn(Sweep(old(semsch.papers), old(semsch.requested), true), ids, api)
    ensures old(semsch.papers.entries).Keys <= semsch.papers.entries.Keys
    ensures |old(semsch.requested)| <= |semsch.requested|
    ensures ok ==> forall x :: x in ids ==> x in semsch.papers.entries
    ensures ok ==> semsch.pauses == old(semsch.pauses) + (1 + |semsch.requested| - |old(semsch.requested)|) / 98
    ensures !ok ==> PaperFailed(old(semsch.requested), semsch.requested, api)
    ensures !ok ==> semsch.pauses == old(semsch.pauses) + (|semsch.requested| - |old(semsch.requested)|) / 98
  {
    var counter := 1;
    ghost var start, pauses0 := Sweep(semsch.papers, semsch.requested, true), semsch.pauses;
    SweptFacts(semsch.papers, semsch.requested, ids, api);
    for n := 0 to |ids|
      invariant semsch.Valid()
      invariant SweepOn(start, ids[..n], api) == Sweep(semsch.papers, semsch.requested, true)
      invariant counter == 1 + |semsch.requested| - |start.log|
      invariant semsch.pauses == pauses0 + counter / 98
    {
      var id := ids[n];
      assert ids[..n + 1][..n] == ids[..n];
      // `papers_dict.get(id)` is truthy exactly when `id` is cached.
      if id !in semsch.papers.entries {
        var fetched := semsch.UpdatePaperData(id, api);
        if !fetched {
          SweepStops(start, ids, n + 1, api);
          return false;
        }
        PauseStep(counter);
        counter := counter + 1;
        if counter % 98 == 0 {
          semsch.pauses := semsch.pauses + 1;
        }
      }
    }
    assert ids[..|ids|] == ids;
    ok := true;
  }

  class AuthorTree {
    /** `author_dict`. */
    var authors: Dict<Author>
    /** The identifiers sent to the author API so far, in order. */
    ghost var requested: seq<string>

    ghost predicate Valid()
      reads this
    {
      authors.Valid()
    }

    /** A tree over a loaded cache. */
    constructor (cache: Dict<Author>)
      requires cache.Valid()
      ensures Valid() && authors == cache && requested == []
    {
      authors := cache;
      requested := [];
    }

    /** `update_author_info`: stores the response's record under the response's author id. */
    method UpdateAuthorInfo(results: AuthorResponse)
      requires Valid()
      modifies this
      ensures Valid()
      ensures authors == old(authors).Put(results.authorId, AuthorOf(results))
      ensures requested == old(requested)
    {
      PutValid(authors, results.authorId, AuthorOf(results));
      authors := authors.Put(results.authorId, AuthorOf(results));
    }

    /**
     * `request_and_update`: a cached id changes nothing and asks nothing;
     * any other id is requested once and a well-formed response stored.
     */
    method RequestAndUpdate(id: string, api: string -> Option<AuthorResponse>)
      requires Valid()
      modifies this
      ensures Valid()
      ensures old(authors.entries).Keys <= authors.entries.Keys
      ensures authors == Step(old(authors), id, api)
      ensures requested == old(requested) + StepLog(old(authors), id)
      ensures id in authors.entries <==> Subject(old(authors.entries), id, api).Some?
      ensures id in authors.entries ==> Subject(old(authors.entries), id, api) == Some(authors.entries[id])
    {
      if id in authors.entries {
        return;
      }
      requested := requested + [id];
      var response := api(id);
      if response.Some? {
        UpdateAuthorInfo(response.value);
      }
    }

    /**
     * The first loop of `get_author_data`: requests every co-author not yet
     * cached, in list order; each listed id ends up cached or requested.
     */
    method RequestCoauthors(ids: seq<string>, api: string -> Option<AuthorResponse>)
      requires Valid()
      modifies this
      ensures Valid()
      ensures old(authors.entries).Keys <= authors.entries.Keys
      ensures authors == FetchAll(old(authors), ids, api)
      ensures requested == old(requested) + FetchLog(old(authors), ids, api)
      ensures forall x :: x in ids ==> x in authors.entries || x in requested[|old(requested)|..]
      ensures forall x :: x in requested[|old(requested)|..] ==> x in ids && x !in old(authors.entries)
      ensures NoDup(ids) ==> NoDup(requested[|old(requested)|..])
    {
      ghost var start, log := authors, requested;
      for n := 0 to |ids|
        invariant Valid()
        invariant authors == FetchAll(start, ids[..n], api)
        invariant requested == log + FetchLog(start, ids[..n], api)
      {
        assert ids[..n + 1][..n] == ids[..n];
        // `author_dict.get(id)` is truthy exactly when `id` is cached.
        if ids[n] !in authors.entries {
          RequestAndUpdate(ids[n], api);
        }
      }
      assert ids[..|ids|] == ids;
      assert requested[|log|..] == FetchLog(start, ids, api);
      FetchCovers(start, ids, api);
      FetchAllValid(start, ids, api);
    }

    /**
     * The author and co-author requests of `get_author_data`: the author's
     * record when the author is cached or resolves, and then every co-author
     * of it cached or requested.
     */
    method RequestAuthor(authorId: string, api: string -> Option<AuthorResponse>) returns (author: Option<Author>)
      requires Valid()
      modifies this
      ensures Valid()
      ensures old(authors.entries).Keys <= authors.entries.Keys
      ensures author == Subject(old(authors.entries), authorId, api)
      ensures author.Some? ==> CoauthorsFetched(old(authors), old(requested), authors, requested, authorId, author.value, api)
      ensures author.None? ==>
                authors == Step(old(authors), authorId, api) && requested == old(requested) + StepLog(old(authors), authorId)
    {
      RequestAndUpdate(authorId, api);
      if authorId !in authors.entries {
        return None;
      }
      author := Some(authors.entries[authorId]);
      ghost var midLog := requested;
      RequestCoauthors(Somes(author.value.workedWith), api);
      assert forall x :: x in requested[|midLog|..] ==> x in requested[|old(requested)|..];
    }

    /**
     * `get_author_data`: makes sure the author, then the co-authors, then
     * the author's papers are cached, and returns the author's fields with
     * the ranked co-authors and papers as the caches stand at the end. A
     * paper response that cannot be stored ends the operation.
     */
    method GetAuthorData(semsch: SemSchTree, authorId: string, authorApi: string -> Option<AuthorResponse>,
                         paperApi: string -> Option<PaperResponse>) returns (profile: Option<AuthorProfile>)
      requires Valid() && semsch.Valid()
      modifies this, semsch
      ensures Valid() && semsch.Valid()
      ensures old(authors.entries).Keys <= authors.entries.Keys
      ensures old(semsch.papers.entries).Keys <= semsch.papers.entries.Keys
      ensures Subject(old(authors.entries), authorId, authorApi).None? ==> profile.None?
      ensures profile.Some? ==> Subject(old(authors.entries), authorId, authorApi).Some?
      ensures profile.Some? ==>
                var a := Subject(old(authors.entries), authorId, authorApi).value;
                && (forall x :: Some(x) in a.papers ==> x in semsch.papers.entries)
                && profile.value == ProfileOf(a, authors.entries, semsch.papers.entries)
      ensures Subject(old(authors.entries), authorId, authorApi).Some? ==>
                CoauthorsFetched(old(authors), old(requested), authors, requested, authorId,
                                 Subject(old(authors.entries), authorId, authorApi).value, authorApi)
      ensures profile.None? && Subject(old(authors.entries), authorId, authorApi).Some? ==>
                PaperFailed(old(semsch.requested), semsch.requested, paperApi)
      ensures Subject(old(authors.entries), authorId, authorApi).None? ==>
                && authors == Step(old(authors), authorId, authorApi)
                && requested == old(requested) + StepLog(old(authors), authorId)
                && semsch.papers == old(semsch.papers) && semsch.requested == old(semsch.requested)
                && semsch.pauses == old(semsch.pauses)
      ensures profile.Some? ==>
                semsch.pauses == old(semsch.pauses) + (1 + |semsch.requested| - |old(semsch.requested)|) / 98
      ensures profile.None? && Subject(old(authors.entries), authorId, authorApi).Some? ==>
                semsch.pauses == old(semsch.pauses) + (|semsch.requested| - |old(semsch.requested)|) / 98
      ensures Subject(old(authors.entries), authorId, authorApi).Some? ==>
                Sweep(semsch.papers, semsch.requested, profile.Some?) ==
                  SweepOn(Sweep(old(semsch.papers), old(semsch.requested), true),
                          Somes(Subject(old(authors.entries), authorId, authorApi).value.papers), paperApi)
    {
      ghost var asked := semsch.requested;
      var author := RequestAuthor(authorId, authorApi);
      if author.None? {
        return None;
      }
      assert semsch.requested == asked;
      profile := RankedProfile(semsch, author.value, paperApi);
    }

    /**
     * The second half of `get_author_data`, for the author record `a`:
     * caches the author's papers, then ranks co-authors and papers over the
     * caches as they stand; a paper response that cannot be stored ends it.
     */
    method RankedProfile(semsch: SemSchTree, a: Author, paperApi: string -> Option<PaperResponse>)
      returns (profile: Option<AuthorProfile>)
      requires semsch.Valid()
      modifies semsch
      ensures semsch.Valid()
      ensures old(semsch.papers.entries).Keys <= semsch.papers.entries.Keys
      ensures profile.Some? ==>
                && (forall x :: Some(x) in a.papers ==> x in semsch.papers.entries)
                && profile.value == ProfileOf(a, authors.entries, semsch.papers.entries)
      ensures profile.None? ==> PaperFailed(old(semsch.requested), semsch.requested, paperApi)
      ensures Sweep(semsch.papers, semsch.requested, profile.Some?) ==
                SweepOn(Sweep(old(semsch.papers), old(semsch.requested), true), Somes(a.papers), paperApi)
      ensures profile.Some? ==>
                semsch.pauses == old(semsch.pauses) + (1 + |semsch.requested| - |old(semsch.requested)|) / 98
      ensures profile.None? ==>
                semsch.pauses == old(semsch.pauses) + (|semsch.requested| - |old(semsch.requested)|) / 98
    {
      var ok := CachePapers(semsch, Somes(a.papers), paperApi);
      if !ok {
        return None;
      }
      profile := Some(ProfileOf(a, authors.entries, semsch.papers.entries));
    }
  }
}
