/**
 * `SemSchTree` of src/generate_object_tree.py: the cache of scholarly-API
 * paper records and its one-hop expansion over references and citations.
 * The paper API is a function from a requested identifier to its response;
 * `None` stands for a response lacking one of the fields read, which raises
 * `KeyError` in the source and ends the operation.
 */
module SemSch {
  import opened Wrappers
  import opened Seqs
  import opened Ranking
  import opened Json
  import opened Records
  import opened Dicts

  /** An entry of the response's `citations` list. */
  datatype CitingPaper = CitingPaper(paperId: Option<string>, influentialCitationCount: Option<int>)

  /** The paper API's answer for one paper. */
  datatype PaperResponse = PaperResponse(
    paperId: string,
    title: Option<string>,
    authors: Json,
    abstractText: Option<string>,
    year: Option<int>,
    referenceCount: Option<int>,
    citationCount: Option<int>,
    influentialCitationCount: Option<int>,
    isOpenAccess: Option<bool>,
    url: Option<string>,
    citations: seq<CitingPaper>,
    references: seq<Option<string>>)

  /** A citing paper with both its identifier and its influential-citation count present. */
  datatype Ranked = Ranked(paperId: string, influence: int)

  function Influence(r: Ranked): int { r.influence }

  /** The two null filters on the citations, in order. */
  function Rankable(cs: seq<CitingPaper>): (r: seq<Ranked>)
    ensures |r| <= |cs|
    ensures forall x :: x in r <==> CitingPaper(Some(x.paperId), Some(x.influence)) in cs
  {
    if cs == [] then []
    else
      var rest := Rankable(cs[1..]);
      assert forall c :: c in cs <==> c == cs[0] || c in cs[1..];
      if cs[0].paperId.Some? && cs[0].influentialCitationCount.Some? then
        [Ranked(cs[0].paperId.value, cs[0].influentialCitationCount.value)] + rest
      else rest
  }

  /** The null filters commute with concatenation, so the survivors keep the response's order and repeats. */
  lemma {:induction false} RankableAppend(a: seq<CitingPaper>, b: seq<CitingPaper>)
    ensures Rankable(a + b) == Rankable(a) + Rankable(b)
  {
    if a != [] {
      assert (a + b)[0] == a[0] && (a + b)[1..] == a[1..] + b;
      RankableAppend(a[1..], b);
    } else {
      assert a + b == b;
    }
  }

  /** The citing papers of `cs` with an id and an influential-citation count of exactly `n`, in response order. */
  function CitersAt(cs: seq<CitingPaper>, n: int): seq<Ranked>
  {
    if cs == [] then []
    else
      (if cs[0].paperId.Some? && cs[0].influentialCitationCount == Some(n) then [Ranked(cs[0].paperId.value, n)] else [])
      + CitersAt(cs[1..], n)
  }

  /** Among the survivors of the filters, those of count `n` are the response's citing papers of count `n`, in order. */
  lemma {:induction false} RankableTies(cs: seq<CitingPaper>, n: int)
    ensures WithKey(Rankable(cs), Influence, n) == CitersAt(cs, n)
  {
    if cs != [] {
      RankableTies(cs[1..], n);
      var rest := Rankable(cs[1..]);
      if cs[0].paperId.Some? && cs[0].influentialCitationCount.Some? {
        var head := Ranked(cs[0].paperId.value, cs[0].influentialCitationCount.value);
        assert Rankable(cs) == [head] + rest;
        assert ([head] + rest)[1..] == rest;
      }
    }
  }

  /** The stored `citations`: the ten most influential citing papers. */
  function TopCitations(cs: seq<CitingPaper>): seq<string>
  {
    Map(TopN(Rankable(cs), Influence, 10), (r: Ranked) => r.paperId)
  }

  /**
   * The stored citations number at most ten (fewer only when fewer citing
   * papers have both fields), and each is the identifier of a citing paper
   * whose two fields are present.
   */
  lemma CitationsKept(cs: seq<CitingPaper>)
    ensures |TopCitations(cs)| == if |Rankable(cs)| <= 10 then |Rankable(cs)| else 10
    ensures forall k :: 0 <= k < |TopCitations(cs)| ==>
              exists n :: CitingPaper(Some(TopCitations(cs)[k]), Some(n)) in cs
  {
    var top := TopN(Rankable(cs), Influence, 10);
    TopNLength(Rankable(cs), Influence, 10);
    TopNKeepsLargest(Rankable(cs), Influence, 10);
    forall k | 0 <= k < |top| ensures CitingPaper(Some(TopCitations(cs)[k]), Some(top[k].influence)) in cs {
      assert top[k] in multiset(top);
    }
  }

  /**
   * The kept citing papers are in non-increasing order of influential-citation
   * count, no dropped one is more influential than a kept one, and among
   * equal counts the kept ones are the first in the response, in its order.
   */
  lemma CitationsRanked(cs: seq<CitingPaper>)
    ensures SortedDesc(TopN(Rankable(cs), Influence, 10), Influence)
    ensures forall y, z ::
              y in multiset(Rankable(cs)) - multiset(TopN(Rankable(cs), Influence, 10)) &&
              z in TopN(Rankable(cs), Influence, 10)
              ==> Influence(y) <= Influence(z)
    ensures forall n :: WithKey(TopN(Rankable(cs), Influence, 10), Influence, n) <= CitersAt(cs, n)
  {
    var rs := Rankable(cs);
    TopNSpec(rs, Influence, 10);
    forall n ensures WithKey(TopN(rs, Influence, 10), Influence, n) <= CitersAt(cs, n) {
      RankableTies(cs, n);
    }
  }

  /** The record `update_paper_info` builds from a response. */
  function RecordOf(r: PaperResponse): (p: SemSchPaper)
    ensures p.id == r.paperId && p.arxivId.None?
    ensures p.primaryCategory == JNull && p.secondaryCategory == JNull
    ensures |p.citations| <= 10
    ensures forall x :: x in p.citations ==> exists n :: CitingPaper(Some(x), Some(n)) in r.citations
    ensures forall x :: x in p.references <==> Some(x) in r.references
    ensures None !in r.references ==> |p.references| == |r.references|
  {
    CitationsKept(r.citations);
    SemSchPaper(r.paperId, None, r.title, r.authors, r.abstractText, JNull, JNull, r.year,
                         r.referenceCount, r.citationCount, r.influentialCitationCount, r.isOpenAccess,
                         TopCitations(r.citations), Somes(r.references), r.url)
  }

  /**
   * The record copies the response's fields under the cache's names, and
   * its references are the response's non-null ones in their order.
   */
  lemma RecordOfFields(r: PaperResponse)
    ensures var p := RecordOf(r);
            && p.title == r.title && p.authors == r.authors && p.abstractText == r.abstractText && p.year == r.year
            && p.referenceCount == r.referenceCount && p.citationCount == r.citationCount
            && p.influentialPaperCitations == r.influentialCitationCount && p.isOpenAccess == r.isOpenAccess
            && p.url == r.url && p.citations == TopCitations(r.citations) && p.references == Somes(r.references)
  {
  }

  /** The record a requested id leads to: the cached one, or the one built from the response. */
  ghost function Seed(cache: map<string, SemSchPaper>, id: string, api: string -> Option<PaperResponse>): Option<SemSchPaper>
  {
    if id in cache then Some(cache[id])
    else if api(id).Some? then Some(RecordOf(api(id).value))
    else None
  }

  /** What `fetch_paper_data` returns besides writing the caches. */
  datatype PaperView = PaperView(
    title: Option<string>,
    authors: Json,
    abstractText: Option<string>,
    referenceCount: Option<int>,
    citationCount: Option<int>,
    influentialPaperCitations: Option<int>,
    url: Option<string>,
    references: seq<SemSchPaper>,
    citations: seq<SemSchPaper>)

  /** Every neighbour of `p` is cached. */
  ghost predicate Covered(p: SemSchPaper, cache: map<string, SemSchPaper>)
  {
    (forall x :: x in p.references ==> x in cache) && (forall x :: x in p.citations ==> x in cache)
  }

  /** The cached records of the identifiers `ids`, in order. */
  function Lookup(ids: seq<string>, cache: map<string, SemSchPaper>): (rs: seq<SemSchPaper>)
    requires forall x :: x in ids ==> x in cache
    ensures |rs| == |ids|
  {
    seq(|ids|, k requires 0 <= k < |ids| => cache[ids[k]])
  }

  /** The paper's fields together with the cached records of its references and citations. */
  function ViewOf(p: SemSchPaper, cache: map<string, SemSchPaper>): PaperView
    requires Covered(p, cache)
  {
    PaperView(p.title, p.authors, p.abstractText, p.referenceCount, p.citationCount,
              p.influentialPaperCitations, p.url, Lookup(p.references, cache), Lookup(p.citations, cache))
  }

  /** The request log grew from `before` to `after`, and the last id asked for had no storable response. */
  ghost predicate PaperFailed(before: seq<string>, after: seq<string>, api: string -> Option<PaperResponse>)
  {
    |after| > |before| && api(after[|after| - 1]).None?
  }

  /**
   * Where a run of `update_paper_data` calls has got to: the cache, every id
   * sent to the paper API so far in order, and whether every response could
   * be stored (the first incomplete one raises, which ends the run).
   */
  datatype Sweep = Sweep(cache: Dict<SemSchPaper>, log: seq<string>, ok: bool)

  /** The cache after `update_paper_info` stored the record of the response `r` to a request for `id`. */
  function Stored(d: Dict<SemSchPaper>, r: PaperResponse, id: string): Dict<SemSchPaper>
  {
    var paper := RecordOf(r);
    var d' := d.Put(r.paperId, paper);
    if id != r.paperId then d'.Put(id, paper) else d'
  }

  /** Storing a response keeps the cache well formed: its record goes under the response's id and the requested id. */
  lemma StoredSpec(d: Dict<SemSchPaper>, r: PaperResponse, id: string)
    requires d.Valid()
    ensures Stored(d, r, id).Valid()
    ensures Stored(d, r, id).entries == d.entries[r.paperId := RecordOf(r)][id := RecordOf(r)]
    ensures d.order <= Stored(d, r, id).order
  {
    var d' := d.Put(r.paperId, RecordOf(r));
    PutValid(d, r.paperId, RecordOf(r));
    if id != r.paperId {
      PutValid(d', id, RecordOf(r));
      PrefixTrans(d.order, d'.order, d'.Put(id, RecordOf(r)).order);
    }
  }

  /**
   * `update_paper_data(id)` from the state `s`: a run that has failed goes
   * no further; a cached id asks nothing; any other id is sent to the API,
   * and its record stored when the response is complete.
   */
  function PaperStep(s: Sweep, id: string, api: string -> Option<PaperResponse>): Sweep
  {
    if !s.ok || id in s.cache.entries then s
    else if api(id).None? then Sweep(s.cache, s.log + [id], false)
    else Sweep(Stored(s.cache, api(id).value, id), s.log + [id], true)
  }

  /** `update_paper_data` on each of `ids` in turn, from the state `s`. */
  function SweepOn(s: Sweep, ids: seq<string>, api: string -> Option<PaperResponse>): Sweep
    decreases |ids|
  {
    if ids == [] then s else PaperStep(SweepOn(s, ids[..|ids| - 1], api), ids[|ids| - 1], api)
  }

  /** A run that has failed asks nothing more and stores nothing more. */
  lemma {:induction false} SweepFailed(s: Sweep, ids: seq<string>, api: string -> Option<PaperResponse>)
    requires !s.ok
    ensures SweepOn(s, ids, api) == s
    decreases |ids|
  {
    if ids != [] {
      SweepFailed(s, ids[..|ids| - 1], api);
    }
  }

  /** Running over `a + b` is running over `a` and then over `b`. */
  lemma {:induction false} SweepAppend(s: Sweep, a: seq<string>, b: seq<string>, api: string -> Option<PaperResponse>)
    ensures SweepOn(s, a + b, api) == SweepOn(SweepOn(s, a, api), b, api)
    decreases |b|
  {
    if b == [] {
      assert a + b == a;
    } else {
      var ab := a + b;
      assert ab[..|ab| - 1] == a + b[..|b| - 1] && ab[|ab| - 1] == b[|b| - 1];
      SweepAppend(s, a, b[..|b| - 1], api);
    }
  }

  /** A run that failed within the first `m` ids ends where it failed. */
  lemma SweepStops(s: Sweep, ids: seq<string>, m: nat, api: string -> Option<PaperResponse>)
    requires m <= |ids| && !SweepOn(s, ids[..m], api).ok
    ensures SweepOn(s, ids, api) == SweepOn(s, ids[..m], api)
  {
    assert ids == ids[..m] + ids[m..];
    SweepAppend(s, ids[..m], ids[m..], api);
    SweepFailed(SweepOn(s, ids[..m], api), ids[m..], api);
  }

  /** A run keeps the cache well formed, never drops a key, never moves one, and only appends to the log. */
  lemma {:induction false} SweepValid(s: Sweep, ids: seq<string>, api: string -> Option<PaperResponse>)
    requires s.cache.Valid()
    ensures var r := SweepOn(s, ids, api);
            && r.cache.Valid() && s.cache.entries.Keys <= r.cache.entries.Keys && s.cache.order <= r.cache.order
            && |s.log| <= |r.log| && r.log[..|s.log|] == s.log
    decreases |ids|
  {
    if ids != [] {
      var p := SweepOn(s, ids[..|ids| - 1], api);
      var id := ids[|ids| - 1];
      SweepValid(s, ids[..|ids| - 1], api);
      var r := PaperStep(p, id, api);
      if r != p {
        assert r.log[..|s.log|] == p.log[..|s.log|];
        if r.cache != p.cache {
          StoredSpec(p.cache, api(id).value, id);
          PrefixTrans(s.cache.order, p.cache.order, r.cache.order);
        }
      }
    }
  }

  /**
   * A run from a good state sends only listed ids that were not cached, each
   * once. When it succeeds every listed id is cached; when it fails, the
   * last id sent had an incomplete response.
   */
  lemma {:induction false} SweepCovers(s: Sweep, ids: seq<string>, api: string -> Option<PaperResponse>)
    requires s.cache.Valid() && s.ok
    ensures |s.log| <= |SweepOn(s, ids, api).log|
    ensures var r := SweepOn(s, ids, api);
            var sent := r.log[|s.log|..];
            && (forall x :: x in sent ==> x in ids && x !in s.cache.entries)
            && NoDup(sent)
            && (r.ok ==> forall x :: x in ids ==> x in r.cache.entries)
            && (!r.ok ==> sent != [] && api(sent[|sent| - 1]).None?)
    decreases |ids|
  {
    var r := SweepOn(s, ids, api);
    SweepValid(s, ids, api);
    if ids == [] {
      assert r.log[|s.log|..] == [];
    } else {
      var front, id := ids[..|ids| - 1], ids[|ids| - 1];
      assert forall x :: x in ids <==> x in front || x == id;
      var p := SweepOn(s, front, api);
      SweepCovers(s, front, api);
      SweepValid(s, front, api);
      if r != p {
        var sent := p.log[|s.log|..];
        assert r.log[|s.log|..] == sent + [id];
        assert id !in sent;
        NoDupSnoc(sent, id);
        if r.cache != p.cache {
          StoredSpec(p.cache, api(id).value, id);
        }
      }
    }
  }

  /** No complete response to an id in `sent` carries `x` as its `paperId`. */
  ghost predicate Untouched(x: string, sent: seq<string>, api: string -> Option<PaperResponse>)
  {
    forall y :: y in sent && api(y).Some? ==> api(y).value.paperId != x
  }

  /**
   * A cached entry survives a run unchanged unless some response to an id
   * sent during it carries the entry's id as its `paperId`.
   */
  lemma {:induction false} SweepOthers(s: Sweep, ids: seq<string>, api: string -> Option<PaperResponse>)
    requires s.cache.Valid()
    ensures var r := SweepOn(s, ids, api);
            && |s.log| <= |r.log|
            && forall x :: x in s.cache.entries && Untouched(x, r.log[|s.log|..], api) ==>
                 x in r.cache.entries && r.cache.entries[x] == s.cache.entries[x]
    decreases |ids|
  {
    var r := SweepOn(s, ids, api);
    SweepValid(s, ids, api);
    if ids != [] {
      var front, id := ids[..|ids| - 1], ids[|ids| - 1];
      var p := SweepOn(s, front, api);
      SweepOthers(s, front, api);
      SweepValid(s, front, api);
      if r != p {
        assert r.log[|s.log|..] == p.log[|s.log|..] + [id];
        if r.cache != p.cache {
          StoredSpec(p.cache, api(id).value, id);
        }
      }
    }
  }

  /** Every response answers for the id that was asked for. */
  ghost predicate PaperFaithful(api: string -> Option<PaperResponse>)
  {
    forall x :: api(x).Some? ==> api(x).value.paperId == x
  }

  /**
   * Relative to the start `s`, the state `r` holds exactly the entries of
   * `s` and the ids sent since whose responses are complete, each entry
   * being the record `Seed` gives its id.
   */
  ghost predicate FaithfulFrom(s: Sweep, r: Sweep, api: string -> Option<PaperResponse>)
  {
    && |s.log| <= |r.log|
    && (forall x :: x in r.cache.entries <==> x in s.cache.entries || (x in r.log[|s.log|..] && api(x).Some?))
    && (forall x :: x in r.cache.entries ==> Seed(s.cache.entries, x, api) == Some(r.cache.entries[x]))
  }

  /** One `update_paper_data` step keeps `FaithfulFrom` when every response answers for its id. */
  lemma FaithfulStep(s: Sweep, p: Sweep, id: string, api: string -> Option<PaperResponse>)
    requires p.cache.Valid() && PaperFaithful(api) && FaithfulFrom(s, p, api)
    ensures FaithfulFrom(s, PaperStep(p, id, api), api)
  {
    var r := PaperStep(p, id, api);
    if r != p {
      assert r.log[|s.log|..] == p.log[|s.log|..] + [id];
      if r.cache != p.cache {
        StoredSpec(p.cache, api(id).value, id);
        assert r.cache.entries == p.cache.entries[id := RecordOf(api(id).value)];
      }
    }
  }

  /**
   * When every response answers for the id asked for, a run adds exactly the
   * ids it sent whose responses are complete, overwrites nothing, and every
   * entry afterwards is the record `Seed` gives its id.
   */
  lemma {:induction false} SweepFaithful(s: Sweep, ids: seq<string>, api: string -> Option<PaperResponse>)
    requires s.cache.Valid() && PaperFaithful(api)
    ensures var r := SweepOn(s, ids, api);
            && |s.log| <= |r.log|
            && (forall x :: x in r.cache.entries <==> x in s.cache.entries || (x in r.log[|s.log|..] && api(x).Some?))
            && (forall x :: x in r.cache.entries ==> Seed(s.cache.entries, x, api) == Some(r.cache.entries[x]))
    decreases |ids|
  {
    if ids == [] {
      assert s.log[|s.log|..] == [];
    } else {
      var front := ids[..|ids| - 1];
      SweepFaithful(s, front, api);
      SweepValid(s, front, api);
      FaithfulStep(s, SweepOn(s, front, api), ids[|ids| - 1], api);
    }
  }

  /**
   * The requests and cache of `fetch_paper_data(id)` from the state `s`: the
   * id itself, then, if its record could be stored, the run over that
   * record's references followed by its citations.
   */
  ghost function PaperFetch(s: Sweep, id: string, api: string -> Option<PaperResponse>): Sweep
  {
    var t := PaperStep(s, id, api);
    if t.ok then
      var p := Seed(s.cache.entries, id, api).value;
      SweepOn(t, p.references + p.citations, api)
    else t
  }

  /**
   * What a run from the cache `d` after the requests `log0` promises about
   * the cache and the log it leaves, in the terms `update_papers` states them.
   */
  lemma SweptFacts(d: Dict<SemSchPaper>, log0: seq<string>, ids: seq<string>, api: string -> Option<PaperResponse>)
    requires d.Valid()
    ensures var r := SweepOn(Sweep(d, log0, true), ids, api);
            && r.cache.Valid() && d.entries.Keys <= r.cache.entries.Keys && d.order <= r.cache.order
            && |log0| <= |r.log| && r.log[..|log0|] == log0
            && NoDup(r.log[|log0|..]) && (forall x :: x in r.log[|log0|..] ==> x in ids && x !in d.entries)
            && (r.ok ==> forall x :: x in ids ==> x in r.cache.entries)
            && (!r.ok ==> PaperFailed(log0, r.log, api))
  {
    var s := Sweep(d, log0, true);
    var r := SweepOn(s, ids, api);
    SweepValid(s, ids, api);
    SweepCovers(s, ids, api);
    if !r.ok {
      var sent := r.log[|log0|..];
      assert r.log[|r.log| - 1] == sent[|sent| - 1];
    }
  }

  /** A request counter that goes up by one passes a multiple of 98 exactly when it lands on one. */
  lemma PauseStep(c: nat)
    ensures (c + 1) / 98 == c / 98 + (if (c + 1) % 98 == 0 then 1 else 0)
  {
  }

  class SemSchTree {
    /** `papers_dict`. */
    var papers: Dict<SemSchPaper>
    /** The identifiers sent to the paper API so far, in order. */
    ghost var requested: seq<string>
    /** The number of one-second pauses taken between requests. */
    ghost var pauses: nat

    ghost predicate Valid()
      reads this
    {
      papers.Valid()
    }

    /** A tree over a loaded cache. */
    constructor (cache: Dict<SemSchPaper>)
      requires cache.Valid()
      ensures Valid() && papers == cache && requested == [] && pauses == 0
    {
      papers := cache;
      requested := [];
      pauses := 0;
    }

    /**
     * `update_paper_info`: stores the response's record under its own id, and
     * also under the requested id when the two differ.
     */
    method UpdatePaperInfo(results: PaperResponse, requestedId: string)
      requires Valid()
      modifies this
      ensures Valid()
      ensures papers == Stored(old(papers), results, requestedId)
      ensures papers.entries ==
                old(papers.entries)[results.paperId := RecordOf(results)][requestedId := RecordOf(results)]
      ensures old(papers.order) <= papers.order
      ensures requested == old(requested) && pauses == old(pauses)
    {
      StoredSpec(papers, results, requestedId);
      var paper := RecordOf(results);
      papers := papers.Put(results.paperId, paper);
      if requestedId != results.paperId {
        papers := papers.Put(requestedId, paper);
      }
    }

    /**
     * `update_paper_data`: a cached id changes nothing and asks nothing;
     * any other id is requested once and its response stored.
     */
    method UpdatePaperData(id: string, api: string -> Option<PaperResponse>) returns (ok: bool)
      requires Valid()
      modifies this
      ensures Valid()
      ensures Sweep(papers, requested, ok) == PaperStep(Sweep(old(papers), old(requested), true), id, api)
      ensures pauses == old(pauses)
      ensures old(papers.entries).Keys <= papers.entries.Keys && old(papers.order) <= papers.order
      ensures id in old(papers.entries) ==> ok && papers == old(papers) && requested == old(requested)
      ensures id !in old(papers.entries) ==> requested == old(requested) + [id] && (ok <==> api(id).Some?)
      ensures id !in old(papers.entries) && ok ==>
                papers.entries == old(papers.entries)[api(id).value.paperId := RecordOf(api(id).value)]
                                                     [id := RecordOf(api(id).value)]
      ensures !ok ==> papers == old(papers)
      ensures ok ==> id in papers.entries && Seed(old(papers.entries), id, api) == Some(papers.entries[id])
    {
      if id in papers.entries {
        return true;
      }
      requested := requested + [id];
      var response := api(id);
      if response.None? {
        return false;
      }
      UpdatePaperInfo(response.value, id);
      ok := true;
    }

    /**
     * `update_paper_data` seen only through its `PaperStep` equation, as the
     * loop of `update_papers` needs it.
     */
    method StepPaper(id: string, api: string -> Option<PaperResponse>) returns (ok: bool)
      requires Valid()
      modifies this
      ensures Valid()
      ensures Sweep(papers, requested, ok) == PaperStep(Sweep(old(papers), old(requested), true), id, api)
      ensures pauses == old(pauses)
    {
      ok := UpdatePaperData(id, api);
    }

    /**
     * `update_papers`: fetches every id of `ids` not yet cached, pausing
     * whenever the request counter, which starts at 1, reaches a multiple
     * of 98.
     */
    method UpdatePapers(ids: seq<string>, api: string -> Option<PaperResponse>) returns (ok: bool)
      requires Valid()
      modifies this
      ensures Valid()
      ensures Sweep(papers, requested, ok) == SweepOn(Sweep(old(papers), old(requested), true), ids, api)
      ensures old(papers.entries).Keys <= papers.entries.Keys && old(papers.order) <= papers.order
      ensures |old(requested)| <= |requested| && requested[..|old(requested)|] == old(requested)
      ensures NoDup(requested[|old(requested)|..])
      ensures forall x :: x in requested[|old(requested)|..] ==> x in ids && x !in old(papers.entries)
      ensures ok ==> forall x :: x in ids ==> x in papers.entries
      ensures ok ==> pauses == old(pauses) + (1 + |requested| - |old(requested)|) / 98
      ensures !ok ==> PaperFailed(old(requested), requested, api)
      ensures !ok ==> pauses == old(pauses) + (|requested| - |old(requested)|) / 98
    {
      var counter := 1;
      ghost var start, pauses0 := Sweep(papers, requested, true), pauses;
      SweptFacts(papers, requested, ids, api);
      for n := 0 to |ids|
        invariant Valid()
        invariant SweepOn(start, ids[..n], api) == Sweep(papers, requested, true)
        invariant counter == 1 + |requested| - |start.log|
        invariant pauses == pauses0 + counter / 98
      {
        var id := ids[n];
        assert ids[..n + 1][..n] == ids[..n];
        // `papers_dict.get(id)` is truthy exactly when `id` is cached.
        if id !in papers.entries {
          var fetched := StepPaper(id, api);
          if !fetched {
            SweepStops(start, ids, n + 1, api);
            return false;
          }
          PauseStep(counter);
          counter := counter + 1;
          if counter % 98 == 0 {
            pauses := pauses + 1;
          }
        }
      }
      assert ids[..|ids|] == ids;
      ok := true;
    }

    /** The records stored under `ids`, in order. */
    method CollectRecords(ids: seq<string>) returns (list: seq<SemSchPaper>)
      requires forall x :: x in ids ==> x in papers.entries
      ensures list == Lookup(ids, papers.entries)
    {
      list := [];
      for k := 0 to |ids|
        invariant |list| == k
        invariant forall j :: 0 <= j < k ==> list[j] == papers.entries[ids[j]]
      {
        list := list + [papers.entries[ids[k]]];
      }
    }

    /** The two `update_papers` calls of `fetch_paper_data`: references first, then citations. */
    method ExpandNeighbours(paper: SemSchPaper, api: string -> Option<PaperResponse>) returns (ok: bool)
      requires Valid()
      modifies this
      ensures Valid()
      ensures Sweep(papers, requested, ok) ==
                SweepOn(Sweep(old(papers), old(requested), true), paper.references + paper.citations, api)
      ensures old(papers.entries).Keys <= papers.entries.Keys && old(papers.order) <= papers.order
      ensures ok ==> Covered(paper, papers.entries)
      ensures !ok ==> PaperFailed(old(requested), requested, api)
    {
      SweepAppend(Sweep(papers, requested, true), paper.references, paper.citations, api);
      ok := UpdatePapers(paper.references, api);
      if !ok {
        SweepFailed(Sweep(papers, requested, false), paper.citations, api);
        return;
      }
      ghost var midKeys := papers.entries.Keys;
      assert forall x :: x in paper.references ==> x in midKeys;
      ok := UpdatePapers(paper.citations, api);
    }

    /**
     * `fetch_paper_data`: makes sure the paper, then its references, then its
     * citations are cached, and returns the paper's fields with the records
     * of its neighbours as they stand at the end.
     */
    method FetchPaperData(inputId: string, api: string -> Option<PaperResponse>) returns (view: Option<PaperView>)
      requires Valid()
      modifies this
      ensures Valid()
      ensures old(papers.entries).Keys <= papers.entries.Keys && old(papers.order) <= papers.order
      ensures Seed(old(papers.entries), inputId, api).None? ==> view.None?
      ensures view.Some? ==> Seed(old(papers.entries), inputId, api).Some?
      ensures view.Some? ==> Covered(Seed(old(papers.entries), inputId, api).value, papers.entries)
      ensures view.Some? ==> view.value == ViewOf(Seed(old(papers.entries), inputId, api).value, papers.entries)
      ensures view.None? ==> PaperFailed(old(requested), requested, api)
      ensures Sweep(papers, requested, view.Some?) == PaperFetch(Sweep(old(papers), old(requested), true), inputId, api)
    {
      var ok := UpdatePaperData(inputId, api);
      if !ok {
        return None;
      }
      var paper := papers.entries[inputId];
      assert Seed(old(papers.entries), inputId, api) == Some(paper);
      ok := ExpandNeighbours(paper, api);
      if !ok {
        return None;
      }
      var referenceList := CollectRecords(paper.references);
      var citationList := CollectRecords(paper.citations);
      view := Some(PaperView(paper.title, paper.authors, paper.abstractText, paper.referenceCount,
                             paper.citationCount, paper.influentialPaperCitations, paper.url,
                             referenceList, citationList));
    }
  }
}
