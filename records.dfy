/**
 * The record models of src/primitive_objects.py: a paper found by the
 * preprint search (`ArxivPaper`), an enriched paper from the scholarly API
 * (`SemSchPaper`) and an author (`Authors`). Each is a value here, the
 * snapshot `vars(obj)` of the Python object; the one object the source
 * mutates after construction, `ArxivPaper`, is also a class.
 */
module Records {
  import opened Wrappers
  import opened Text
  import opened Json

  const SEMSCH_LINK := "https://api.semanticscholar.org/graph/v1"

  /** Appended to the title of a preprint the scholarly API does not know. */
  const NOT_ON_SEMSCH := " (Unfortunately, this paper is not available on semantic scholar so you can't explore it further) :/ "

  /** A preprint search result: `id` is its scholarly-API identifier once resolved. */
  datatype ArxivRecord = ArxivRecord(
    id: Option<string>,
    arxivId: string,
    title: string,
    authors: seq<string>,
    abstractText: string,
    primaryCategory: seq<string>,
    secondaryCategory: seq<string>)

  /** A paper of the scholarly API with its citation neighbourhood. */
  datatype SemSchPaper = SemSchPaper(
    id: string,
    arxivId: Option<string>,
    title: Option<string>,
    authors: Json,
    abstractText: Option<string>,
    primaryCategory: Json,
    secondaryCategory: Json,
    year: Option<int>,
    referenceCount: Option<int>,
    citationCount: Option<int>,
    influentialPaperCitations: Option<int>,
    isOpenAccess: Option<bool>,
    citations: seq<string>,
    references: seq<string>,
    url: Option<string>)

  /** An author of the scholarly API with the identifiers of papers and co-authors. */
  datatype Author = Author(
    id: string,
    name: Option<string>,
    homepage: Option<string>,
    paperCount: Option<int>,
    citations: Option<int>,
    hindex: Option<int>,
    papers: seq<Option<string>>,
    workedWith: seq<Option<string>>)

  // ---------------------------------------------------------------------
  // The `cache_file` constructor mode: every field from the same-named key.
  // ---------------------------------------------------------------------

  const PAPER_KEYS: set<string> :=
    {"id", "arxiv_id", "title", "authors", "abstract", "primary_category", "secondary_category"}

  function ArxivToCache(r: ArxivRecord): (d: map<string, Json>)
    ensures d.Keys == PAPER_KEYS
  {
    map["id" := EncOptStr(r.id), "arxiv_id" := EncStr(r.arxivId), "title" := EncStr(r.title),
        "authors" := EncStrList(r.authors), "abstract" := EncStr(r.abstractText),
        "primary_category" := EncStrList(r.primaryCategory),
        "secondary_category" := EncStrList(r.secondaryCategory)]
  }

  /** `Paper(cache_file=d)`: `None` when a key is missing or holds a value of another shape. */
  function ArxivFromCache(d: map<string, Json>): Option<ArxivRecord>
  {
    var id :- Read(d, "id", DecOptStr);
    var title :- Read(d, "title", DecStr);
    var authors :- Read(d, "authors", DecStrList);
    var abstractText :- Read(d, "abstract", DecStr);
    var primary :- Read(d, "primary_category", DecStrList);
    var secondary :- Read(d, "secondary_category", DecStrList);
    var arxivId :- Read(d, "arxiv_id", DecStr);
    Some(ArxivRecord(id, arxivId, title, authors, abstractText, primary, secondary))
  }

  /** A preprint record survives a trip through its cache dictionary. */
  lemma ArxivCacheRoundTrip(r: ArxivRecord)
    ensures ArxivFromCache(ArxivToCache(r)) == Some(r)
  {
    var d := ArxivToCache(r);
    ItemsRoundTrip(r.authors, EncStr, DecStr);
    ItemsRoundTrip(r.primaryCategory, EncStr, DecStr);
    ItemsRoundTrip(r.secondaryCategory, EncStr, DecStr);
    assert Read(d, "id", DecOptStr) == Some(r.id) by { assert d["id"] == EncOptStr(r.id); }
    assert Read(d, "title", DecStr) == Some(r.title);
    assert Read(d, "authors", DecStrList) == Some(r.authors);
    assert Read(d, "abstract", DecStr) == Some(r.abstractText);
    assert Read(d, "primary_category", DecStrList) == Some(r.primaryCategory);
    assert Read(d, "secondary_category", DecStrList) == Some(r.secondaryCategory);
    assert Read(d, "arxiv_id", DecStr) == Some(r.arxivId);
  }

  /**
   * The cache constructor takes each field from the same-named key and
   * accepts only what the writer would produce: a dictionary it reads is
   * exactly the cache form of the result, up to keys it ignores.
   */
  lemma ArxivCacheCanonical(d: map<string, Json>)
    requires ArxivFromCache(d).Some?
    ensures PAPER_KEYS <= d.Keys
    ensures forall k :: k in PAPER_KEYS ==> d[k] == ArxivToCache(ArxivFromCache(d).value)[k]
  {
    var r := ArxivFromCache(d).value;
    ItemsCanonical(d["authors"].items, r.authors, EncStr, DecStr);
    ItemsCanonical(d["primary_category"].items, r.primaryCategory, EncStr, DecStr);
    ItemsCanonical(d["secondary_category"].items, r.secondaryCategory, EncStr, DecStr);
    assert EncOptStr(r.id) == d["id"];
  }

  const SEMSCH_KEYS: set<string> := PAPER_KEYS +
    {"year", "reference_count", "citation_count", "influential_paper_citations",
     "is_open_access", "citations", "references", "url"}

  /** The cache entries a scholarly record shares with a preprint record. */
  function SemSchHeadCache(p: SemSchPaper): (d: map<string, Json>)
    ensures d.Keys == PAPER_KEYS
  {
    map["id" := EncStr(p.id), "arxiv_id" := EncOptStr(p.arxivId), "title" := EncOptStr(p.title),
        "authors" := p.authors, "abstract" := EncOptStr(p.abstractText),
        "primary_category" := p.primaryCategory, "secondary_category" := p.secondaryCategory]
  }

  /** The cache entries only a scholarly record has. */
  function SemSchTailCache(p: SemSchPaper): (d: map<string, Json>)
    ensures d.Keys == SEMSCH_KEYS - PAPER_KEYS
  {
    map["year" := EncOptInt(p.year), "reference_count" := EncOptInt(p.referenceCount),
        "citation_count" := EncOptInt(p.citationCount),
        "influential_paper_citations" := EncOptInt(p.influentialPaperCitations),
        "is_open_access" := EncOptBool(p.isOpenAccess),
        "citations" := EncStrList(p.citations), "references" := EncStrList(p.references),
        "url" := EncOptStr(p.url)]
  }

  function SemSchToCache(p: SemSchPaper): (d: map<string, Json>)
    ensures d.Keys == SEMSCH_KEYS
  {
    SemSchHeadCache(p) + SemSchTailCache(p)
  }

  /** The seven keys a scholarly record shares with a preprint record. */
  function SemSchHead(d: map<string, Json>): Option<(string, Option<string>, Json, Option<string>, Json, Json, Option<string>)>
  {
    var id :- Read(d, "id", DecStr);
    var title :- Read(d, "title", DecOptStr);
    var authors :- Read(d, "authors", DecRaw);
    var abstractText :- Read(d, "abstract", DecOptStr);
    var primary :- Read(d, "primary_category", DecRaw);
    var secondary :- Read(d, "secondary_category", DecRaw);
    var arxivId :- Read(d, "arxiv_id", DecOptStr);
    Some((id, title, authors, abstractText, primary, secondary, arxivId))
  }

  /** The five counters and flags of a scholarly record. */
  function SemSchCounts(d: map<string, Json>): Option<(Option<int>, Option<int>, Option<int>, Option<int>, Option<bool>)>
  {
    var year :- Read(d, "year", DecOptInt);
    var referenceCount :- Read(d, "reference_count", DecOptInt);
    var citationCount :- Read(d, "citation_count", DecOptInt);
    var influential :- Read(d, "influential_paper_citations", DecOptInt);
    var openAccess :- Read(d, "is_open_access", DecOptBool);
    Some((year, referenceCount, citationCount, influential, openAccess))
  }

  /** The neighbour lists and address of a scholarly record. */
  function SemSchLinks(d: map<string, Json>): Option<(seq<string>, seq<string>, Option<string>)>
  {
    var citations :- Read(d, "citations", DecStrList);
    var references :- Read(d, "references", DecStrList);
    var url :- Read(d, "url", DecOptStr);
    Some((citations, references, url))
  }

  /** `SemSchPaper(cache_file=d)`: the seven paper keys, then the eight of the scholarly record. */
  function SemSchFromCache(d: map<string, Json>): Option<SemSchPaper>
  {
    var h :- SemSchHead(d);
    var c :- SemSchCounts(d);
    var l :- SemSchLinks(d);
    Some(SemSchPaper(h.0, h.6, h.1, h.2, h.3, h.4, h.5, c.0, c.1, c.2, c.3, c.4, l.0, l.1, l.2))
  }

  lemma SemSchHeadRoundTrip(p: SemSchPaper)
    ensures SemSchHead(SemSchToCache(p)) ==
              Some((p.id, p.title, p.authors, p.abstractText, p.primaryCategory, p.secondaryCategory, p.arxivId))
  {
    var d := SemSchToCache(p);
    assert Read(d, "id", DecStr) == Some(p.id);
    assert Read(d, "title", DecOptStr) == Some(p.title) by { assert d["title"] == EncOptStr(p.title); }
    assert Read(d, "authors", DecRaw) == Some(p.authors);
    assert Read(d, "abstract", DecOptStr) == Some(p.abstractText) by { assert d["abstract"] == EncOptStr(p.abstractText); }
    assert Read(d, "primary_category", DecRaw) == Some(p.primaryCategory);
    assert Read(d, "secondary_category", DecRaw) == Some(p.secondaryCategory);
    assert Read(d, "arxiv_id", DecOptStr) == Some(p.arxivId) by { assert d["arxiv_id"] == EncOptStr(p.arxivId); }
  }

  /** Where a written scholarly record keeps its year, counts and open-access flag. */
  lemma SemSchCountsCache(p: SemSchPaper)
    ensures var d := SemSchToCache(p);
            && "year" in d && d["year"] == EncOptInt(p.year)
            && "reference_count" in d && d["reference_count"] == EncOptInt(p.referenceCount)
            && "citation_count" in d && d["citation_count"] == EncOptInt(p.citationCount)
            && "influential_paper_citations" in d && d["influential_paper_citations"] == EncOptInt(p.influentialPaperCitations)
            && "is_open_access" in d && d["is_open_access"] == EncOptBool(p.isOpenAccess)
  {
    var tail := SemSchTailCache(p);
    assert tail["year"] == EncOptInt(p.year);
    assert tail["reference_count"] == EncOptInt(p.referenceCount);
    assert tail["citation_count"] == EncOptInt(p.citationCount);
    assert tail["influential_paper_citations"] == EncOptInt(p.influentialPaperCitations);
    assert tail["is_open_access"] == EncOptBool(p.isOpenAccess);
  }

  /** Reading the counts back from any dictionary that holds their written forms. */
  lemma SemSchCountsRead(d: map<string, Json>, year: Option<int>, references: Option<int>, citations: Option<int>,
                         influential: Option<int>, openAccess: Option<bool>)
    requires "year" in d && d["year"] == EncOptInt(year)
    requires "reference_count" in d && d["reference_count"] == EncOptInt(references)
    requires "citation_count" in d && d["citation_count"] == EncOptInt(citations)
    requires "influential_paper_citations" in d && d["influential_paper_citations"] == EncOptInt(influential)
    requires "is_open_access" in d && d["is_open_access"] == EncOptBool(openAccess)
    ensures SemSchCounts(d) == Some((year, references, citations, influential, openAccess))
  {
  }

  lemma SemSchCountsRoundTrip(p: SemSchPaper)
    ensures SemSchCounts(SemSchToCache(p)) ==
              Some((p.year, p.referenceCount, p.citationCount, p.influentialPaperCitations, p.isOpenAccess))
  {
    SemSchCountsCache(p);
    SemSchCountsRead(SemSchToCache(p), p.year, p.referenceCount, p.citationCount, p.influentialPaperCitations, p.isOpenAccess);
  }

  /** Where a written scholarly record keeps its neighbour lists and address. */
  lemma SemSchLinksCache(p: SemSchPaper)
    ensures var d := SemSchToCache(p);
            && "citations" in d && d["citations"] == EncStrList(p.citations)
            && "references" in d && d["references"] == EncStrList(p.references)
            && "url" in d && d["url"] == EncOptStr(p.url)
  {
    var tail := SemSchTailCache(p);
    assert tail["citations"] == EncStrList(p.citations);
    assert tail["references"] == EncStrList(p.references);
    assert tail["url"] == EncOptStr(p.url);
  }

  /** Reading the neighbour lists and address back from any dictionary that holds their written forms. */
  lemma SemSchLinksRead(d: map<string, Json>, citations: seq<string>, references: seq<string>, url: Option<string>)
    requires "citations" in d && d["citations"] == EncStrList(citations)
    requires "references" in d && d["references"] == EncStrList(references)
    requires "url" in d && d["url"] == EncOptStr(url)
    ensures SemSchLinks(d) == Some((citations, references, url))
  {
    ItemsRoundTrip(citations, EncStr, DecStr);
    ItemsRoundTrip(references, EncStr, DecStr);
  }

  lemma SemSchLinksRoundTrip(p: SemSchPaper)
    ensures SemSchLinks(SemSchToCache(p)) == Some((p.citations, p.references, p.url))
  {
    SemSchLinksCache(p);
    SemSchLinksRead(SemSchToCache(p), p.citations, p.references, p.url);
  }

  /** A scholarly record survives a trip through its cache dictionary. */
  lemma SemSchCacheRoundTrip(p: SemSchPaper)
    ensures SemSchFromCache(SemSchToCache(p)) == Some(p)
  {
    SemSchHeadRoundTrip(p);
    SemSchCountsRoundTrip(p);
    SemSchLinksRoundTrip(p);
  }

  /** The seven shared keys hold the cache form of the fields read from them. */
  lemma SemSchHeadCanonical(d: map<string, Json>, p: SemSchPaper)
    requires SemSchHead(d) ==
               Some((p.id, p.title, p.authors, p.abstractText, p.primaryCategory, p.secondaryCategory, p.arxivId))
    ensures forall k :: k in PAPER_KEYS ==> k in d && d[k] == SemSchHeadCache(p)[k]
  {
  }

  /** The five counter and flag keys hold the cache form of the fields read from them. */
  lemma SemSchCountsCanonical(d: map<string, Json>, p: SemSchPaper)
    requires SemSchCounts(d) ==
               Some((p.year, p.referenceCount, p.citationCount, p.influentialPaperCitations, p.isOpenAccess))
    ensures forall k :: k in SemSchTailCache(p) && k !in {"citations", "references", "url"} ==>
              k in d && d[k] == SemSchTailCache(p)[k]
  {
  }

  /** The list and address keys hold the cache form of the fields read from them. */
  lemma SemSchLinksCanonical(d: map<string, Json>, p: SemSchPaper)
    requires SemSchLinks(d) == Some((p.citations, p.references, p.url))
    ensures forall k :: k in {"citations", "references", "url"} ==> k in d && d[k] == SemSchTailCache(p)[k]
  {
    ItemsCanonical(d["citations"].items, p.citations, EncStr, DecStr);
    ItemsCanonical(d["references"].items, p.references, EncStr, DecStr);
  }

  /** The scholarly cache constructor reads each field from its key and accepts only written forms. */
  lemma SemSchCacheCanonical(d: map<string, Json>)
    requires SemSchFromCache(d).Some?
    ensures SEMSCH_KEYS <= d.Keys
    ensures forall k :: k in SEMSCH_KEYS ==> d[k] == SemSchToCache(SemSchFromCache(d).value)[k]
  {
    var p := SemSchFromCache(d).value;
    SemSchHeadCanonical(d, p);
    SemSchCountsCanonical(d, p);
    SemSchLinksCanonical(d, p);
    var head, tail := SemSchHeadCache(p), SemSchTailCache(p);
    forall k | k in SEMSCH_KEYS ensures k in d && d[k] == SemSchToCache(p)[k] {
      if k in tail {
        assert SemSchToCache(p)[k] == tail[k];
      } else {
        assert SemSchToCache(p)[k] == head[k];
      }
    }
  }

  const AUTHOR_KEYS: set<string> :=
    {"id", "name", "homepage", "paper_count", "citations", "hindex", "papers", "worked_with"}

  function AuthorToCache(a: Author): (d: map<string, Json>)
    ensures d.Keys == AUTHOR_KEYS
  {
    map["id" := EncStr(a.id), "name" := EncOptStr(a.name), "homepage" := EncOptStr(a.homepage),
        "paper_count" := EncOptInt(a.paperCount), "citations" := EncOptInt(a.citations),
        "hindex" := EncOptInt(a.hindex), "papers" := EncOptStrList(a.papers),
        "worked_with" := EncOptStrList(a.workedWith)]
  }

  /** `Authors(cache_file=d)`. */
  function AuthorFromCache(d: map<string, Json>): Option<Author>
  {
    var id :- Read(d, "id", DecStr);
    var name :- Read(d, "name", DecOptStr);
    var homepage :- Read(d, "homepage", DecOptStr);
    var paperCount :- Read(d, "paper_count", DecOptInt);
    var citations :- Read(d, "citations", DecOptInt);
    var hindex :- Read(d, "hindex", DecOptInt);
    var papers :- Read(d, "papers", DecOptStrList);
    var workedWith :- Read(d, "worked_with", DecOptStrList);
    Some(Author(id, name, homepage, paperCount, citations, hindex, papers, workedWith))
  }

  /** Where a written author record keeps each of its fields. */
  lemma AuthorCache(a: Author)
    ensures var d := AuthorToCache(a);
            && "id" in d && d["id"] == EncStr(a.id)
            && "name" in d && d["name"] == EncOptStr(a.name)
            && "homepage" in d && d["homepage"] == EncOptStr(a.homepage)
            && "paper_count" in d && d["paper_count"] == EncOptInt(a.paperCount)
            && "citations" in d && d["citations"] == EncOptInt(a.citations)
            && "hindex" in d && d["hindex"] == EncOptInt(a.hindex)
            && "papers" in d && d["papers"] == EncOptStrList(a.papers)
            && "worked_with" in d && d["worked_with"] == EncOptStrList(a.workedWith)
  {
  }

  /** Reading an author back from any dictionary that holds the written forms of its fields. */
  lemma AuthorRead(d: map<string, Json>, a: Author)
    requires "id" in d && d["id"] == EncStr(a.id)
             && "name" in d && d["name"] == EncOptStr(a.name)
             && "homepage" in d && d["homepage"] == EncOptStr(a.homepage)
             && "paper_count" in d && d["paper_count"] == EncOptInt(a.paperCount)
             && "citations" in d && d["citations"] == EncOptInt(a.citations)
             && "hindex" in d && d["hindex"] == EncOptInt(a.hindex)
             && "papers" in d && d["papers"] == EncOptStrList(a.papers)
             && "worked_with" in d && d["worked_with"] == EncOptStrList(a.workedWith)
    ensures AuthorFromCache(d) == Some(a)
  {
    assert Read(d, "papers", DecOptStrList) == Some(a.papers) by {
      ItemsRoundTrip(a.papers, EncOptStr, DecOptStr);
    }
    assert Read(d, "worked_with", DecOptStrList) == Some(a.workedWith) by {
      ItemsRoundTrip(a.workedWith, EncOptStr, DecOptStr);
    }
  }

  /** An author record survives a trip through its cache dictionary. */
  lemma AuthorCacheRoundTrip(a: Author)
    ensures AuthorFromCache(AuthorToCache(a)) == Some(a)
  {
    AuthorCache(a);
    AuthorRead(AuthorToCache(a), a);
  }

  /** The author cache constructor reads each field from its key and accepts only written forms. */
  lemma AuthorCacheCanonical(d: map<string, Json>)
    requires AuthorFromCache(d).Some?
    ensures AUTHOR_KEYS <= d.Keys
    ensures forall k :: k in AUTHOR_KEYS ==> d[k] == AuthorToCache(AuthorFromCache(d).value)[k]
  {
    var a := AuthorFromCache(d).value;
    ItemsCanonical(d["papers"].items, a.papers, EncOptStr, DecOptStr);
    ItemsCanonical(d["worked_with"].items, a.workedWith, EncOptStr, DecOptStr);
    assert EncOptStr(a.name) == d["name"];
    assert EncOptStr(a.homepage) == d["homepage"];
    assert EncOptInt(a.paperCount) == d["paper_count"];
    assert EncOptInt(a.citations) == d["citations"];
    assert EncOptInt(a.hindex) == d["hindex"];
  }

  // ---------------------------------------------------------------------
  // Resolving a preprint's scholarly identifier.
  // ---------------------------------------------------------------------

  /** The preprint identifier without `abs/` and without its version suffix. */
  function LookupKey(arxivId: string): (k: string)
    ensures var stripped := ReplaceAll(arxivId, "abs/", "");
            'v' !in k && |k| <= |stripped| && k == stripped[..|k|] &&
            (|k| < |stripped| ==> stripped[|k|] == 'v')
  {
    var stripped := ReplaceAll(arxivId, "abs/", "");
    FirstPiece(stripped, 'v');
    Split(stripped, 'v')[0]
  }

  /** The scholarly-API address asked for a preprint's record. */
  function LookupUrl(arxivId: string): string
  {
    SEMSCH_LINK + "/paper/arXiv:" + LookupKey(arxivId)
  }

  /** Python truthiness of the `paperId` of the response: present and non-empty. */
  predicate Found(paperId: Option<string>)
  {
    paperId.Some? && paperId.value != ""
  }

  /** The record after `update_semsch_id` saw `paperId` in the response. */
  function Resolve(r: ArxivRecord, paperId: Option<string>): (r': ArxivRecord)
    ensures r'.arxivId == r.arxivId && r'.authors == r.authors && r'.abstractText == r.abstractText
    ensures r'.primaryCategory == r.primaryCategory && r'.secondaryCategory == r.secondaryCategory
    ensures r'.id.Some? <==> Found(paperId)
    ensures Found(paperId) ==> r'.id == paperId && r'.title == r.title
    ensures !Found(paperId) ==> r'.title == r.title + NOT_ON_SEMSCH
  {
    if Found(paperId) then r.(id := paperId)
    else r.(id := None, title := r.title + NOT_ON_SEMSCH)
  }

  /** Resolution never loses the original title: it is always a prefix of the new one. */
  lemma ResolveKeepsTitle(r: ArxivRecord, paperId: Option<string>)
    ensures |r.title| <= |Resolve(r, paperId).title|
    ensures Resolve(r, paperId).title[..|r.title|] == r.title
  {
    var r' := Resolve(r, paperId);
    if !Found(paperId) {
      assert r'.title == r.title + NOT_ON_SEMSCH;
    }
  }

  /** A preprint as the live search builds it, before and after its scholarly lookup. */
  class ArxivPaper {
    var id: Option<string>
    var arxivId: string
    var title: string
    var authors: seq<string>
    var abstractText: string
    var primaryCategory: seq<string>
    var secondaryCategory: seq<string>

    /** The field values, as `vars(self)` lists them. */
    function Record(): ArxivRecord
      reads this
    {
      ArxivRecord(id, arxivId, title, authors, abstractText, primaryCategory, secondaryCategory)
    }

    /** The keyword-argument constructor: each field stored as given. */
    constructor (id: Option<string>, arxivId: string, title: string, authors: seq<string>,
                 abstractText: string, primaryCategory: seq<string>, secondaryCategory: seq<string>)
      ensures Record() == ArxivRecord(id, arxivId, title, authors, abstractText, primaryCategory, secondaryCategory)
    {
      this.id := id;
      this.title := title;
      this.authors := authors;
      this.abstractText := abstractText;
      this.arxivId := arxivId;
      this.primaryCategory := primaryCategory;
      this.secondaryCategory := secondaryCategory;
    }

    /**
     * `update_semsch_id`: asks the scholarly API (`lookup`, from address to
     * the response's `paperId`) for this preprint, then stores the identifier
     * or clears it and marks the title.
     */
    method UpdateSemSchId(lookup: string -> Option<string>)
      modifies this
      ensures Record() == Resolve(old(Record()), lookup(LookupUrl(old(arxivId))))
    {
      var response := lookup(LookupUrl(arxivId));
      if Found(response) {
        id := response;
      } else {
        id := None;
        title := title + NOT_ON_SEMSCH;
      }
    }
  }
}
