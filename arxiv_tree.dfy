/**
 * `ArxivTree` of src/generate_object_tree.py: the cache of preprint search
 * results, the search-address builder, the processing of feed entries and
 * the search policy of `gather_data`. The feed is a function from the search
 * address to its already-parsed entries, the scholarly-API lookup a function
 * from address to the response's `paperId`, and percent-encoding an
 * uninterpreted function.
 */
module Arxiv {
  import opened Wrappers
  import opened Text
  import opened Seqs
  import opened Matching
  import opened Records
  import opened Dicts

  const ARXIV_LINK := "http://export.arxiv.org/api/query?search_query="
  const ARXIV_PREFIX := "http://arxiv.org/"

  /** The archives whose categories a result keeps. */
  const KEPT_ARCHIVES: set<string> := {"cs", "math", "econ"}

  /** One `entry` of the feed: id, title, author names, summary and category terms. */
  datatype Entry = Entry(id: string, title: string, authors: seq<string>, summary: string, terms: seq<Option<string>>)

  // ---------------------------------------------------------------------
  // construct_arxiv_link
  // ---------------------------------------------------------------------

  /** `f"{k}:%22{' '.join(v.split(' '))}%22"`. */
  function Clause(field: string, v: string): string
  {
    field + ":%22" + Join(Split(v, ' '), ' ') + "%22"
  }

  function Given(field: string, v: Option<string>): seq<string>
  {
    if v.Some? then [Clause(field, v.value)] else []
  }

  /** The clauses for the given fields, in the order title, author, abstract. */
  function Clauses(title: Option<string>, author: Option<string>, abstractText: Option<string>): seq<string>
  {
    Given("ti", title) + Given("au", author) + Given("abs", abstractText)
  }

  /** The search query before percent-encoding. */
  function Query(title: Option<string>, author: Option<string>, abstractText: Option<string>): string
  {
    JoinWith(Clauses(title, author, abstractText), "+AND+")
  }

  /** `construct_arxiv_link`. */
  function ArxivLink(title: Option<string>, author: Option<string>, abstractText: Option<string>,
                     startIdx: nat, maxResults: nat, encode: string -> string): (link: string)
    ensures |ARXIV_LINK| <= |link| && link[..|ARXIV_LINK|] == ARXIV_LINK
    ensures |NatToString(maxResults)| <= |link| && link[|link| - |NatToString(maxResults)|..] == NatToString(maxResults)
  {
    ARXIV_LINK + encode(Query(title, author, abstractText)) + "&sortBy=relevance&sortOrder=descending&start=" +
    NatToString(startIdx) + "&max_results=" + NatToString(maxResults)
  }

  /** The value a clause quotes is the field's text unchanged. */
  function Quoted(field: string, v: Option<string>): seq<string>
  {
    if v.Some? then [field + ":%22" + v.value + "%22"] else []
  }

  /**
   * The query has one clause per given field, in the order title, author,
   * abstract, each quoting the field's text verbatim; it is empty exactly
   * when no field is given.
   */
  lemma QueryClauses(title: Option<string>, author: Option<string>, abstractText: Option<string>)
    ensures Clauses(title, author, abstractText) == Quoted("ti", title) + Quoted("au", author) + Quoted("abs", abstractText)
    ensures Query(title, author, abstractText) == [] <==> title.None? && author.None? && abstractText.None?
  {
    if title.Some? { JoinSplit(title.value, ' '); }
    if author.Some? { JoinSplit(author.value, ' '); }
    if abstractText.Some? { JoinSplit(abstractText.value, ' '); }
  }

  /**
   * The address starts with the endpoint and the encoded query, and the
   * start index and the page size can be read back from its end.
   */
  lemma ArxivLinkFields(title: Option<string>, author: Option<string>, abstractText: Option<string>,
                        startIdx: nat, maxResults: nat, encode: string -> string)
    ensures var link := ArxivLink(title, author, abstractText, startIdx, maxResults, encode);
            var head := ARXIV_LINK + encode(Query(title, author, abstractText));
            var sorting, paging := "&sortBy=relevance&sortOrder=descending&start=", "&max_results=";
            var start, size := NatToString(startIdx), NatToString(maxResults);
            && link[..|head|] == head
            && link[|head + sorting|..|head + sorting + start|] == start
            && link[|head + sorting + start + paging|..] == size
  {
    FiveParts(ARXIV_LINK + encode(Query(title, author, abstractText)),
              "&sortBy=relevance&sortOrder=descending&start=", NatToString(startIdx),
              "&max_results=", NatToString(maxResults));
  }

  // ---------------------------------------------------------------------
  // Processing one feed entry
  // ---------------------------------------------------------------------

  /** The category terms present whose archive, the part before the first '.', is kept. */
  function Kept(terms: seq<Option<string>>): (ks: seq<string>)
    ensures |ks| <= |terms|
    ensures forall t :: t in ks <==> Some(t) in terms && Split(t, '.')[0] in KEPT_ARCHIVES
  {
    if terms == [] then []
    else
      var rest := Kept(terms[1..]);
      assert forall o :: o in terms <==> o == terms[0] || o in terms[1..];
      match terms[0]
      case Some(t) => if Split(t, '.')[0] in KEPT_ARCHIVES then [t] + rest else rest
      case None => rest
  }

  /** Keeping commutes with concatenation, so the kept terms keep the feed's order and repeats. */
  lemma {:induction false} KeptAppend(a: seq<Option<string>>, b: seq<Option<string>>)
    ensures Kept(a + b) == Kept(a) + Kept(b)
  {
    if a != [] {
      assert (a + b)[0] == a[0] && (a + b)[1..] == a[1..] + b;
      KeptAppend(a[1..], b);
    } else {
      assert a + b == b;
    }
  }

  /** The first two '.'-pieces of each kept term; `None` when one has no '.' (the source's `IndexError`). */
  function Pieces(ks: seq<string>): Option<(seq<string>, seq<string>)>
  {
    if ks == [] then Some(([], []))
    else
      var pieces := Split(ks[0], '.');
      if |pieces| < 2 then None
      else
        var rest :- Pieces(ks[1..]);
        Some(([pieces[0]] + rest.0, [pieces[1]] + rest.1))
  }

  /** The aligned primary and secondary category lists of an entry. */
  function ParseCategories(terms: seq<Option<string>>): Option<(seq<string>, seq<string>)>
  {
    Pieces(Kept(terms))
  }

  /** A term has a second '.'-piece exactly when it contains a '.'. */
  lemma TwoPieces(t: string)
    ensures |Split(t, '.')| >= 2 <==> '.' in t
  {
    JoinSplit(t, '.');
    if '.' !in t {
      SplitNoSep(t, '.');
    }
  }

  /** How the first two pieces sit in a term: `t` starts with `p + "." + q`, followed by '.' if anything. */
  lemma PiecesOfTerm(t: string)
    requires '.' in t
    ensures var ps := Split(t, '.');
            |ps| >= 2 && '.' !in ps[0] && '.' !in ps[1] &&
            var head := ps[0] + "." + ps[1];
            |head| <= |t| && t[..|head|] == head && (|head| < |t| ==> t[|head|] == '.')
  {
    TwoPieces(t);
    var ps := Split(t, '.');
    FirstPiece(t, '.');
    var p := ps[0];
    var rest := t[|p| + 1..];
    assert t == p + "." + rest;
    SplitSepPrefix(p, '.', rest);
    assert ps[1] == Split(rest, '.')[0];
    FirstPiece(rest, '.');
  }

  lemma {:induction false} PiecesSpec(ks: seq<string>)
    ensures Pieces(ks).Some? <==> forall k :: 0 <= k < |ks| ==> '.' in ks[k]
    ensures Pieces(ks).Some? ==>
              var (ps, qs) := Pieces(ks).value;
              |ps| == |ks| && |qs| == |ks| &&
              forall k :: 0 <= k < |ks| ==>
                |Split(ks[k], '.')| >= 2 && ps[k] == Split(ks[k], '.')[0] && qs[k] == Split(ks[k], '.')[1]
  {
    if ks != [] {
      TwoPieces(ks[0]);
      PiecesSpec(ks[1..]);
      assert forall k :: 1 <= k < |ks| ==> ks[k] == ks[1..][k - 1];
    }
  }

  /**
   * Category parsing succeeds exactly when every kept term contains a '.'.
   * It then yields two lists aligned with the kept terms: the archive, one
   * of cs, math and econ, and the piece after the first '.', so that each
   * kept term starts with `primary + "." + secondary`.
   */
  lemma CategoriesParsed(terms: seq<Option<string>>)
    ensures ParseCategories(terms).Some? <==> forall t :: t in Kept(terms) ==> '.' in t
    ensures ParseCategories(terms).Some? ==>
              var (ps, qs) := ParseCategories(terms).value;
              var ks := Kept(terms);
              |ps| == |ks| && |qs| == |ks| &&
              forall k :: 0 <= k < |ks| ==>
                ps[k] in KEPT_ARCHIVES && '.' !in qs[k] &&
                |ps[k] + "." + qs[k]| <= |ks[k]| && ks[k][..|ps[k] + "." + qs[k]|] == ps[k] + "." + qs[k]
  {
    var ks := Kept(terms);
    PiecesSpec(ks);
    if ParseCategories(terms).Some? {
      forall k | 0 <= k < |ks| ensures '.' in ks[k] {
      }
      forall k | 0 <= k < |ks| ensures '.' !in Split(ks[k], '.')[1] &&
          var head := Split(ks[k], '.')[0] + "." + Split(ks[k], '.')[1];
          |head| <= |ks[k]| && ks[k][..|head|] == head {
        PiecesOfTerm(ks[k]);
      }
    }
  }

  /** The preprint identifier: the entry id without the site prefix. */
  function PaperId(id: string): string
  {
    ReplaceAll(id, ARXIV_PREFIX, "")
  }

  /** The summary without the site prefix, with line breaks turned into spaces. */
  function Flattened(summary: string): (flat: string)
    ensures '\n' !in flat
  {
    ReplaceChar(ReplaceAll(summary, ARXIV_PREFIX, ""), '\n', ' ')
  }

  /**
   * The flattened summary with the white space at both ends cut off: a
   * slice of it that starts and ends with a non-space character, outside
   * which there is only white space.
   */
  function CleanAbstract(summary: string): (r: string)
    ensures '\n' !in r
    ensures r == [] || (!IsSpace(r[0]) && !IsSpace(r[|r| - 1]))
  {
    var flat := ReplaceChar(ReplaceAll(summary, ARXIV_PREFIX, ""), '\n', ' ');
    assert '\n' !in flat;
    Strip(flat)
  }

  /**
   * The cleaned summary is the flattened one with its white space at both
   * ends cut off, and nothing else removed.
   */
  lemma CleanAbstractTrims(summary: string)
    ensures var flat, r := Flattened(summary), CleanAbstract(summary);
            exists i, j :: 0 <= i <= j <= |flat| && r == flat[i..j]
                        && (forall k :: 0 <= k < i ==> IsSpace(flat[k]))
                        && (forall k :: j <= k < |flat| ==> IsSpace(flat[k]))
  {
    var _ := Strip(Flattened(summary));
  }

  /** Where the pieces of a five-part concatenation sit. */
  lemma FiveParts(a: string, b: string, c: string, d: string, e: string)
    ensures var s := a + b + c + d + e;
            && s[..|a|] == a
            && s[|a + b|..|a + b + c|] == c
            && s[|a + b + c + d|..] == e
  {
    var s := a + b + c + d + e;
    assert s == a + (b + (c + (d + e)));
    assert s == (a + b) + (c + (d + e));
    assert s == (a + b + c + d) + e;
  }

  /** The fields the feed loop gives a new paper, before its scholarly lookup. */
  function Initial(e: Entry, cats: (seq<string>, seq<string>)): ArxivRecord
  {
    ArxivRecord(None, PaperId(e.id), e.title, e.authors, CleanAbstract(e.summary), cats.0, cats.1)
  }

  /** The record an entry becomes once its scholarly identifier is looked up; `None` when its categories do not parse. */
  function Processed(e: Entry, lookup: string -> Option<string>): Option<ArxivRecord>
  {
    var cats :- ParseCategories(e.terms);
    var r := Initial(e, cats);
    Some(Resolve(r, lookup(LookupUrl(r.arxivId))))
  }

  /**
   * An entry yields a record exactly when its kept categories all split. The
   * record then has the entry's preprint id, authors and cleaned summary, the
   * parsed categories, a title that starts with the entry's, and a scholarly
   * id exactly when the lookup found one.
   */
  lemma ProcessedSpec(e: Entry, lookup: string -> Option<string>)
    ensures Processed(e, lookup).Some? <==> forall t :: t in Kept(e.terms) ==> '.' in t
    ensures Processed(e, lookup).Some? ==>
              var r := Processed(e, lookup).value;
              && r.arxivId == PaperId(e.id) && r.authors == e.authors && r.abstractText == CleanAbstract(e.summary)
              && ParseCategories(e.terms) == Some((r.primaryCategory, r.secondaryCategory))
              && |e.title| <= |r.title| && r.title[..|e.title|] == e.title
              && (r.id.Some? <==> Found(lookup(LookupUrl(PaperId(e.id)))))
  {
    CategoriesParsed(e.terms);
    var cats := ParseCategories(e.terms);
    if cats.Some? {
      var r := Initial(e, cats.value);
      ResolveKeepsTitle(r, lookup(LookupUrl(r.arxivId)));
    }
  }

  /** `batch` holds the records of the first `|batch|` entries, in feed order. */
  ghost predicate ProcessedPrefix(batch: seq<ArxivRecord>, entries: seq<Entry>, lookup: string -> Option<string>)
  {
    YieldsPrefix(batch, entries, e => Processed(e, lookup))
  }

  /**
   * `batch` holds the records of the leading entries, in feed order, up to
   * the first entry whose categories do not parse; `complete` says that no
   * entry failed.
   */
  ghost predicate Fetched(batch: seq<ArxivRecord>, entries: seq<Entry>, lookup: string -> Option<string>, complete: bool)
  {
    && ProcessedPrefix(batch, entries, lookup)
    && (complete <==> |batch| == |entries|)
    && (!complete ==> Processed(entries[|batch|], lookup).None?)
  }

  /**
   * One feed request for the query: its address is logged, the batch holds
   * the processed leading entries of the answer, and the cache is the old
   * one with the batch stored in order.
   */
  ghost predicate Searched(papers0: Dict<ArxivRecord>, log0: seq<string>, papers: Dict<ArxivRecord>, log: seq<string>,
                           batch: seq<ArxivRecord>, ok: bool,
                           title: Option<string>, author: Option<string>, abstractText: Option<string>,
                           feed: string -> seq<Entry>, lookup: string -> Option<string>, encode: string -> string)
  {
    var link := ArxivLink(title, author, abstractText, 0, 100, encode);
    && Fetched(batch, feed(link), lookup, ok)
    && papers == PutAll(papers0, batch)
    && log == log0 + [link]
  }

  /** The cache after the records `rs` were stored one by one, keyed by preprint identifier. */
  function PutAll(d: Dict<ArxivRecord>, rs: seq<ArxivRecord>): Dict<ArxivRecord>
  {
    if rs == [] then d else PutAll(d, rs[..|rs| - 1]).Put(rs[|rs| - 1].arxivId, rs[|rs| - 1])
  }

  /** Storing one more record is one more assignment. */
  lemma PutAllSnoc(d: Dict<ArxivRecord>, rs: seq<ArxivRecord>, r: ArxivRecord)
    ensures PutAll(d, rs + [r]) == PutAll(d, rs).Put(r.arxivId, r)
  {
    assert (rs + [r])[..|rs|] == rs;
  }

  /** The identifiers a batch of records is stored under. */
  function BatchIds(rs: seq<ArxivRecord>): set<string>
  {
    set r | r in rs :: r.arxivId
  }

  /** Storing a batch keeps the cache well formed, adds exactly the batch's identifiers as keys and keeps the position of every key. */
  lemma {:induction false} PutAllValid(d: Dict<ArxivRecord>, rs: seq<ArxivRecord>)
    requires d.Valid()
    ensures PutAll(d, rs).Valid()
    ensures PutAll(d, rs).entries.Keys == d.entries.Keys + BatchIds(rs)
    ensures d.order <= PutAll(d, rs).order
  {
    if rs != [] {
      var front, last := rs[..|rs| - 1], rs[|rs| - 1];
      PutAllValid(d, front);
      PutValid(PutAll(d, front), last.arxivId, last);
      assert rs == front + [last];
      assert BatchIds(rs) == BatchIds(front) + {last.arxivId};
    }
  }

  /** Under each identifier of a batch the cache holds the last record of the batch carrying it. */
  lemma {:induction false} PutAllLast(d: Dict<ArxivRecord>, rs: seq<ArxivRecord>, k: nat)
    requires d.Valid()
    requires k < |rs| && forall l :: k < l < |rs| ==> rs[l].arxivId != rs[k].arxivId
    ensures rs[k].arxivId in PutAll(d, rs).entries
    ensures PutAll(d, rs).entries[rs[k].arxivId] == rs[k]
  {
    var front, last := rs[..|rs| - 1], rs[|rs| - 1];
    PutAllValid(d, front);
    PutValid(PutAll(d, front), last.arxivId, last);
    if k < |rs| - 1 {
      assert front[k] == rs[k];
      PutAllLast(d, front, k);
      assert rs[k].arxivId != last.arxivId;
    }
  }

  /** A key no record of the batch carries keeps its value. */
  lemma {:induction false} PutAllOthers(d: Dict<ArxivRecord>, rs: seq<ArxivRecord>, key: string)
    requires d.Valid()
    requires key in d.entries && forall r :: r in rs ==> r.arxivId != key
    ensures key in PutAll(d, rs).entries
    ensures PutAll(d, rs).entries[key] == d.entries[key]
  {
    if rs != [] {
      var front, last := rs[..|rs| - 1], rs[|rs| - 1];
      assert forall r :: r in front ==> r in rs;
      PutAllOthers(d, front, key);
      PutAllValid(d, front);
      PutValid(PutAll(d, front), last.arxivId, last);
    }
  }

  /**
   * Storing a batch keeps the cache well formed, adds exactly the batch's
   * identifiers as keys, keeps the position of every key, and leaves under
   * each identifier the last record of the batch carrying it.
   */
  lemma PutAllSpec(d: Dict<ArxivRecord>, rs: seq<ArxivRecord>)
    requires d.Valid()
    ensures PutAll(d, rs).Valid()
    ensures PutAll(d, rs).entries.Keys == d.entries.Keys + BatchIds(rs)
    ensures d.order <= PutAll(d, rs).order
    ensures forall k: nat :: k < |rs| && (forall l :: k < l < |rs| ==> rs[l].arxivId != rs[k].arxivId) ==>
              PutAll(d, rs).entries[rs[k].arxivId] == rs[k]
    ensures forall key :: key in d.entries && (forall r :: r in rs ==> r.arxivId != key) ==>
              PutAll(d, rs).entries[key] == d.entries[key]
  {
    PutAllValid(d, rs);
    forall k: nat | k < |rs| && (forall l :: k < l < |rs| ==> rs[l].arxivId != rs[k].arxivId)
      ensures PutAll(d, rs).entries[rs[k].arxivId] == rs[k]
    {
      PutAllLast(d, rs, k);
    }
    forall key | key in d.entries && (forall r :: r in rs ==> r.arxivId != key)
      ensures PutAll(d, rs).entries[key] == d.entries[key]
    {
      PutAllOthers(d, rs, key);
    }
  }

  // ---------------------------------------------------------------------
  // gather_data's selections over the cached records
  // ---------------------------------------------------------------------

  /** HTML forms send "" for an empty field; the source treats it as absent. */
  function Blank(v: Option<string>): (r: Option<string>)
    ensures r.Some? <==> v.Some? && v.value != ""
    ensures r.Some? ==> r == v
  {
    if v == Some("") then None else v
  }

  /** `lev_dist(title, query) < 30`. */
  predicate TitleHit(r: ArxivRecord, query: string)
  {
    Lev(r.title, query) < 30
  }

  /** `arxiv_author_match(query, authors)`. */
  predicate AuthorHit(r: ArxivRecord, query: string)
  {
    AuthorMatches(query, r.authors)
  }

  /** `arxiv_abstract_match(abstract, query)`. */
  predicate AbstractHit(r: ArxivRecord, query: string)
  {
    AbstractMatch(r.abstractText, query)
  }

  /** The positions, in order, of the records that `hit` accepts for a given query; none for an absent one. */
  function Hits(values: seq<ArxivRecord>, query: Option<string>, hit: (ArxivRecord, string) -> bool): (ids: seq<nat>)
    ensures Increasing(ids) && NoDup(ids)
    ensures forall k :: 0 <= k < |ids| ==> ids[k] < |values|
    ensures forall i: nat :: i in ids <==> query.Some? && i < |values| && hit(values[i], query.value)
  {
    if query.Some? then Select(values, (r: ArxivRecord) => hit(r, query.value)) else []
  }

  /** Title hits, then author hits, then abstract hits; a record matching twice is listed twice. */
  function SearchHits(values: seq<ArxivRecord>, title: Option<string>, author: Option<string>,
                      abstractText: Option<string>): (ids: seq<nat>)
    ensures ids == Hits(values, title, TitleHit) + Hits(values, author, AuthorHit) + Hits(values, abstractText, AbstractHit)
    ensures forall k :: 0 <= k < |ids| ==> ids[k] < |values|
    ensures forall i: nat :: i in ids <==>
              || (i in Hits(values, title, TitleHit))
              || (i in Hits(values, author, AuthorHit))
              || (i in Hits(values, abstractText, AbstractHit))
  {
    Hits(values, title, TitleHit) + Hits(values, author, AuthorHit) + Hits(values, abstractText, AbstractHit)
  }

  function Once(b: bool): nat { if b then 1 else 0 }

  /**
   * A record is listed once for each of the title, author and abstract
   * searches it matches, and never otherwise.
   */
  lemma SearchHitsCounted(values: seq<ArxivRecord>, title: Option<string>, author: Option<string>,
                          abstractText: Option<string>)
    ensures forall i: nat :: multiset(SearchHits(values, title, author, abstractText))[i] ==
              Once(title.Some? && i < |values| && TitleHit(values[i], title.value)) +
              Once(author.Some? && i < |values| && AuthorHit(values[i], author.value)) +
              Once(abstractText.Some? && i < |values| && AbstractHit(values[i], abstractText.value))
  {
    var th, ah, bh := Hits(values, title, TitleHit), Hits(values, author, AuthorHit), Hits(values, abstractText, AbstractHit);
    forall i: nat
      ensures multiset(th + ah + bh)[i] ==
                Once(title.Some? && i < |values| && TitleHit(values[i], title.value)) +
                Once(author.Some? && i < |values| && AuthorHit(values[i], author.value)) +
                Once(abstractText.Some? && i < |values| && AbstractHit(values[i], abstractText.value))
    {
      NoDupCount3(th, ah, bh, i);
    }
  }

  /** `primary in r.primary_category`. */
  predicate PrimaryHit(r: ArxivRecord, category: string)
  {
    category in r.primaryCategory
  }

  /** `secondary in r.secondary_category`. */
  predicate SecondaryHit(r: ArxivRecord, category: string)
  {
    category in r.secondaryCategory
  }

  /** `list(set(secondary hits + primary hits))`. */
  function CategoryHits(values: seq<ArxivRecord>, primary: Option<string>, secondary: Option<string>): (ids: seq<nat>)
    ensures NoDup(ids)
    ensures forall k :: 0 <= k < |ids| ==> ids[k] < |values|
    ensures forall i: nat :: i in ids <==> i in Hits(values, primary, PrimaryHit) || i in Hits(values, secondary, SecondaryHit)
  {
    var sec, pri := Hits(values, secondary, SecondaryHit), Hits(values, primary, PrimaryHit);
    var all := sec + pri;
    assert forall x :: x in all <==> x in sec || x in pri;
    var ids := Dedup(all);
    assert forall k :: 0 <= k < |ids| ==> ids[k] in all;
    ids
  }

  /** A new paper with the entry's fields, after its scholarly lookup. */
  method NewPaper(e: Entry, cats: (seq<string>, seq<string>), lookup: string -> Option<string>) returns (paper: ArxivPaper)
    ensures fresh(paper)
    ensures paper.Record() == Resolve(Initial(e, cats), lookup(LookupUrl(PaperId(e.id))))
  {
    var r := Initial(e, cats);
    paper := new ArxivPaper(r.id, r.arxivId, r.title, r.authors, r.abstractText, r.primaryCategory, r.secondaryCategory);
    paper.UpdateSemSchId(lookup);
  }

  class ArxivTree {
    /** `papers_dict`, keyed by preprint identifier. */
    var papers: Dict<ArxivRecord>
    /** `local_paper_list`: the records of the latest feed request. */
    var localPaperList: seq<ArxivRecord>
    /** The feed addresses requested so far, in order. */
    ghost var feedRequests: seq<string>

    ghost predicate Valid()
      reads this
    {
      papers.Valid()
    }

    /** A tree over a loaded cache. */
    constructor (cache: Dict<ArxivRecord>)
      requires cache.Valid()
      ensures Valid() && papers == cache && localPaperList == [] && feedRequests == []
    {
      papers := cache;
      localPaperList := [];
      feedRequests := [];
    }

    /** `update_paper_list`: stores the paper under its preprint identifier. */
    method UpdatePaperList(paper: ArxivPaper)
      requires Valid()
      modifies this
      ensures Valid()
      ensures papers == old(papers).Put(paper.arxivId, paper.Record())
      ensures localPaperList == old(localPaperList) && feedRequests == old(feedRequests)
    {
      PutValid(papers, paper.arxivId, paper.Record());
      papers := papers.Put(paper.arxivId, paper.Record());
    }

    /** The body of the feed loop for one entry. */
    method AddEntry(e: Entry, lookup: string -> Option<string>) returns (ok: bool)
      requires Valid()
      modifies this
      ensures Valid()
      ensures ok <==> Processed(e, lookup).Some?
      ensures ok ==> localPaperList == old(localPaperList) + [Processed(e, lookup).value] &&
                     papers == old(papers).Put(Processed(e, lookup).value.arxivId, Processed(e, lookup).value)
      ensures !ok ==> localPaperList == old(localPaperList) && papers == old(papers)
      ensures feedRequests == old(feedRequests)
    {
      var cats := ParseCategories(e.terms);
      if cats.None? {
        return false;
      }
      var paper := NewPaper(e, cats.value, lookup);
      assert Processed(e, lookup) == Some(paper.Record());
      localPaperList := localPaperList + [paper.Record()];
      var rec := paper.Record();
      UpdatePaperList(paper);
      assert papers == old(papers).Put(rec.arxivId, rec);
      ok := true;
    }

    /**
     * `request_arxiv_api_and_update`: requests the first 100 results for the
     * query, turns each entry into a paper, resolves its scholarly
     * identifier, and appends it to the batch and stores it in the cache. An
     * entry whose categories do not parse ends the request; the entries
     * before it stay stored.
     */
    method RequestArxivApiAndUpdate(title: Option<string>, author: Option<string>, abstractText: Option<string>,
                                    feed: string -> seq<Entry>, lookup: string -> Option<string>,
                                    encode: string -> string) returns (ok: bool)
      requires Valid()
      modifies this
      ensures Valid()
      ensures Searched(old(papers), old(feedRequests), papers, feedRequests, localPaperList, ok,
                       title, author, abstractText, feed, lookup, encode)
    {
      localPaperList := [];
      var link := ArxivLink(title, author, abstractText, 0, 100, encode);
      var entries := feed(link);
      feedRequests := feedRequests + [link];
      ghost var start, asked := papers, feedRequests;
      for n := 0 to |entries|
        invariant Valid()
        invariant feedRequests == asked
        invariant |localPaperList| == n
        invariant ProcessedPrefix(localPaperList, entries, lookup)
        invariant papers == PutAll(start, localPaperList)
      {
        ghost var before := localPaperList;
        var added := AddEntry(entries[n], lookup);
        if !added {
          return false;
        }
        ghost var rec := Processed(entries[n], lookup).value;
        assert localPaperList == before + [rec];
        YieldsPrefixSnoc(before, entries, e => Processed(e, lookup), rec);
        PutAllSnoc(start, before, rec);
      }
      ok := true;
    }

    /**
     * `gather_data`: a category filter searches the cache only and returns
     * each matching record once; otherwise the cached title, author and
     * abstract hits are returned when there are any and the cache may be
     * used, and a fresh search is made in every other case.
     */
    method GatherData(title: Option<string>, author: Option<string>, abstractText: Option<string>, useCache: bool,
                      primary: Option<string>, secondary: Option<string>,
                      feed: string -> seq<Entry>, lookup: string -> Option<string>, encode: string -> string)
      returns (ok: bool, data: seq<ArxivRecord>)
      requires Valid()
      modifies this
      ensures Valid()
      ensures Blank(primary).Some? || Blank(secondary).Some? ==>
                ok && papers == old(papers) && localPaperList == old(localPaperList) &&
                feedRequests == old(feedRequests) &&
                data == Pick(old(papers).Values(), CategoryHits(old(papers).Values(), Blank(primary), Blank(secondary)))
      ensures Blank(primary).None? && Blank(secondary).None? && useCache &&
              SearchHits(old(papers).Values(), Blank(title), Blank(author), Blank(abstractText)) != [] ==>
                ok && papers == old(papers) && localPaperList == old(localPaperList) &&
                feedRequests == old(feedRequests) &&
                data == Pick(old(papers).Values(),
                             SearchHits(old(papers).Values(), Blank(title), Blank(author), Blank(abstractText)))
      ensures Blank(primary).None? && Blank(secondary).None? &&
              (!useCache || SearchHits(old(papers).Values(), Blank(title), Blank(author), Blank(abstractText)) == []) ==>
                Searched(old(papers), old(feedRequests), papers, feedRequests, localPaperList, ok,
                         Blank(title), Blank(author), Blank(abstractText), feed, lookup, encode) &&
                data == (if ok then localPaperList else [])
    {
      var t, a, b := Blank(title), Blank(author), Blank(abstractText);
      var p, s := Blank(primary), Blank(secondary);
      var values := papers.Values();
      if p.None? && s.None? {
        var ids := SearchHits(values, t, a, b);
        if |ids| > 0 && useCache {
          data := Pick(values, ids);
          ok := true;
        } else {
          ok := RequestArxivApiAndUpdate(t, a, b, feed, lookup, encode);
          data := if ok then localPaperList else [];
        }
      } else {
        data := Pick(values, CategoryHits(values, p, s));
        ok := true;
      }
    }
  }
}
