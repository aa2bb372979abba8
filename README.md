# paper_explorer core, modelled in Dafny

paper_explorer is a small web application for exploring research papers. A
user searches the preprint server's feed by title, author, abstract keyword
or category. The application resolves each hit to the scholarly-graph API's
identifier, and then walks one hop along references, citations and
co-authors. This project models the part of the application that decides
what is fetched, stored, matched and returned:

- `src/utils.py`: the Levenshtein distance `lev_dist` (table filled row by row), the author test `arxiv_author_match` and the shared-token test `arxiv_abstract_match`. Module `Matching`.
- `src/primitive_objects.py`: the records `Paper`/`ArxivPaper`, `SemSchPaper` and `Authors`. The model includes their cache-dictionary constructors and the in-place `update_semsch_id`. Module `Records`, with `Json` for the values a cache dictionary holds.
- `src/generate_object_tree.py`: the three caches `SemSchTree`, `ArxivTree` and `AuthorTree`. Modules `SemSch`, `Arxiv` and `AuthorGraph`; each tree is a class whose `papers`/`authors` field is the cache dictionary.

The modules `Wrappers`, `Text`, `Seqs`, `Ranking` and `Dicts` model the
Python built-ins the core relies on:

- `str.split`, `join`, `lower`, `replace` and `strip`
- list filters, and `list(set(...))`
- the stable `sorted(..., reverse=True)`
- insertion-ordered `dict`

Re-assigning a key of a `Dict` keeps the key's position, as in Python.

The outside world is represented by function parameters:

- the preprint feed: search address to parsed entries
- the scholarly paper and author APIs: identifier to response, or `None` for a response missing a field the code reads (a `KeyError`)
- the identifier lookup of `update_semsch_id`: address to the response's `paperId`
- `urllib.parse.quote_plus`

A raised exception becomes a `None` result or an `ok == false` out-parameter.
The contracts say which stored entries survive in that case. Ghost fields
log, in order of request:

- the identifiers sent to the scholarly paper API (`SemSchTree.requested`)
- the identifiers sent to the author API (`AuthorTree.requested`)
- the feed addresses requested (`ArxivTree.feedRequests`)

A further ghost field counts the one-second pauses between scholarly paper requests, in `update_papers` and in the paper loop of `get_author_data`. The
identifier lookups of `update_semsch_id` are not logged.

A function that only computes is stated by the lemmas about it, and the table
names those lemmas.

## Model

| member | source | states |
|---|---|---|
| `Matching.Lev` | src/utils.py:19-33 | The edit-distance recurrence the table follows (equal characters copy the diagonal). The distance lies between the length difference and the longer length. |
| `Matching.TieBreak` | src/utils.py:24-33 | The if/elif/else cell update yields exactly one more than the smallest of left, up and diagonal, whichever branch is taken. |
| `Matching.LevStep` | src/utils.py:19-33 | Cell (i, j) of the table, read on prefixes, obeys the code's match/mismatch update. |
| `Matching.LevEmpty` | src/utils.py:9-13 | The distance to or from the empty string is the other string's length (the table's first column and row). |
| `Matching.LevSelf` | src/utils.py:6-35 | A string is at distance 0 from itself. |
| `Matching.LevSymmetric` | src/utils.py:6-35 | The distance does not depend on the order of its arguments. |
| `Matching.FillBorders` | src/utils.py:9-13 | After the two border loops, `table[i, 0]` and `table[0, j]` hold the distances of the empty prefixes. |
| `Matching.FillRow` | src/utils.py:20-33 | One inner-loop pass makes row `t1` equal to the prefix distances and leaves every other row unchanged. |
| `Matching.LevDist` | src/utils.py:6-35 | `lev_dist` returns exactly the edit distance `Lev(a, b)`. |
| `Matching.AuthorMatch` | src/utils.py:38-42 | The scan answers true iff some listed name is within distance 2 of the query; an empty list never matches. |
| `Matching.AuthorMatchesIffMinLev` | src/utils.py:38-42 | The author test holds iff the list is non-empty and its closest name is at distance below 3. |
| `Matching.AbstractMatchMeaning` | src/utils.py:45-55 | The texts match iff some space-separated word of one equals, after lower-casing, some word of the other. |
| `Matching.AbstractMatchSymmetric` | src/utils.py:51-55 | Swapping query and target does not change the answer. |
| `Matching.AbstractMatchReflexive` | src/utils.py:45-55 | Every text, even the empty one, matches itself, since a split always yields a word. |
| `Matching.AbstractMatchIgnoresCase` | src/utils.py:46-49 | Lower-casing either text beforehand does not change the answer. |
| `Matching.AbstractMatchWordSet` | src/utils.py:46-51 | Two texts made of the same set of words match the same targets, whatever the order and repetition. |
| `Records.ArxivToCache` | src/generate_object_tree.py:354-356 | A preprint record is written under exactly the seven keys the cache constructor reads. |
| `Records.ArxivCacheRoundTrip` | src/primitive_objects.py:64-71 | Reading back a written preprint record gives the same record. |
| `Records.ArxivCacheCanonical` | src/primitive_objects.py:64-71 | A dictionary the constructor accepts has all seven keys, each holding the written form of the field read from it. |
| `Records.SemSchToCache` | src/generate_object_tree.py:70-72 | A scholarly record is written under exactly its fifteen keys. |
| `Records.SemSchHeadRoundTrip` | src/primitive_objects.py:64-71 | The seven shared fields read back from a written scholarly record are the record's own. |
| `Records.SemSchCountsRoundTrip` | src/primitive_objects.py:141-145 | The year, the three counts and the open-access flag read back unchanged. |
| `Records.SemSchLinksRoundTrip` | src/primitive_objects.py:146-148 | The citation and reference lists and the url read back unchanged. |
| `Records.SemSchCacheRoundTrip` | src/primitive_objects.py:127-148 | Reading back a written scholarly record gives the same record. |
| `Records.SemSchHeadCanonical` | src/primitive_objects.py:64-71 | The seven shared keys of an accepted dictionary hold the written form of the fields read. |
| `Records.SemSchCountsCanonical` | src/primitive_objects.py:141-145 | The five count and flag keys of an accepted dictionary hold the written form of the fields read. |
| `Records.SemSchLinksCanonical` | src/primitive_objects.py:146-148 | The list and url keys of an accepted dictionary hold the written form of the fields read. |
| `Records.SemSchCacheCanonical` | src/primitive_objects.py:127-148 | An accepted dictionary has all fifteen keys, each equal to the written form of the record read from it. |
| `Records.AuthorToCache` | src/generate_object_tree.py:671-673 | An author record is written under exactly the eight keys the cache constructor reads. |
| `Records.AuthorCacheRoundTrip` | src/primitive_objects.py:32-40 | Reading back a written author record gives the same record. |
| `Records.AuthorCacheCanonical` | src/primitive_objects.py:32-40 | An accepted dictionary has all eight keys, each holding the written form of the field read. |
| `Records.LookupKey` | src/primitive_objects.py:90-91 | The lookup key has no 'v'. It is a prefix of the identifier with `abs/` removed, cut just before the first 'v'. |
| `Records.Resolve` | src/primitive_objects.py:95-99 | A truthy `paperId` becomes the id and keeps the title. Otherwise the id is cleared and the fixed notice is appended to the title. No other field changes. |
| `Records.ResolveKeepsTitle` | src/primitive_objects.py:95-99 | The original title is always a prefix of the resolved one. |
| `Records.ArxivPaper.constructor` | src/primitive_objects.py:55-63 | Each keyword argument is stored in its field. |
| `Records.ArxivPaper.UpdateSemSchId` | src/primitive_objects.py:89-99 | The object's fields become `Resolve` of the old fields and of the API's answer for the address built from the old preprint id. |
| `SemSch.Rankable` | src/generate_object_tree.py:207-208 | Exactly the citing papers with both an id and an influential-citation count survive the two filters, never more than the response lists. |
| `SemSch.RankableAppend` | src/generate_object_tree.py:207-208 | The two filters commute with concatenation, so the survivors keep response order and repeats. |
| `SemSch.RankableTies` | src/generate_object_tree.py:207-208 | The survivors with a given influence count are exactly the citing papers with an id and that count, in response order. |
| `SemSch.CitationsKept` | src/generate_object_tree.py:207-216 | At most ten citations are kept, fewer only when fewer citing papers qualify. Each kept id is a qualifying citing paper's id. |
| `SemSch.CitationsRanked` | src/generate_object_tree.py:209-214 | Kept citations are in non-increasing influence order, and no dropped one outranks a kept one. For each influence count, the kept papers with that count are the first ones with that count in response order (`CitersAt`). |
| `SemSch.RecordOf` | src/generate_object_tree.py:190-220 | The stored record:<br>- takes its id from the response and has no preprint id or categories<br>- keeps at most ten citations, each from the response<br>- has as references exactly the non-null response references |
| `SemSch.RecordOfFields` | src/generate_object_tree.py:192-219 | Each scalar field is the response field of the same meaning (`influentialCitationCount` becomes `influential_paper_citations`). The citations are the ten most influential ranked ids. The references are the non-null response references, in response order. |
| `SemSch.SemSchTree.constructor` | src/generate_object_tree.py:38-41 | A tree starts from its loaded cache, with nothing requested and no pauses. |
| `SemSch.SemSchTree.UpdatePaperInfo` | src/generate_object_tree.py:173-229 | The cache becomes `Stored` of the old cache: the record goes under the response's id and then under the requested id. Key order only grows, and the logs are unchanged. |
| `SemSch.StoredSpec` | src/generate_object_tree.py:221-229 | Storing keeps the cache well formed, maps both the response's id and the requested id to the record, and keeps every earlier key's position. |
| `SemSch.SemSchTree.UpdatePaperData` | src/generate_object_tree.py:122-171 | The new cache, request log and outcome are one `PaperStep` from the old ones. A cached id asks nothing and changes nothing. Otherwise the id is requested once; success iff the response is complete; on failure nothing changes. On success the id maps to the record `Seed` gives. |
| `SemSch.SemSchTree.StepPaper` | src/generate_object_tree.py:246-247 | The `update_paper_data` call of the `update_papers` loop: the state moves by one `PaperStep`, and no pause is taken. |
| `SemSch.SemSchTree.UpdatePapers` | src/generate_object_tree.py:231-252 | The cache, request log and outcome are those of `SweepOn` over `ids`: uncached ids are requested in list order, and complete responses are stored, up to the first incomplete one. Only uncached listed ids are requested, each at most once. On success every id is cached; on failure the last response was incomplete. Pauses equal the counter (from 1) divided by 98. |
| `SemSch.SweepFailed` | src/generate_object_tree.py:231-252 | After an incomplete response has raised, the rest of the list asks nothing and stores nothing. |
| `SemSch.SweepAppend` | src/generate_object_tree.py:277-282 | Running over `a + b` is running over `a` and then over `b`. |
| `SemSch.SweepStops` | src/generate_object_tree.py:231-252 | A run that fails within the first m ids ends in the state where it failed. |
| `SemSch.SweepValid` | src/generate_object_tree.py:231-252 | A run keeps the cache well formed, never drops or moves a key, and only appends to the request log. |
| `SemSch.SweepCovers` | src/generate_object_tree.py:231-252 | A run sends only listed ids that were not cached, each once. On success every listed id is cached; on failure the last id sent had an incomplete response. |
| `SemSch.SweepOthers` | src/generate_object_tree.py:221-252 | A cached entry survives a run unchanged unless a response to an id sent during it carries that entry's id as its `paperId`. |
| `SemSch.FaithfulStep` | src/generate_object_tree.py:122-171 | For an API that answers with the asked id, one step adds only the sent id, and only for a complete response, with the record `Seed` gives. |
| `SemSch.SweepFaithful` | src/generate_object_tree.py:231-252 | For an API that answers with the asked id, a run adds exactly the sent ids with complete responses and overwrites nothing. Every entry then holds the record `Seed` gives its id. |
| `SemSch.SweptFacts` | src/generate_object_tree.py:231-252 | A run from a cache after earlier requests keeps the earlier requests as a prefix, and sends no repeats and only uncached listed ids. Success caches every id; failure ends on an incomplete response. |
| `SemSch.SemSchTree.CollectRecords` | src/generate_object_tree.py:287-291 | The list holds the cached record of each id, in order. |
| `SemSch.SemSchTree.ExpandNeighbours` | src/generate_object_tree.py:277-282 | The cache, request log and outcome are those of `SweepOn` over the references followed by the citations, so all reference requests come first. On success every neighbour of the paper is cached; on failure the last response was incomplete. |
| `SemSch.SemSchTree.FetchPaperData` | src/generate_object_tree.py:254-320 | The cache, request log and outcome are those of `PaperFetch`: the seed id, then the run over the seed record's references and citations. A result exists only if the seed record exists. It is then the seed's fields plus the final cached records of all its references and citations. Failure means the last response was incomplete. |
| `Arxiv.ArxivLink` | src/generate_object_tree.py:421-466 | The address starts with the query endpoint and ends with the page size in decimal. |
| `Arxiv.QueryClauses` | src/generate_object_tree.py:450-462 | There is one `field:%22value%22` clause per given field, in the order title, author, abstract, quoting the text verbatim. The query is empty iff no field is given. |
| `Arxiv.ArxivLinkFields` | src/generate_object_tree.py:462-466 | The address is the endpoint followed by the encoded query. The start index sits after `start=` and the page size ends the address, each as its decimal rendering. |
| `Text.NatToStringRoundTrip` | src/generate_object_tree.py:465 | The decimal rendering an f-string gives a number reads back as that number. |
| `Arxiv.Kept` | src/generate_object_tree.py:517-518 | Exactly the present terms whose archive is cs, math or econ are kept, never more than given. |
| `Arxiv.KeptAppend` | src/generate_object_tree.py:517-518 | The category filter commutes with concatenation, so kept terms stay in feed order, repeats included. |
| `Arxiv.PiecesSpec` | src/generate_object_tree.py:518-522 | Splitting succeeds iff every kept term contains '.'. The two lists then hold each term's first and second '.'-pieces, aligned. |
| `Arxiv.CategoriesParsed` | src/generate_object_tree.py:516-522 | Parsing fails exactly on a kept term without '.' (the `IndexError`). Otherwise each primary is a kept archive, each secondary has no '.', and each term starts with primary + "." + secondary. |
| `Arxiv.CleanAbstract` | src/generate_object_tree.py:513-523 | The cleaned summary has no line break and no white space at either end. |
| `Arxiv.CleanAbstractTrims` | src/generate_object_tree.py:513-523 | The cleaned summary is a slice of the summary with the address prefix removed and line breaks made spaces. Only white space lies outside that slice. |
| `Arxiv.ProcessedSpec` | src/generate_object_tree.py:505-537 | An entry yields a record iff its kept categories all contain '.'. The record then has the entry's preprint id, authors, cleaned summary and parsed categories. Its title starts with the entry's, and it has a scholarly id iff the lookup found one. |
| `Arxiv.PutAllValid` | src/generate_object_tree.py:418-419 | Storing a batch keeps the cache well formed, adds exactly the batch's ids as keys, and keeps every earlier key's position. |
| `Arxiv.PutAllLast` | src/generate_object_tree.py:535-539 | Each id holds the last record of the batch carrying it. |
| `Arxiv.PutAllOthers` | src/generate_object_tree.py:535-539 | Keys no record of the batch carries keep their values. |
| `Arxiv.PutAllSpec` | src/generate_object_tree.py:505-539 | All of the above for a whole feed request. |
| `Arxiv.Blank` | src/generate_object_tree.py:566-576 | An empty form field counts as absent; any other value is kept. |
| `Arxiv.Hits` | src/generate_object_tree.py:586-605 | The positions of exactly the cached records the test accepts, in increasing (cache) order; none for an absent query. |
| `Arxiv.SearchHits` | src/generate_object_tree.py:586-606 | The title hits, then the author hits, then the abstract hits. A position is listed iff the title is within distance 29, some author is within 2, or the abstract shares a word. |
| `Arxiv.SearchHitsCounted` | src/generate_object_tree.py:586-606 | A position occurs once for each of the three searches it matches, and not otherwise. |
| `Arxiv.CategoryHits` | src/generate_object_tree.py:620-633 | Positions without repeats, each iff the record lists the primary or the secondary category asked for. |
| `Arxiv.NewPaper` | src/generate_object_tree.py:536-537 | A fresh paper object whose fields are the entry's processed fields after the scholarly lookup. |
| `Arxiv.ArxivTree.constructor` | src/generate_object_tree.py:324-327 | A tree starts from its loaded cache, with no feed address requested. |
| `Arxiv.ArxivTree.UpdatePaperList` | src/generate_object_tree.py:409-419 | The paper's current fields are stored under its preprint id. |
| `Arxiv.ArxivTree.AddEntry` | src/generate_object_tree.py:506-539 | Success iff the entry's categories parse. The processed record is then appended to the batch and stored; otherwise nothing changes. |
| `Arxiv.ArxivTree.RequestArxivApiAndUpdate` | src/generate_object_tree.py:468-539 | Exactly one feed address is requested: the one for the query with start 0 and page size 100. The batch holds the processed records of the leading feed entries, up to the first that fails to parse. The cache is the old one with the batch stored in order. |
| `Arxiv.ArxivTree.GatherData` | src/generate_object_tree.py:541-635 | Three cases:<br>- a category filter returns the cached category hits, state unchanged<br>- otherwise non-empty cached search hits with caching on are returned, state unchanged<br>- otherwise exactly one feed address is requested and its batch returned<br><br>The first two cases request nothing from the feed. |
| `AuthorGraph.Coauthors` | src/generate_object_tree.py:749-754 | No repeats. An id is listed iff it appears on one of the author's papers and is not the author's own; a missing id is kept. |
| `AuthorGraph.AuthorOf` | src/generate_object_tree.py:727-758 | The record keeps the response's id, name, homepage, paper count, citation count (as `citations`) and h-index, and the paper ids in order. Its co-authors are as above. |
| `AuthorGraph.TopCoauthorsRanked` | src/generate_object_tree.py:815-827 | At most 50 co-authors are kept, fewer only when fewer are cached with a citation count. Each is kept no more often than it is a candidate. They are in non-increasing citation order, and no dropped candidate outranks a kept one. |
| `AuthorGraph.TopCoauthorsFrom` | src/generate_object_tree.py:815-824 | Each ranked co-author has a citation count and is the cached record of an id in `worked_with`. |
| `AuthorGraph.RankPapersSpec` | src/generate_object_tree.py:829-835 | The ranked papers are a permutation of the cached papers with a citation count, in non-increasing citation order. |
| `AuthorGraph.CachePapers` | src/generate_object_tree.py:805-813 | The scholarly cache, request log and outcome are those of `SweepOn` over the paper ids, as for `update_papers`, and the pauses are counted the same way. On success every paper id is cached; on failure the last paper response was incomplete. |
| `AuthorGraph.AuthorTree.constructor` | src/generate_object_tree.py:639-642 | A tree starts from its loaded cache, with nothing requested. |
| `AuthorGraph.AuthorTree.UpdateAuthorInfo` | src/generate_object_tree.py:727-760 | The record built from the response is stored under the response's author id. |
| `AuthorGraph.AuthorTree.RequestAndUpdate` | src/generate_object_tree.py:691-725 | A cached id asks and changes nothing. Otherwise it is requested once, and a complete response is stored. The id is then cached iff `Subject` gives a record, and then holds that record. |
| `AuthorGraph.StepValid` | src/generate_object_tree.py:797-801 | One step of the co-author loop keeps the cache well formed and only adds keys. |
| `AuthorGraph.FetchAllValid` | src/generate_object_tree.py:796-804 | The whole co-author loop keeps the cache well formed and only adds keys. |
| `AuthorGraph.FetchCovers` | src/generate_object_tree.py:796-804 | After the loop, every listed id is cached or was requested. Every request is a listed id that was not cached before. A list without repeats gives requests without repeats. |
| `AuthorGraph.FetchFaithful` | src/generate_object_tree.py:796-804 | For an API that answers with the asked id, an id is cached after the loop iff it was before, or it is listed and `Subject` gives a record. A cached id then holds that record, and a listed id not cached before was requested. |
| `AuthorGraph.AuthorTree.RequestCoauthors` | src/generate_object_tree.py:796-804 | The cache and the request log are those of the loop's reference fold: uncached ids are requested in list order, and complete responses are stored. Every listed id ends cached or requested, and only uncached listed ids are requested. The requests have no repeats when the list has none. |
| `AuthorGraph.AuthorTree.RequestAuthor` | src/generate_object_tree.py:783-804 | The result is the author's record as `Subject` gives it. When there is one, its non-null co-authors were then fetched as `RequestCoauthors` states. When there is none, the author cache and request log are those of the single `Step` on the author id, as left before the `KeyError`. |
| `AuthorGraph.AuthorTree.RankedProfile` | src/generate_object_tree.py:805-847 | The scholarly cache, request log and outcome are those of `SweepOn` over the author's non-null paper ids. On success every paper of the author is cached, and the profile is the author's fields plus the top co-authors and ranked papers over the final caches. On failure the last paper response was incomplete. |
| `AuthorGraph.AuthorTree.GetAuthorData` | src/generate_object_tree.py:762-847 | A profile exists only if the author record does. Without one, the author cache and log are one `Step` on the author id and the scholarly tree is untouched. With one, the author cache and log are those of `CoauthorsFetched`, whether or not a paper request fails afterwards, and the scholarly cache and request log are those of `SweepOn` over the author's non-null paper ids. The profile is the author's fields plus the top co-authors and ranked papers over the final caches. Failure after that means a paper response was incomplete. |
| `Ranking.SortDesc` | src/generate_object_tree.py:829-834 | The sorted list is a permutation of its input. |
| `Ranking.SortDescSorted` | src/generate_object_tree.py:829-834 | `sorted(..., reverse=True)` yields non-increasing keys. |
| `Ranking.SortDescStable` | src/generate_object_tree.py:209-213 | The sort is stable: elements with equal keys keep their input order. |
| `Ranking.TopNSpec` | src/generate_object_tree.py:815-827 | The first n of the sort:<br>- have length min(n, size) and are a sub-multiset<br>- are sorted, and no dropped element outranks a kept one<br>- keep tie order |
| `Dicts.Dict.Get` | src/generate_object_tree.py:798 | `d.get(k)` gives the stored value for a present key and `None` otherwise. |
| `Dicts.Dict.Values` | src/generate_object_tree.py:373 | `values()` lists the stored values in key insertion order. |
| `Dicts.PutValid` | src/generate_object_tree.py:418-419 | Assignment keeps the dictionary well formed. It adds the key, sets its value, leaves other values alone, and appends a new key at the end. |
| `Dicts.PutValues` | src/generate_object_tree.py:373 | After an assignment, `values()` gains the value at the end for a new key, or has it replaced in place for an existing key. |
| `Seqs.Select` | src/generate_object_tree.py:586-605 | The positions the filter accepts, all of them, each valid, in increasing order. |
| `Seqs.Somes` | src/generate_object_tree.py:216-217 | Filtering out `None` keeps exactly the present values, never more than the input. |
| `Seqs.SomesAppend` | src/generate_object_tree.py:216-217 | Filtering out `None` commutes with concatenation, so kept values stay in input order. |
| `Dicts.Present` | src/generate_object_tree.py:815-817 | The `.get` results without the `None`s: exactly the cached values of the ids present, never more than the ids given. |
| `Seqs.Filter` | src/generate_object_tree.py:817-819 | Every kept element passes the test and every element that passes is kept, with no more copies than the input holds. |
| `Dicts.PresentAppend` | src/generate_object_tree.py:815-817 | The lookup commutes with concatenation, so the present values keep the ids' order and repeats. |
| `Seqs.FilterAppend` | src/generate_object_tree.py:817-819 | A list filter commutes with concatenation, so the kept elements keep input order and repeats. |

## Left out

- HTTP requests, the API key, the feed's XML parsing and `urllib.parse.quote_plus` are not modelled. They are function parameters: the feed is given as parsed entries and the encoding is uninterpreted.
- `read_cache` and `write_cache` are left out: file I/O and JSON text. The round-trip lemmas cover the field-to-key mapping both use; `read_cache` passes each dictionary as keyword arguments under the same key names.
- Records.ArxivFromCache: rejects a value of the wrong JSON shape, whereas Python would store it unchecked. The same holds for the scholarly and author decoders.
- The CSV log of previous searches in `fetch_paper_data` (lines 293-308) is file I/O and is left out.
- `pdb.set_trace()` in `request_and_update` is modelled as the cache staying unchanged and execution continuing; the interactive debugger is not modelled.
- AuthorGraph.AuthorTree.GetAuthorData: does not count the one-second pauses of its co-author loop (lines 796-804), because the author tree has no pause counter. The pauses of its paper loop are counted in `AuthorGraph.CachePapers`, as for `update_papers`.
- AuthorGraph.Coauthors: states membership and no repeats but not the order, because `list(set(...))` order depends on string hashing. The model lists first occurrences in order.
- Arxiv.CategoryHits: states membership and no repeats but not the order, for the same `list(set(...))` reason.
- Matching.LevDist: `numpy.zeros` gives a float table; the model uses naturals. The comparisons with 3 and 30 are the same either way.
- `str.lower` is modelled for ASCII letters only.
- `str.strip` is modelled for the white space of the first 256 code points: tab to carriage return, the separators 28 to 31, space, U+0085 and U+00A0. Wider Unicode spaces such as U+2000 to U+200A are kept.
- The getters `get_paper_list`, `get_author_list` and `get_paper_titles` and its siblings are folded into the operations that call them. `get_arxiv_paper_list` and `get_semschID_for_arxivID` are not called by the core and are left out.
- The classes `ArxivID`, `Categories` and `TwitterData` are not used by the core and are left out.
- src/app.py is not part of this model.
- The returned `vars(f)` dictionaries are modelled as the record values themselves.
