# PlasmaSites core, modelled in Dafny

`PlasmaSites.py` builds a table of plasma donation centres and compares, state by state,
where they are with where poverty is. It reads the FDA establishment listing page by page,
then opens each facility's detail page, cuts ZIP codes, gives every (county, state) pair of
the poverty table an id, looks up each facility's county, and runs a Welch t-test per state.

This project models the deterministic routines inside that script and proves what they
guarantee. The browser, the HTML parser, the regular-expression engine and the t-test are
parameters, not code:

- `FallbackSearch` (`fallback_search.dfy`) models `loop_and_search`. It probes the row at
  an anchor and then up to 60 rows after it, and returns the first capture of the first row
  that matches. A retry past the end of the table answers None. A missing anchor row raises
  IndexError.
- `ListingScraper` (`listing_scraper.dfy`) models the page loop of `crawl_for_sites`. A
  listing is a sequence of pages, each a table of rows plus a "Display next" flag. Every
  page's header row is skipped, the other rows are appended to five parallel lists, and the
  frame is zipped from four of them (no ZIP column).
- `DetailScraper` (`detail_scraper.dfy`) models the per-FEI loop of `crawl_for_addresses`.
  Each facility's table gets six anchored searches at row 11, and the six result lists
  become new columns of the listing frame.
- `Enrichment` (`enrichment.dfy`) models three steps: the ZIP truncation, the
  first-appearance county-id assignment with its column assignment, and `fetch_county_id`.
- `Statistics` (`statistics.dfy`) models three things: `pop_per_site`, the rule that decides
  whether a state's t-test runs, and the per-state dictionary with its significance and
  direction columns.
- `Wrappers` (`wrappers.dfy`) holds `Option` and `Result`. Python's `None` becomes `None`,
  and a raised exception becomes `Failure`.

Imperative code stays imperative. Six loops are methods with loop invariants, each proved
against a specification function:
- the retry loop of `loop_and_search`;
- the page loop and the row loop of `crawl_for_sites`;
- the per-FEI loop of `crawl_for_addresses`;
- the county-id loop;
- the per-state loop.

The properties are proved about those functions as lemmas. The six-column assignment loop
of `crawl_for_addresses` (PlasmaSites.py:138-139) is modelled by the frame it produces.

## Model

| member | source | states |
|---|---|---|
| FallbackSearch.Window | PlasmaSites.py:89-94 | The rows the search may read are the anchor and at most 60 after it, in table order. That is at most 61 rows, and fewer only when the table ends first. |
| FallbackSearch.FirstHit | PlasmaSites.py:91-94 | The retry loop stops at the first matching row of the window. Every earlier row misses. |
| FallbackSearch.Search | PlasmaSites.py:88-101 | What `loop_and_search` returns. It raises IndexError exactly when the anchor row does not exist. A found value is the capture of some row at or after the anchor. |
| FallbackSearch.SearchFindsLowestOffset | PlasmaSites.py:89-101 | The search returns a value v exactly when some row at most 60 past the anchor yields v and every row between the anchor and that row misses. |
| FallbackSearch.SearchMissesOnlyEmptyWindow | PlasmaSites.py:91-101 | The search returns None, without raising, exactly when no row of the window matches. This covers windows cut short by the end of the table. |
| FallbackSearch.ShiftedAnchor | PlasmaSites.py:91-97 | A field that drifted up to 60 rows past the anchor is still found. One further away reads as None, and no exception is raised. |
| FallbackSearch.LoopAndSearch | PlasmaSites.py:88-101 | Returns the search result, or IndexError when the anchor row does not exist. Probes the anchor, the anchor + 1, and so on in increasing order, at most 61 rows. Every probe but the last missed, and a found value comes from the last probe. |
| ListingScraper.CleanName | PlasmaSites.py:63 | The name cleanup `re.sub("[\n\t]", "", ...)`. It never lengthens a name. |
| ListingScraper.CleanNameHasNoTabOrNewline | PlasmaSites.py:63 | A cleaned company name contains no newline and no tab. |
| ListingScraper.CleanNameKeepsOtherCharacters | PlasmaSites.py:63 | Cleaning keeps every other character as many times as it occurs. |
| ListingScraper.CleanNameFixesClean | PlasmaSites.py:63 | A name without newlines or tabs is left unchanged. |
| ListingScraper.CleanNameIdempotent | PlasmaSites.py:63 | Cleaning twice is the same as cleaning once. |
| ListingScraper.CleanNameAppend | PlasmaSites.py:63 | Cleaning a concatenation is concatenating the cleaned parts, so the kept characters stay in their original order. With the one-character case (a newline or tab is dropped, any other character kept) this fixes the cleanup completely. |
| ListingScraper.Body | PlasmaSites.py:60-61 | The header row is skipped. A table of n > 0 rows contributes n - 1 rows, and an empty table contributes none. |
| ListingScraper.ParseRow | PlasmaSites.py:62-68 | A row raises in the source's order. A row of fewer than two cells raises a missing-cell error. Then an address cell the pattern rejects raises a mismatch, and only then a missing third cell raises IndexError (a two-cell row with a matching address). A row parses exactly when it has three cells and its address matches. The summary holds the cleaned name, the three address groups and the FEI group. |
| ListingScraper.ParseRows | PlasmaSites.py:61-68 | The inner loop as a value: the rows parsed in order, stopping at the first that raises. ParseRowsMeaning states its meaning. |
| ListingScraper.ParseRowsMeaning | PlasmaSites.py:61-68 | A page's rows parse exactly when every row does, giving one summary per row in row order. Otherwise the page fails with the exception of its first malformed row. |
| ListingScraper.FailureOfPrefixPersists | PlasmaSites.py:61-68 | Once a row raises, the rows after it cannot change the outcome. |
| ListingScraper.Listed | PlasmaSites.py:53-68 | The summaries of the first n pages, page after page, or the first exception among them. FrameHasOneRowPerEntry and ListedFailurePersists state its properties. |
| ListingScraper.FrameHasOneRowPerEntry | PlasmaSites.py:53-82 | The frame has one row per non-header row of the pages read. |
| ListingScraper.Zip4 | PlasmaSites.py:80-82 | `zip` of four lists is as long as the shortest one and pairs entries by position. |
| ListingScraper.ColumnsOf | PlasmaSites.py:50-68 | The five lists are always equally long: one entry per summary. |
| ListingScraper.ColumnsOfAppend | PlasmaSites.py:63-68 | Appending one row's fields grows each of the five lists by exactly that field. |
| ListingScraper.FrameOfColumns | PlasmaSites.py:80-82 | The zipped frame is the list of summaries without the ZIP column. |
| ListingScraper.NextPageStep | PlasmaSites.py:70-78 | Following "next" from a page keeps the loop short of the first page without a "next" control. |
| ListingScraper.ParseOneMore | PlasmaSites.py:61-68 | One more row either appends its summary or raises what the whole page raises. |
| ListingScraper.ScrapeTable | PlasmaSites.py:61-68 | The inner loop grows the five lists by one entry per non-header row, field by field, or returns the page's first exception. |
| ListingScraper.ScrapePage | PlasmaSites.py:54-68 | After page n the lists hold the summaries of pages 0..n, or page n raised what the listing raises. |
| ListingScraper.LastPage | PlasmaSites.py:70-78 | The crawl's last page is the first page without a "next" control. Every page before it has one. |
| ListingScraper.ListedFailurePersists | PlasmaSites.py:54-68 | Once a page raises, reading more pages cannot change the outcome. |
| ListingScraper.Crawl | PlasmaSites.py:53-82 | What `crawl_for_sites` returns: the frame of the pages up to the first without a "next" control, or the first exception among them. StopsAtLastPage and RaisesBeforeLastPage state its properties. |
| ListingScraper.StopsAtLastPage | PlasmaSites.py:70-78 | A crawl that clicked "next" on every earlier page stops at the first page without a "next" control. |
| ListingScraper.RaisesBeforeLastPage | PlasmaSites.py:54-78 | A crawl that raises on a page before its last page raises that same exception as its result. |
| ListingScraper.CrawlForSites | PlasmaSites.py:53-82 | Reads pages in order, up to the first page without a "next" control. Returns the frame of all summaries of those pages, or the exception of the first malformed row among them. |
| DetailScraper.DetailOf | PlasmaSites.py:116-124 | The six fields one detail page yields, or the IndexError of its missing row 11. The legal name always equals the applicant name, because both use one pattern. |
| DetailScraper.DetailFailsOnlyWithoutAnchor | PlasmaSites.py:116-119 | A detail page raises exactly when its table has no row 11, and then raises IndexError for that row. |
| DetailScraper.DetailMeaning | PlasmaSites.py:119-124 | Each field is the capture of the nearest matching row within 60 rows of row 11, or None when no such row matches. |
| DetailScraper.FieldIsNearest | PlasmaSites.py:119-124 | Each anchored search reports the nearest match in its window, or None. |
| DetailScraper.ScrapeDetail | PlasmaSites.py:119-124 | The six searches, run in the source's order, give the page's detail or its exception. |
| DetailScraper.Details | PlasmaSites.py:107-132 | The per-FEI loop as a value: the facilities visited in order, stopping at the first visit that raises. DetailsMeaning states its meaning. |
| DetailScraper.DetailsLength | PlasmaSites.py:107-132 | A successful crawl gives one detail per FEI number. |
| DetailScraper.DetailsMeaning | PlasmaSites.py:107-132 | The crawl succeeds exactly when every visit does, and the i-th detail is that of the i-th FEI. Otherwise it fails with the first failing visit's exception. |
| DetailScraper.DetailsOneMore | PlasmaSites.py:107-132 | One more facility either appends its detail or raises what the whole crawl raises. |
| DetailScraper.DetailsFailureOfPrefixPersists | PlasmaSites.py:107-132 | Once a visit raises, the later facilities cannot change the outcome. |
| DetailScraper.DetailColumnsOf | PlasmaSites.py:127-132 | The six result lists are always equally long: one entry per facility visited. |
| DetailScraper.DetailColumnsOfAppend | PlasmaSites.py:127-132 | Each visit appends exactly one entry to each of the six lists. |
| DetailScraper.ScrapeAllDetails | PlasmaSites.py:107-132 | The lists have one entry per FEI, in FEI order, holding that facility's fields. Otherwise the loop returns the first visit's exception. |
| DetailScraper.Enrich | PlasmaSites.py:103-139 | What `crawl_for_addresses` returns: every listing row with its own facility's six fields, or the first exception. EnrichMeaning states its meaning. |
| DetailScraper.EnrichMeaning | PlasmaSites.py:103-139 | The enriched frame keeps every listing row in place and adds that facility's own detail. The crawl raises, with IndexError for row 11, exactly when some facility's table lacks that row. |
| DetailScraper.CrawlForAddresses | PlasmaSites.py:103-139 | The method computes exactly the enriched frame that EnrichMeaning describes. |
| Enrichment.Truncate5 | PlasmaSites.py:169 | The slice `[:5]` is a prefix of length min(5, length), and short strings do not fail. |
| Enrichment.ZipSimpleAsWritten | PlasmaSites.py:169 | Line 169 as written. It raises exactly when the ZIP is missing, and otherwise gives a prefix of length min(5, length). |
| Enrichment.MissingZipRaises | PlasmaSites.py:169 | As written, a missing ZIP makes the slice raise, while every present ZIP is cut. |
| Enrichment.ZipSimple | PlasmaSites.py:169 | The corrected truncation keeps a missing ZIP missing and cuts a present one to a prefix of length min(5, length). |
| Enrichment.ZipSimpleCorrectsAsWritten | PlasmaSites.py:169 | The corrected truncation agrees with the written one wherever that one succeeds, and it is idempotent. |
| Enrichment.Key | PlasmaSites.py:185 | The key `county + ',' + state` is one character longer than the county and the state together, and the comma sits right after the county. |
| Enrichment.LastComma | PlasmaSites.py:185 | In `county + ',' + state`, with no comma in the state, the separator is the last comma. |
| Enrichment.KeyInjective | PlasmaSites.py:185 | Equal keys mean equal (county, state) pairs, provided state names contain no comma. |
| Enrichment.Distinct | PlasmaSites.py:182-189 | A table has no more distinct keys than rows. |
| Enrichment.DistinctSameKeys | PlasmaSites.py:182-189 | The distinct keys are exactly the keys of the table. |
| Enrichment.DistinctUnique | PlasmaSites.py:182-189 | No distinct key is listed twice. |
| Enrichment.DistinctOfUnique | PlasmaSites.py:182-191 | A table without repeated keys is its own list of distinct keys. |
| Enrichment.FullDistinctIsUnique | PlasmaSites.py:182-191 | There are as many distinct keys as rows only when no key repeats. |
| Enrichment.CountyIds | PlasmaSites.py:179-189 | `ids` has an entry for every key of the table and for nothing else. |
| Enrichment.CountyIdsMeaning | PlasmaSites.py:179-189 | A key's id is its position among the distinct keys, so the ids are 0..n-1. |
| Enrichment.CountyIdsInjective | PlasmaSites.py:179-189 | Distinct keys never share an id. |
| Enrichment.CountyIdsOnto | PlasmaSites.py:179-189 | Every id 0..n-1 belongs to some key. |
| Enrichment.CountyIdsKeepEarlierIds | PlasmaSites.py:186-189 | An id once handed out never changes. |
| Enrichment.DistinctGrows | PlasmaSites.py:186-189 | The id counter never decreases. |
| Enrichment.CountyIdsFollowFirstAppearance | PlasmaSites.py:179-189 | A key first seen at row r gets, as its id, the number of distinct keys in the rows before r. |
| Enrichment.EarlierKeysGetSmallerIds | PlasmaSites.py:179-189 | A key whose first row comes earlier has the smaller id. |
| Enrichment.AssignCountyIds | PlasmaSites.py:179-189 | The loop leaves `ids` equal to the first-appearance assignment and `county_ids` equal to [0, ..., n-1] for n distinct keys. |
| Enrichment.CountyIdColumn | PlasmaSites.py:191 | Assigning a list as a column succeeds exactly when it is as long as the table. It then gives the list row by row, and otherwise raises a length mismatch. |
| Enrichment.CountyIdColumnNeedsUniqueKeys | PlasmaSites.py:188-191 | Assigning `county_ids` as a column succeeds exactly when no key repeats, and then every row gets its own key's id. |
| Enrichment.FetchCountyIdAsWritten | PlasmaSites.py:193-200 | `fetch_county_id` as written. It raises TypeError exactly when the county or the state is missing, because the key is built outside the `try`. Otherwise it gives ids[key] when the key is present and None when it is absent. |
| Enrichment.MissingCountyRaises | PlasmaSites.py:194 | A facility with a missing county or state makes the lookup raise instead of answering None. |
| Enrichment.FetchCountyId | PlasmaSites.py:193-200 | The corrected lookup. It gives an id exactly when the county and the state are present and their key is in `ids`, and that id is ids[key]. Otherwise it gives None. |
| Enrichment.FetchCountyIdCorrectsAsWritten | PlasmaSites.py:193-200 | The corrected lookup agrees with the written one wherever that one does not raise, and gives None where it raises. |
| Enrichment.FetchAfterAssign | PlasmaSites.py:179-200 | A facility with a county and a state finds an id exactly when its key occurs in the poverty table. The id found is that key's position among the distinct keys. |
| Enrichment.FetchFindsOwnPair | PlasmaSites.py:179-200 | When no state name contains a comma, a facility finds an id exactly when its own (county, state) pair is a row of the poverty table. |
| Statistics.PopPerSite | PlasmaSites.py:255-256 | A county's share is 0 when it has no site, and otherwise universe / sites (share × sites = universe). |
| Statistics.PopPerSiteSign | PlasmaSites.py:255-256 | With a non-negative universe, the share is non-negative. It is positive exactly when the county has a site and a positive universe. |
| Statistics.SumPositive | PlasmaSites.py:259 | A sum of non-negative shares is positive exactly when one share is. |
| Statistics.StateTest | PlasmaSites.py:257-266 | One state's test result: the t-test only when the `pop_per_site` column sums to more than zero, otherwise p = 1 and statistic = 0. TestRunsOnlyWithPopulatedSite and NoSitesSkipsTest state its meaning. |
| Statistics.TestRunsOnlyWithPopulatedSite | PlasmaSites.py:255-266 | With non-negative universes, the test runs exactly when some county has a site and a positive universe. Otherwise p = 1 and the statistic is 0. |
| Statistics.NoSitesSkipsTest | PlasmaSites.py:257-266 | A state without any site keeps p = 1 and statistic = 0. |
| Statistics.CountiesOf | PlasmaSites.py:253 | The filtered table holds exactly the counties of the given state. |
| Statistics.SummarizeStates | PlasmaSites.py:251-271 | `state_dict` has an entry for every listed state and no other, each holding the test of that state's counties. |
| Statistics.StateRows | PlasmaSites.py:273-274 | The summary table has one row per state, in the order of `state_master`. Each row carries that state's p-value and statistic from `state_dict`. |
| Statistics.StateRowMeaning | PlasmaSites.py:251-274 | A state none of whose counties has both a site and a positive poverty universe shows significance 1 and direction 0. This includes a state without sites and one whose sites all sit in counties with an empty universe. A state with a site in a populated county shows the test's p-value and statistic. |

## Left out

- Browser automation is not modelled: the Selenium session, page loads, form filling, clicks and `xpath_exists`, at PlasmaSites.py:23-46 and 110-114. The listing is a sequence of pages, and a facility's detail page is a function from FEI number to the texts of its table rows.
- HTML parsing and the regular expressions (PlasmaSites.py:54-68, 115-124) are uninterpreted function parameters. A missing results table on a listing page (PlasmaSites.py:59-60) is not modelled. Neither is a missing information table on a detail page (PlasmaSites.py:116). Either way `soup.find` gives None and `.find_all` raises AttributeError.
- DetailScraper.DetailOf: every detail page is taken to have an information table, because the lookup gives the texts of its rows. So the "exactly when row 11 is missing" of DetailFailsOnlyWithoutAnchor and EnrichMeaning leaves out the AttributeError of a page without that table (PlasmaSites.py:116).
- Enrichment.AssignCountyIds: the County and State of every poverty-table row are taken as present. An empty cell would reach `county + ','` at PlasmaSites.py:185 as NaN and raise TypeError, which the model does not express.
- The record-count banner of PlasmaSites.py:55-58 is not modelled. Its count only feeds a console message, but reading it can raise before any row is read. An IndexError comes when the first page's table has fewer than six rows. An AttributeError comes when the `of\s(\d*)` pattern does not match.
- ListingScraper.CrawlForSites: does not model the banner read of PlasmaSites.py:55-58, so it never fails on the first page's banner.
- Console output, `time.sleep` and `random.random` (PlasmaSites.py:58, 73-75, 96, 109, 125, 133, 198) are left out. This includes the messages printed by the exception handlers of `loop_and_search` and `fetch_county_id`. They are output and timing.
- CSV checkpoints and their reading and writing (PlasmaSites.py:83-86, 140-165, 278-281) are file I/O. The `~exists(...)` guards are always truthy, so they never skip anything.
- The merge of line 170 and the `.str.upper()` calls pass a missing county or state on as NaN. The model takes the county and state of a facility as `Option<string>`, and None stands for that NaN.
- Pandas merges, the column selections and renames, and the `count_of_sites` count (PlasmaSites.py:170-177, 204-249) are library code. A `County` carries its site count as given. The merge on `county_id` at line 254 is taken to keep each county once.
- The `.str.upper()` calls (PlasmaSites.py:174-177) are taken as already applied: keys are built from upper-cased names.
- `scipy.stats.ttest_ind` (PlasmaSites.py:262) is a parameter, because its numerics are floating point. The poverty-percentage bucketing (PlasmaSites.py:207-208) uses numpy's round-half-to-even and is not modelled.
- The debugging `breakpoint()` for Mississippi (PlasmaSites.py:263-264) is left out.
- `address_2s` and `address_3s` (PlasmaSites.py:105) are never filled or attached, so they are not modelled.
- Statistics.PopPerSite: Python floats are modelled as exact reals. Rounding of `universe / count_of_sites` and of the column sum is not modelled.
- Statistics.CountiesOf: states only which counties the filtered table holds. It does not state their order or how many times each appears, which pandas' boolean filter preserves.
- ListingScraper.CrawlForSites: requires some page without a "Display next" control. The script loops for ever when every page has one.
- The test rule follows line 259 as written: the test is skipped whenever the sum of `pop_per_site` is not positive, not only when it is exactly zero.

## Findings

| source | as written | input that shows it | evidently intended | confidence | as-written member | corrected member |
|---|---|---|---|---|---|---|
| PlasmaSites.py:169 | `str(r[:5])` slices every value of the `zips` column | a facility whose detail page has no "Zip:" row within 60 rows of row 11. Its ZIP is None, is saved as an empty cell, and reads back as NaN, so `NaN[:5]` raises TypeError. A "Zip:" row whose capture is empty goes the same way: the empty string is saved as an empty cell too, so the CSV round trip also loses the difference between a ZIP found empty and one not found | a missing ZIP stays missing and simply matches no ZIP code in the merge of line 170 | not executed; medium (relies on pandas reading an empty cell as NaN) | Enrichment.MissingZipRaises | Enrichment.ZipSimple |
| PlasmaSites.py:194 | the key `r.county_upper + ',' + r.state_x_upper` is built before the `try` of lines 195-199 | a facility whose five-digit ZIP has no row in the ZIP table. The left merge of line 170 leaves its county NaN, so float + str raises TypeError and stops the `apply` of line 202 | a facility without a county gets no id (None), as a facility whose key is unknown does through the `except` of lines 197-199 | not executed; medium (relies on pandas keeping the unmatched county as NaN through `.str.upper()`) | Enrichment.MissingCountyRaises | Enrichment.FetchCountyId |
