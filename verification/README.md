# Job crawler core, modelled in Dafny

This project models the logic of a NestJS job-posting crawler (`JobsService`). The model has four parts:

- **Link discovery** for one job type. Listing pages 1, 2, 3, … are loaded in turn. Their anchor targets are collected, each tagged with the job type. The loop stops at the first navigation failure, the first page with no links, or the page-index cap.
- **Field extraction** from a rendered detail page into a `JobData` record of 23 string fields. The rules are: trimmed element text; first-match lookup by a caption keyword in three page regions; a three-way fallback for the contact phone. A missing element always gives `""`.
- **Crawl orchestration.** Job types are crawled in order, then each type's discovered links in order. A link whose detail page fails is skipped. Each extracted record is appended to the output and then upserted into a store keyed by `link`.
- **Search.** A filter is built from optional keyword, location and job type. Skip/take pagination is applied, and the envelope reports the unpaginated total and `totalPages = ceil(total / limit)`.

The browser and the database are replaced by parameters:

- A listing page load is a function `(jobType, pageIndex) -> Option<seq<string>>`. `None` means the navigation failed.
- A detail page load is `link -> Option<DetailPage>`, where `DetailPage` is the abstract DOM the rules read.
- Whether the store accepts an upsert is `JobRecord -> bool`.
- The store is a `map<string, JobRecord>`. The rows a search reads are a sequence in the store's own order.

Modules and files:

- `wrappers.dfy`: `Option`.
- `text.dfy`: JavaScript `trim` and `includes`, plus case folding.
- `records.dfy`: `JobRecord` and the extracted `DetailFields`.
- `extraction.dfy`: the extraction closure and `crawlJobDetail`.
- `discovery.dfy`: `crawlJobList`.
- `store.dfy`: the upsert.
- `crawl.dfy`: `crawlAll`.
- `search.dfy`: `searchFilterPaginate`.

The loop's cap test is `pageIndex++ > 200`, which compares the index of the page just collected before incrementing it. So when every page has links, page 201 is still loaded and its links are kept (`Discovery.CapIsPage201`).

## Model

| member | source | states |
|---|---|---|
| Text.LeadingSpaces | src/jobs/jobs.service.ts:70 | the count of leading characters `trim` removes: all of them are white space and the next character, if any, is not |
| Text.TrailingStart | src/jobs/jobs.service.ts:70 | where the trailing white space `trim` removes begins: everything from there on is white space and the character before it, if any, is not |
| Text.Trim | src/jobs/jobs.service.ts:70 | `trim()` yields a slice of the input with only white space cut from either end, and neither end of the result is white space |
| Text.TrimIdempotent | src/jobs/jobs.service.ts:70 | trimming twice is trimming once |
| Text.TrimAllSpace | src/jobs/jobs.service.ts:148-149 | a text of white space only trims to `""`, so it is falsy and the or-chain moves on |
| Text.ContainsIffOccurs | src/jobs/jobs.service.ts:78 | the recursive `includes` scan succeeds exactly when the keyword occurs at some offset (the reference definition) |
| Text.ExactImpliesIgnoringCase | src/jobs/jobs.service.ts:197-206 | a case-sensitive occurrence is also found by the case-insensitive `contains` |
| Text.IgnoringCaseIsCaseBlind | src/jobs/jobs.service.ts:199-205 | case-insensitive matching gives the same answer after either side is lower-cased |
| Records.Assemble | src/jobs/jobs.service.ts:154 | the record carries the caller's link and job type, and the extracted fields unchanged |
| Records.AssembleDetailsOf | src/jobs/job.interface.ts:1-25 | splitting a record into link, job type and extracted fields and assembling it again gives the same record back |
| Extraction.FindFirst | src/jobs/jobs.service.ts:73-79 | `find` returns the first item whose caption contains the keyword, or none when no caption does |
| Extraction.TextOf | src/jobs/jobs.service.ts:69-70 | a missing element reads as `""`; a present one as its trimmed text |
| Extraction.FirstMatchUnique | src/jobs/jobs.service.ts:73-79 | at most one item is the first whose caption contains the keyword |
| Extraction.LookupByCaption | src/jobs/jobs.service.ts:72-106 | the value is the trimmed value of the first item whose caption contains the keyword, or `""` when no caption does or that first match has no value element |
| Extraction.ReadsRuleUnique | src/jobs/jobs.service.ts:72-106 | the caption rule (first match's trimmed value, or `""` without a match) determines a single value |
| Extraction.ShadowedByValuelessMatch | src/jobs/jobs.service.ts:86-91 | a first match that has no value element gives `""`, even when a later item would match with a value |
| Extraction.LookupIgnoresLaterItems | src/jobs/jobs.service.ts:97-104 | items after the first match never change the result |
| Extraction.FirstNonEmpty | src/jobs/jobs.service.ts:141-149 | the JavaScript or-chain of candidates ending in `''` is `""` exactly when every candidate is empty; otherwise it is the first non-empty candidate |
| Extraction.FirstNonEmptyStops | src/jobs/jobs.service.ts:141-149 | the chain stops at the first non-empty candidate, whatever follows it |
| Extraction.ContactPhone | src/jobs/jobs.service.ts:141-149 | the phone is `""` exactly when all three renderings are empty, and otherwise one of them |
| Extraction.FirstNonEmptyOfThree | src/jobs/jobs.service.ts:141-149 | the or-chain over three candidates is the first, else the second, else the third |
| Extraction.ContactPhoneFallback | src/jobs/jobs.service.ts:141-149 | the phone comes from the `.show-phone` attribute, else the `#phone-employer` attribute, else that element's trimmed text, else `""`; attributes are not trimmed and an empty one falls through |
| Extraction.Extract | src/jobs/jobs.service.ts:108-150 | title, company, company size, headquarters and contact name are the trimmed element texts (`""` when missing); salary and location follow the caption rule over the header items with trimmed captions; the nine attribute fields follow it over the attribute items with captions as read; description, requirement and benefit follow it over the content groups; the logo is the `src` untrimmed or `""`; the phone is the fallback chain |
| Extraction.HeadItemsFrame | src/jobs/jobs.service.ts:93-112 | the `headItems` view (`.text span:last-child` captions, `.value span` values) is read only by salary and location: replacing that view, with `attrItems` kept, changes no other field |
| Extraction.AttrItemsFrame | src/jobs/jobs.service.ts:113-121 | the `attrItems` view (`.name-attr` captions, `.text-attr` values) is read only by the nine attribute fields: replacing that view, with `headItems` kept, changes no other field |
| Extraction.MissingBenefitGroup | src/jobs/jobs.service.ts:122-124 | without a benefit content group the benefit is `""`, and the content groups affect no field other than description, requirement and benefit |
| Extraction.EmptyPageGivesEmptyFields | src/jobs/jobs.service.ts:108-150 | a page on which every element is missing yields 21 empty strings; extraction never fails |
| Extraction.CrawlDetail | src/jobs/jobs.service.ts:59-155 | the detail crawl fails exactly when the page does not load; otherwise the record has the caller's link and job type and the extracted fields |
| Discovery.DiscoverFrom | src/jobs/jobs.service.ts:29-53 | from any page index, the requested pages run consecutively up to a last page k ≤ 201; all pages before k loaded and listed links; k failed, was empty, or is 201; the links are those of every collected page, in page order |
| Discovery.Discover | src/jobs/jobs.service.ts:23-57 | discovery always stops, and requests pages 1, 2, …, k in order with k ≤ 201 |
| Discovery.StopsAtFirstBadPage | src/jobs/jobs.service.ts:35-46 | if page m is the first page that fails or is empty, exactly pages 1..m are requested and the result is the links of pages 1..m-1 |
| Discovery.CapIsPage201 | src/jobs/jobs.service.ts:29-52 | when every page lists links, pages 1..201 are requested and all their links are kept |
| Discovery.SpanMembership | src/jobs/jobs.service.ts:48-50 | a link is collected exactly when one of the collected pages lists it, and it is tagged with the requested job type |
| Discovery.DiscoveredLinksTagged | src/jobs/jobs.service.ts:42-50 | every discovered link carries the requested job type and is listed on one of pages 1..201 |
| Store.Upsert | src/jobs/jobs.service.ts:168-172 | after an upsert the key maps to the whole new record, it is added if it was absent, and every other key is unchanged |
| Store.UpsertIdempotent | src/jobs/jobs.service.ts:168-172 | upserting the same record twice equals upserting it once |
| Store.UpsertLastWins | src/jobs/jobs.service.ts:168-172 | two upserts for one link leave a single entry that holds the second record |
| Store.LastIndex | src/jobs/jobs.service.ts:162-172 | the position of a record with the given link after which no record has that link; when there is none, no record has that link |
| Store.LastFor | src/jobs/jobs.service.ts:162-172 | the record returned sits at a position of the sequence, has the given link, and no later record has that link; when there is none, no record has that link |
| Store.UpsertAll | src/jobs/jobs.service.ts:162-176 | after a series of upserts each key holds the last record upserted for it, and untouched keys keep their old entry |
| Store.UpsertAllAppend | src/jobs/jobs.service.ts:160-177 | upserting one series and then another is upserting their concatenation |
| Store.UpsertAllKeepsKeyed | src/jobs/jobs.service.ts:168-172 | upserts keep every entry stored under its own link, the store's unique key |
| Store.UpsertAllShort | src/jobs/jobs.service.ts:168-172 | upserting one record, or two in a row, is the single upsert, or the two upserts in order |
| Store.UpsertAllKeys | src/jobs/jobs.service.ts:162-176 | the keys after a series of upserts are the old keys plus the links upserted |
| Crawl.Visit | src/jobs/jobs.service.ts:163-175 | a link whose page fails changes nothing; otherwise its assembled record is appended, and upserted only when the store accepts it |
| Crawl.VisitAll | src/jobs/jobs.service.ts:162-176 | the inner loop only appends to the output, at most one record per link |
| Crawl.CrawlTypes | src/jobs/jobs.service.ts:160-177 | the outer loop only appends to the output |
| Crawl.VisitAllOutput | src/jobs/jobs.service.ts:162-176 | the inner loop appends exactly the successfully extracted records, in link order |
| Crawl.VisitAllTable | src/jobs/jobs.service.ts:162-176 | the inner loop upserts exactly the extracted records the store accepts, in link order |
| Crawl.CrawlTypesOutput | src/jobs/jobs.service.ts:160-177 | the outer loop appends each job type's extracted records, job types in order |
| Crawl.CrawlTypesTable | src/jobs/jobs.service.ts:160-177 | the outer loop upserts the accepted records, job types in order |
| Crawl.CrawlAll | src/jobs/jobs.service.ts:157-179 | `crawlAll` returns exactly the successfully extracted records, job types in order and then discovery order; the store is the old store with exactly the accepted records upserted in that order, and stays keyed by link |
| Crawl.ExtractedMembership | src/jobs/jobs.service.ts:162-166 | a record is extracted from a list of links exactly when one of those links crawls to it |
| Crawl.ExpectedMembership | src/jobs/jobs.service.ts:160-161 | a record of the run's output comes from the discovered links of one of the requested job types |
| Crawl.OutputProvenance | src/jobs/jobs.service.ts:154-178 | every returned record has a requested job type and a link discovered for that type, and holds the fields extracted from that link's page |
| Crawl.OutputComplete | src/jobs/jobs.service.ts:162-176 | every discovered link whose detail page loads is in the output, whatever happened to the other links and job types |
| Crawl.FailedLinkSkipped | src/jobs/jobs.service.ts:164-175 | a failing link adds nothing and stops nothing: the output is that of the links before it followed by that of the links after it |
| Crawl.UpsertFailureKeepsOutput | src/jobs/jobs.service.ts:165-174 | a record whose upsert fails stays in the output, and the store is left as it was |
| Crawl.PersistedAll | src/jobs/jobs.service.ts:168-172 | when the store accepts every upsert, every extracted record is upserted |
| Crawl.ExtractedSingle | src/jobs/jobs.service.ts:164-175 | one link yields its record, or nothing when its detail page fails |
| Crawl.ThreeLinksMiddleFails | src/jobs/jobs.service.ts:162-176 | three links whose middle page fails extract to the first and third records |
| Crawl.MiddleFailureRun | src/jobs/jobs.service.ts:162-176 | the inner loop over such links, with a store accepting everything, returns and upserts the first and third records |
| Crawl.OneFailingLinkScenario | src/jobs/jobs.service.ts:162-176 | for links A, B, C where B fails, the output is the records of A then C, and an empty store ends with exactly keys A and C |
| Crawl.CrawlOneType | src/jobs/jobs.service.ts:157-179 | a run over one job type is the inner loop over that type's discovered links |
| Search.BuildWhere | src/jobs/jobs.service.ts:195-210 | the `where` object has a keyword (`OR`), location or job-type key exactly when that argument is truthy, and the key holds the argument |
| Search.WhereMatches | src/jobs/jobs.service.ts:195-212 | the built `where` object, read as the store reads it, selects exactly the rows `Search.Matches` describes: the keyword in the title or the company name ignoring case, the location in the location ignoring case, the job type equal, each only when truthy, all conjoined |
| Search.Filter | src/jobs/jobs.service.ts:195-218 | a row is returned exactly when it is stored and matches the where clause; never more rows than stored |
| Search.FilterAppend | src/jobs/jobs.service.ts:212-216 | filtering keeps the stored order: it distributes over concatenation |
| Search.NoArgumentsMatchAll | src/jobs/jobs.service.ts:195-210 | with no truthy keyword, location or job type, every row matches |
| Search.KeywordMatchesTitleOrCompany | src/jobs/jobs.service.ts:197-202 | the keyword matches through the title or through the company name, and a row where neither contains it, ignoring case, does not match |
| Search.CeilDiv | src/jobs/jobs.service.ts:224 | the page count is the least number of `limit`-row pages that holds every match |
| Search.CeilDivExamples | src/jobs/jobs.service.ts:224 | a total of 0 gives 0 pages; 25 rows at 10 per page give 3 pages |
| Search.SkipTake | src/jobs/jobs.service.ts:212-216 | skip/take yields the rows after the skipped ones, at most `take` of them, in order |
| Search.Search | src/jobs/jobs.service.ts:186-227 | the envelope echoes page and limit (defaults 1 and 10); total is the unpaginated match count; totalPages is the ceiling of total/limit; data holds at most `limit` matches, starting at `(page-1)*limit`, in order |
| Search.PagesCoverMatches | src/jobs/jobs.service.ts:212-216 | within one ordering of the rows, match `i` is item `i % limit` of page `i / limit + 1`, so the pages together cover every match |
| Search.PageOfIndex | src/jobs/jobs.service.ts:214 | index `i` lies `i % limit` rows into page `i / limit + 1` |
| Search.OffsetPastPages | src/jobs/jobs.service.ts:214 | the skip of a page past the last page is at least every row of those pages |
| Search.PageBounds | src/jobs/jobs.service.ts:212-226 | a page past `totalPages` is empty, and the last page of a non-empty result is not |
| Search.SecondPageOfTwelve | src/jobs/jobs.service.ts:212-226 | with 12 matches and 5 rows per page, page 2 holds 5 rows and there are 3 pages |
| Search.DistinctLinkCount | src/jobs/jobs.service.ts:168-172 | rows with distinct links have as many links as rows |
| Search.FilterDistinct | src/jobs/jobs.service.ts:212-216 | filtering rows with distinct links leaves rows with distinct links |
| Search.ResultsComeFromStore | src/jobs/jobs.service.ts:212-218 | searching a listing of the store (one row per stored link) returns stored records that match, and the total is the number of stored records that match |

## Left out

- Browser lifecycle (`getBrowser`, `newPage`, `close`, `onModuleDestroy`, launch arguments): this is external resource handling. A page load is a parameter, and a failure to launch the browser is not modelled.
- An exception from `crawlJobList` itself, such as `newPage` failing outside its `try`: in the source this aborts the whole `crawlAll` run. The model's listing load always returns a result.
- Pages left open when a detail navigation throws: this is a resource leak with no effect on results.
- Navigation timeouts and `waitUntil`: a timed-out load is the same as a failed one (`None`).
- The listing URL (`baseUrl` and its query string): the listing load takes the job type and page index directly.
- CSS selectors, DOM traversal, `innerHTML` serialisation and `HTMLImageElement.src` resolution: these are browser semantics. Each region is a sequence of items with optional caption and value texts. `attrItems` stands for every `.attr-item` of the page in document order.
- Extraction.HeadItemsFrame: `headItems` and `attrItems` are independent parameters of the page, but on a real page every header element (`.attr-item-head .attr-item`) is also an `.attr-item`. Changing a header element can therefore change the nine attribute fields as well, which this lemma does not cover.
- Extraction.AttrItemsFrame: replacing every `.attr-item` of a real page also replaces the header elements that feed salary and location. The lemma keeps `headItems` fixed, so it covers only the `attrItems` view.
- `page.evaluate` or `page.close` throwing after a page has loaded: these are not modelled. The detail crawl fails only when the page does not load.
- Text.Lower: folds ASCII letters only. The store's collation for `mode: 'insensitive'` is not part of this model.
- The store's row order for `findMany`: the rows are a sequence in the store's own order, taken as given.
- The separate `findMany` and `count` queries: they are read as one snapshot, so concurrent writes between them are not modelled.
- `Math.ceil` on a floating-point quotient: integer ceiling division is used instead.
- Search.PagesCoverMatches: assumes the rows come back in the same order on every call. `findMany` has no `orderBy`, so the store does not promise this across calls.
- Search.Search: requires page ≥ 1 and limit ≥ 1 after defaulting. The source does not validate these, and what non-positive or fractional values do is store-specific.
- `src/jobs/jobs.controller.ts`: HTTP routing and `Number(...)` query parsing.
- The default argument of `crawlAll` (`['1', '2']`): `Crawl.CrawlAll` always takes the job types from its caller.
- Logging with `console.log` and `console.warn`: it has no effect on results.
- Sequential execution: the source has no concurrency, so none is modelled.
