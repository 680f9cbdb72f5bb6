# A verified model of the new-comics crawl of ridi-comic-new-bot

The bot reads the store's "new releases" comic listing and visits the detail
page of each listed title. From the detail page it takes one date. For a
title in an ongoing series, it is the registration date of the newest volume.
For a standalone title, it is the publish date. It also builds a one-line
summary of the contributors and the publisher. It keeps the titles dated
today or later and stops at the first older one. This project models that engine in
`comic.ts`: `getComic1List`, `getComic2Info` and `getNewComicList`, with
their records `Comic1`, `Comic2` and `Comic`.

Modules:

- `Wrappers` (wrappers.dfy): `Option` and `Result`.
- `Markup` (markup.dfy): a `<script>` element that holds a JSON state blob. It
  carries its text and the parsed data. Reading it fails in three ways:
  it is absent, its text is empty, or its text is not JSON.
- `Dates` (dates.dfy): civil dates `(year, month, day)`, a validity predicate,
  and the strict "earlier day" order. It also has the cleanup that keeps only
  `[0-9.]`, and the parser for `yyyy.mm.dd` with an optional trailing dot,
  plus its inverse formatter.
- `Text` (text.dfy): joining with `" | "`, and a splitter that undoes it.
- `Listing` (listing.dfy): the listing page's `#__NEXT_DATA__` state and the
  mapping from items to `Comic1` records.
- `Detail` (detail.dfy): the detail page, reduced to two things: the typed
  grid cells of `#ISLANDS__PreparedData`, and the optional `#SeriesListWrap`
  list. The module covers the series/standalone classification, the date,
  the summary line, and every error, in the order the code checks them.
- `Crawl` (crawl.dfy): `GetNewComicList`, the loop of `getNewComicList`. A
  method walks the capped listing with a `while` loop and `break`. It is
  proved equal to the reference walk `Scan`. Lemmas then characterise what
  `Scan` returns.

Inputs that the program gets from the outside world:

- The detail oracle `detail: int -> Result<Comic2, DetailError>` stands for
  fetching `https://ridibooks.com/books/{id}` plus `getComic2Info`. Composing
  a page-fetching function with `Detail.ExtractDetail` gives one such oracle.
  The method also returns `fetched`: the ids whose detail it asked for, in
  order.
- `today` is an explicit civil date: the current day in Korean time. The
  code computes it from the clock at comic.ts:65-71.
- The listing page and the detail pages are given already parsed. HTML
  reading and `JSON.parse` are not modelled. A script whose text is not JSON
  has `parsed == None`.

The cutoff is "strictly before today" (comic.ts:79). Take five candidates
dated today, today, and the three days before. The crawl keeps two titles
and fetches three detail pages (`Crawl.FiveCandidateScenario`): the third
candidate is the first one dated before today, and its page is fetched
before the walk stops.

## Model

| member | source | states |
|---|---|---|
| `Markup.ReadScript` | comic.ts:106-114 | Order of the checks: an absent element is an error, then an element with empty text, then text that does not parse ("malformed"). Reading succeeds exactly when the element exists, its text is non-empty and it parses; the result is then the parsed data. |
| `Listing.ToComic1` | comic.ts:118-122 | The id, title and price come from `bookShell.book.id`, `.title.main` and `.priceInfo.purchase.sellingPrice`. The price is the selling price, never the list price or a rental price. |
| `Listing.MapItems` | comic.ts:118-122 | One record per item, same length and same order. Record i is item i's mapping. |
| `Listing.ExtractListing` | comic.ts:98-125 | A script error is reported as such. A state with no query is the "no queries" error. Success exactly when the state exists and has a first query. The candidates are that query's items: same order and length, each field from the book's fields. |
| `Dates.StripDateText` | comic.ts:179 | The cleaned text contains only digits and dots, and is no longer than the input. |
| `Dates.StripAppend` | comic.ts:179 | Cleanup works character by character: cleaning a concatenation concatenates the cleaned parts. |
| `Dates.StripKeepsDateText` | comic.ts:179 | A text of digits and dots is left unchanged. |
| `Dates.StripIdempotent` | comic.ts:179 | Cleaning twice gives the same text as cleaning once. |
| `Dates.StripRemovesNoise` | comic.ts:179 | A text with no digit and no dot cleans to the empty text. |
| `Dates.StripKeepsEveryDateChar` | comic.ts:179 | Each digit and each dot occurs as often after cleanup as before. No other character remains. |
| `Dates.ParseDate` | comic.ts:179-191 | A parsed date is a real calendar day with a four-digit year. The input was exactly its `yyyy.mm.dd.` form, with or without the final dot. |
| `Dates.ParseFormatDate` | comic.ts:179-191 | A formatted date (four-digit year, two-digit month and day) parses back, with or without the trailing dot, exactly when the date exists; otherwise it is rejected. With `ParseDate`'s ensures, this makes parse and format inverse. |
| `Dates.NonexistentDayRejected` | comic.ts:189-191 | `2025.02.29.` and `2025.04.31.` have the right shape but name no day, so they do not parse. |
| `Dates.LeapDayAccepted` | comic.ts:189-191 | `2024.02.29.` parses to 29 February 2024. |
| `Dates.NoisyRegDateParses` | comic.ts:175-179 | A registration text made of labels (no digits, no dots) around a formatted date cleans and parses to that date. |
| `Dates.BeforeIsStrictTotalOrder` | comic.ts:79 | The day comparison used by the cutoff is irreflexive, asymmetric, transitive and total. |
| `Text.JoinSnoc` | comic.ts:210-214 | Adding a last part to a non-empty list adds `" \| "` and that part at the end. |
| `Text.SplitJoin` | comic.ts:210-214 | When no part contains `\|`, splitting the joined text at `" \| "` gives back the parts. |
| `Detail.FindFirst` | comic.ts:183-194 | Finds the first matching cell: the found cell matches and no earlier cell does. No result means no cell matches. |
| `Detail.PageDate` | comic.ts:155-191 | The date step either gives a valid calendar day or fails with one of the date errors. |
| `Detail.AuthorParts` | comic.ts:210-213 | Defined exactly when every author group has a first author. Part i is `"{first author's name} {group title}"` for group i, in order. |
| `Detail.SeriesDate` | comic.ts:160-179 | A series page's date is a valid day, and the newest (last) entry's registration text, cleaned to digits and dots, is its `yyyy.mm.dd` form with or without the final dot. Any failure is one of the four series errors. `Detail.SeriesDateIsNewestRegDate` and `Detail.SeriesDateErrors` state which error and which date the page then has. |
| `Detail.StandaloneDate` | comic.ts:181-191 | A standalone page's date is a valid day, and the first metadata cell's first `pubDate` is exactly its `yyyy.mm.dd` form, uncleaned. Any failure is "metadata not found", missing publish info or an invalid date. `Detail.StandaloneDateIsFirstPubDate` and `Detail.StandaloneDateErrors` give the page-level results. |
| `Detail.SubText` | comic.ts:194-214 | A summary line exists exactly when there is a header cell with information, a non-empty publisher, at least one author group, and a first author in every group. Any failure is a summary-line error. Its text is given by `Detail.SubTextParts`, and its error order by `Detail.SubTextErrors`. |
| `Detail.ExtractDetail` | comic.ts:132-219 | Check order: script errors first, then empty cells, before any date logic. A date error is the date step's own error, and conversely a failing date step is the page's error whatever the header holds. A summary-line error implies the date step succeeded. A success has a valid date. |
| `Detail.SeriesDateErrors` | comic.ts:163-179 | Series page errors: an empty entry list, a newest entry with no registration-date element, empty text, and a cleaned text that is not a date. Each gives its own error. |
| `Detail.StandaloneDateErrors` | comic.ts:181-191 | A standalone page with no metadata cell fails with "metadata not found". A first metadata cell without publish info fails with its own error. A first publish date that is missing or does not parse fails with "date is invalid". |
| `Detail.SubTextErrorsFailPage` | comic.ts:189-196 | Once the date is valid, a summary-line error becomes the page's error. |
| `Detail.SubTextErrors` | comic.ts:194-211 | Summary-line errors, in check order: missing header, missing information, missing or empty publisher, empty author groups, a group without authors. |
| `Detail.SeriesDateIsNewestRegDate` | comic.ts:160-179 | On a series page the date is the cleaned registration date of the last entry. The summary line does not change it. |
| `Detail.SeriesOnlyNewestEntryMatters` | comic.ts:163-171 | Replacing all series entries except the last leaves the page's result unchanged. |
| `Detail.StandaloneDateIsFirstPubDate` | comic.ts:181-188 | On a standalone page the date is the first `pubDate` of the first metadata cell, read without cleanup. |
| `Detail.LaterMetadataIgnored` | comic.ts:157-188 | On a series page, or on a page that already has a metadata cell, appending a metadata cell changes nothing: a series page never reads metadata, and a standalone page reads only its first metadata cell. |
| `Detail.HeaderUnchangedByMetadata` | comic.ts:194-214 | The summary line depends on the header cell, not on metadata cells added later. |
| `Detail.SubTextParts` | comic.ts:194-214 | The summary line is the joined author parts, then `" \| "`, then `"{publisher} 출판"`. If no part contains `\|`, it splits back into those parts. |
| `Detail.SampleAuthorParts` | comic.ts:210-213 | Author groups A (글) and B (그림) give the parts `A 글` and `B 그림`, in that order. |
| `Detail.SampleJoin` | comic.ts:214 | Those parts and the publisher part join to `A 글 \| B 그림 \| P 출판`. |
| `Detail.SampleSubText` | comic.ts:194-214 | A page whose header has authors A (글) and B (그림) and publisher P has the summary line `A 글 \| B 그림 \| P 출판`. |
| `Detail.LabelledRegDateWins` | comic.ts:160-179 | For any valid date d, a series page is dated d when its newest entry reads `yyyy.mm.dd. 등록` for d. This holds whatever the earlier entries are, and whatever the metadata cell says, even a later publish date (the lag noted at comic.ts:79). |
| `Detail.StandaloneSampleUsesPubDate` | comic.ts:181-188 | The same cells without a series list are dated by the metadata cell's first publish date. |
| `Crawl.Merge` | comic.ts:87 | The merged title has the listing's id, title and price and the detail's date and summary line. |
| `Crawl.Cap` | comic.ts:74 | At most thirty candidates are used: the listing's first thirty, or all of them if there are fewer. |
| `Crawl.Scan` | comic.ts:75-90 | The walk fetches the candidates' ids in listing order, one each. On success it fetched one page per kept title, plus one if it stopped early. A failure is the detail error of the last fetched candidate. The kept titles are described by `Crawl.ScanSuccessIsFreshPrefix` and `Crawl.FreshPrefixIsScanned`. |
| `Crawl.NewComicList` | comic.ts:60-93 | At most thirty pages are fetched and at most thirty titles kept. The crawl fails with a listing error exactly when the listing cannot be read, and then fetches nothing. Its titles are stated by `Crawl.NewComicListIsFreshPrefix`. |
| `Crawl.GetNewComicList` | comic.ts:60-93 | The loop returns the result and fetch order of the reference walk over the capped listing, and keeps at most thirty titles. |
| `Crawl.ScanKeepsFreshPrefix` | comic.ts:79-88 | Every title a successful walk keeps is a fresh candidate (date not before today). The titles are the listing's first candidates in order, each merged with its own detail. |
| `Crawl.ScanStopsAtStale` | comic.ts:79-84 | A successful walk that kept fewer titles than there are candidates stopped at a candidate that is older than today. |
| `Crawl.ScanFetchesThroughStop` | comic.ts:75-85 | A successful walk fetched, in listing order, exactly the kept candidates plus the stale one where it stopped, if it stopped early. |
| `Crawl.ScanSuccessIsFreshPrefix` | comic.ts:74-90 | A successful walk returns the longest prefix of candidates whose date is not before today, each merged with its detail, in listing order. If it stopped early, the next candidate is older than today. It fetched exactly those candidates plus the one where it stopped. |
| `Crawl.ScanFailureIsFirstUnreadable` | comic.ts:75-78 | A failed walk names the first candidate whose detail failed, reached through fresh candidates only. It fetched nothing after that candidate. |
| `Crawl.FreshPrefixIsScanned` | comic.ts:75-90 | Converse of the success case: a prefix of fresh candidates that ends at an older candidate, or at the end, is exactly what the walk keeps. |
| `Crawl.UnreadableAfterFreshPrefixFails` | comic.ts:75-78 | Converse of the failure case: a failing detail after fresh candidates aborts the whole walk with that candidate's error. |
| `Crawl.FetchCount` | comic.ts:75-85 | At most one fetch per candidate, in listing order. On success, fetches equal kept titles, plus one if the walk stopped at an older title. |
| `Crawl.NewestFirstScanFindsAllFresh` | comic.ts:79-84 | If every detail page reads and the listing really is newest first, stopping early loses nothing: the walk keeps every candidate not before today. |
| `Crawl.NewComicListIsFreshPrefix` | comic.ts:74-90 | The crawl keeps at most thirty titles and fetches at most thirty pages. The titles are the longest fresh prefix of the listing's first thirty entries, merged, in order. |
| `Crawl.ListingFailureFetchesNothing` | comic.ts:74 | A listing error ends the crawl with that error before any detail page is fetched. |
| `Crawl.FiveCandidateScenario` | comic.ts:79-88 | Five candidates dated today, today, then the three days before: two titles kept, three detail pages fetched. |

## Left out

- Fetching pages and the one-second wait (`fetchBody`, `wait`, comic.ts:238-254): network I/O and timers. They are replaced by the detail oracle, a function from id to detail result, and by the listing page given as input.
- Reading HTML (`readBody`, JSDOM) and `JSON.parse`: library code. The pages are given as datatypes. A script whose text is not JSON is modelled as "not parsed".
- Computing today's Korean-time midnight from the clock (comic.ts:65-71): it depends on the host clock. `today` is an explicit civil date instead. The code compares a date parsed as midnight UTC with a midnight in the host's local time zone. On a host west of UTC, a title dated today would therefore count as past. The model compares calendar days and does not reproduce this host dependence.
- Reading listing records or a standalone date from the visible page markup: comic.ts has no such path. The only markup it reads directly is the `#SeriesListWrap` list of series volumes, which is modelled (`DetailPage.seriesListWrap`).
- JavaScript `Date` parsing of other text forms: the model accepts exactly `yyyy.mm.dd` with an optional trailing dot. It rejects single-digit months or days, dashes and ISO instants. A JavaScript engine may accept some of these. The engine might also roll a nonexistent day such as `2025.02.30` over into the next month; the model rejects it as an invalid date.
- Navigation through the JSON objects (`json.props.…`), and values of the wrong type: a missing intermediate field would be a `TypeError` in the code. Three such crashes are modelled as errors of their own: an empty `queries` list, an empty `publishInfo` list, and an author group without authors. A missing `pubDate` is modelled as giving an invalid date, as `new Date(undefined)` does. Other missing paths are not representable in the page datatypes.
- A JSON `null` `pubDate`: the page datatypes cannot represent it. In the code `new Date(null)` is 1970-01-01, a valid date, so such a standalone title would count as older than today and stop the walk. The model has only a missing `pubDate`, which always gives "date is invalid".
- A failed fetch (`fetch` rejecting, comic.ts:241): `DetailError` has no variant of its own for it. The oracle stands for it by returning some error, and any error aborts the walk, as the uncaught rejection does in the code.
- The check `if (!newestBook)` (comic.ts:168-170) can never fire after the non-empty check. It has no error variant.
- Logging (`console.log`): no effect on results.
- post.ts (posting to Bluesky, image resizing, number formatting) and index.ts (a scratch fetch script): not part of the crawl engine.
- comic.test.ts: its tests hit the live network and only check that a result is defined.
