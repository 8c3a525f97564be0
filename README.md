# Pôle Emploi job board: extraction pipeline

This project models the Pôle Emploi plugin of JobCatcher (`jobboards/PoleEmploi.py`) and proves properties of the model. It covers:

- **URL discovery** (`getUrls`). Each cached feed page is cut into `<tr>…</tr>` rows. The first offer link of a row becomes one `[feedid, detail URL]` pair.
- **Offer-id extraction** (`extractOfferId`). This is everything after the first `/detail/` of a page URL.
- **Field extraction** (`_regexExtract`). This is the label/value pattern of an offer page, converted to text and stripped.
- **The page analyser** (`analyzePage`). It is an ordered run of checkpoints. Each checkpoint writes keys into the board's record dictionary `self.datas`, or returns at a checkpoint, or raises. The path through every checkpoint ends with the location split, the company default, the state `ACTIVE` and one insert.
- **The record table**. `createTable` creates the table unless it exists. `insertToJBTable` is an insert whose primary-key conflict is swallowed, and it returns 0.
- **The offer builder** (`createOffer`). It copies a stored row into an offer, gated by the truthiness of offerid, ref and company.

Each regular expression is modelled as a search for its least match. A match is a tuple of positions. Every quantifier before the last group of a pattern is lazy, or, for `[0-9]+`, gives back nothing. So the match Python's backtracking engine returns is the lexicographically least tuple. The greedy trailing groups `(.*)` of the offer-id pattern and of the location pattern then run to the end of the text (DOTALL) or to the end of the line. Each search function is proved to return exactly that match, or nothing when no match exists.

The board is the class `PoleEmploi.JBPoleEmploi`. Its fields are:

- the record dictionary, which is never reset between pages, as in the code;
- the table;
- whether the table exists;
- the log of offers handed to the framework's `disableOffer`.

`analyzePage` is written as a chain of methods. They write the dictionary key by key, in the order of the code, through the same early returns. Each method is proved against a stage of the specification function `PageAnalyzer.Checkpoints`, and the lemmas about the analyser are proved about that function.

The parser, the HTML-to-text converter, the date conversion and the clock are inputs:

- a `Page` holds the elements the parser finds;
- an `Env` holds `htmlToText`, the `strptime`/`strftime('%s')` conversion and `time.time()`.

Python exceptions the code lets escape become `Threw` outcomes:

- `AttributeError` when the page has no `<body>`;
- `TypeError` for a missing primary item (line 112) or a missing publication date (121-123);
- `ValueError` when `strptime` rejects the date;
- `KeyError` when the dictionary lacks a column;
- `OperationalError` when the table does not exist.

Three behaviours of the code are easy to misread. The model follows the code in each:

- There is no completeness gate before the insert. A page is stored whatever its offerid, ref and company, and only `createOffer` applies the gate.
- A missing primary item raises `TypeError` before `ref` is written; it does not store a row with an empty `ref`.
- The record dictionary is not created fresh per page. It is one field of the board, so keys written by an earlier page survive into a later page's early exits. The row a page inserts still depends only on that page, and `PoleEmploi.JBPoleEmploi.AnalyzePage` proves so.

## Model

| member | source | states |
|---|---|---|
| `Text.StripExact` | jobboards/PoleEmploi.py:69 | `strip()` removes exactly the surrounding whitespace: stripping pre + r + post, with whitespace-only pre and post and r without edge whitespace, gives r |
| `Text.Strip` | jobboards/PoleEmploi.py:69 | the stripped text is no longer than the text and has no whitespace at either end |
| `Text.StripIdempotent` | jobboards/PoleEmploi.py:69 | stripping a stripped string changes nothing |
| `Text.IndexOf` | jobboards/PoleEmploi.py:54 | the first occurrence of a literal at or after a position, or none when no occurrence exists there |
| `OfferIds.DetailUrl` | jobboards/PoleEmploi.py:56 | the built URL is the fixed detail prefix followed by the captured id, and nothing else |
| `OfferIds.ExtractOfferId` | jobboards/PoleEmploi.py:73-83 | `None` exactly when the URL has no `/detail/`; otherwise the suffix after the first `/detail/` |
| `OfferIds.ExtractDetailUrl` | jobboards/PoleEmploi.py:73-83 | round trip: the offer id read from the URL that discovery builds from an id is that id |
| `OfferIds.NoEarlyMarker` | jobboards/PoleEmploi.py:56 | the prefix `http://candidat.pole-emploi.fr/candidat/rechercheoffres` never contains `/detail/`, so the first marker of a built URL is the one before the id |
| `UrlDiscovery.NextRow` | jobboards/PoleEmploi.py:47-51 | the next `<tr.*?>(.*?)</tr>` match at or after a position is a match, no match precedes it, and `None` means no match is left |
| `UrlDiscovery.NextRowIsRowHit` | jobboards/PoleEmploi.py:47-51 | the scan finds exactly the unique least match that the row sequence of a feed is defined from |
| `UrlDiscovery.RowBounds` | jobboards/PoleEmploi.py:47-51 | a row match opens at or after the search position, and its tag, body and `</tr>` lie in order inside the page |
| `UrlDiscovery.RowBodyHasNoClose` | jobboards/PoleEmploi.py:48 | a captured row body never contains `</tr>`: the lazy body stops at the first one |
| `UrlDiscovery.RowsHaveNoClose` | jobboards/PoleEmploi.py:47-52 | no row that `finditer` yields contains `</tr>` |
| `UrlDiscovery.FindLink` | jobboards/PoleEmploi.py:54 | the least match of the link pattern (its literal, then a lazy body up to the first `"` with no newline), or `None` when the row has none |
| `UrlDiscovery.LinkBodyClean` | jobboards/PoleEmploi.py:54 | the captured identifier of the least link match holds no quote and no newline |
| `UrlDiscovery.LinkId` | jobboards/PoleEmploi.py:54 | `None` exactly when the row holds no match of the link pattern; otherwise its group 1, which holds no quote and no newline |
| `UrlDiscovery.LinkIdOfLeast` | jobboards/PoleEmploi.py:54-55 | the identifier is the capture of the least link match: the text between `detailOffre/` and the first following `"` |
| `UrlDiscovery.LeastLinkFound` | jobboards/PoleEmploi.py:54 | any search result with the properties of the link search is the least link match |
| `UrlDiscovery.RowUrls` | jobboards/PoleEmploi.py:54-57 | a row contributes at most one pair |
| `UrlDiscovery.RowUrlsIffLink` | jobboards/PoleEmploi.py:54-57 | a row contributes a pair if and only if it holds a link match |
| `UrlDiscovery.RowUrlsOfLeast` | jobboards/PoleEmploi.py:54-57 | that pair is the feed's id with the detail URL built from the least link match's capture |
| `UrlDiscovery.FeedUrlsConcat` | jobboards/PoleEmploi.py:52-57 | the pairs of consecutive rows are the pairs of the first rows followed by those of the rest, so row order is kept |
| `UrlDiscovery.ScanStep` | jobboards/PoleEmploi.py:52-57 | one iteration over a row keeps the scan invariant: the pairs so far followed by the pairs of the rows left are always the feed's pairs |
| `UrlDiscovery.ScanEnd` | jobboards/PoleEmploi.py:52-57 | when no row is left, the pairs collected are the feed's pairs |
| `UrlDiscovery.FeedUrlsAtMostOnePerRow` | jobboards/PoleEmploi.py:52-57 | a feed never gives more pairs than it has rows |
| `UrlDiscovery.RowUrlsWellFormed` | jobboards/PoleEmploi.py:55-57 | the pair of a row carries the feed's id and a detail URL whose offer id reads back as the captured id |
| `UrlDiscovery.FeedUrlsWellFormed` | jobboards/PoleEmploi.py:52-57 | every pair of a feed carries that feed's id and a detail URL built from a captured id, from which the analyser reads the same id back |
| `UrlDiscovery.DiscoverUrlsConcat` | jobboards/PoleEmploi.py:39-57 | the pairs of two lists of feeds are the first list's pairs, then the second's |
| `UrlDiscovery.DiscoverUrlsSnoc` | jobboards/PoleEmploi.py:39-57 | one more feed appends exactly that feed's pairs |
| `UrlDiscovery.DiscoveredPairsWellFormed` | jobboards/PoleEmploi.py:39-57 | every discovered pair names one of the feeds and a well-formed detail URL |
| `PoleEmploi.JBPoleEmploi.GetUrls` | jobboards/PoleEmploi.py:33-59 | the nested loops return the pairs of every feed in order, and within a feed the pairs of its rows in document order |
| `PoleEmploi.JBPoleEmploi.FeedPairs` | jobboards/PoleEmploi.py:47-57 | the inner loop over `finditer` returns exactly the pairs of that feed's rows, in order |
| `FieldExtractor.FindField` | jobboards/PoleEmploi.py:65-67 | the least match of the label/value pattern for a caption, or `None` when there is no match |
| `FieldExtractor.RegexExtract` | jobboards/PoleEmploi.py:61-71 | `None` exactly when the pattern does not match; otherwise the result has no edge whitespace |
| `FieldExtractor.RegexExtractValue` | jobboards/PoleEmploi.py:67-69 | the result is the stripped text of the value that the least match captures |
| `FieldExtractor.LeastMatchFound` | jobboards/PoleEmploi.py:67 | any search result with the least-match properties is that least match |
| `FieldExtractor.CapturedValueHasNoClose` | jobboards/PoleEmploi.py:65 | the captured value never contains `</span></div>`: the lazy group stops at the first one |
| `LocationSplit.DigitRunEnd` | jobboards/PoleEmploi.py:140 | the end of the digit run from a position: every character before it is a digit and the one at it is not |
| `LocationSplit.LocMatchEnd` | jobboards/PoleEmploi.py:140 | the greedy `[0-9]+` gives back no digit: a match from a position ends where its digit run ends |
| `LocationSplit.FindDepartment` | jobboards/PoleEmploi.py:140 | the leftmost digit run followed by ` - `, or `None` when there is none |
| `LocationSplit.LineEnd` | jobboards/PoleEmploi.py:140 | where `.*` without DOTALL stops: the first newline, or the end of the text |
| `LocationSplit.SplitStripped` | jobboards/PoleEmploi.py:140-143 | no department exactly when the stripped text has no match, and then the location is the whole stripped text; the location has no edge whitespace |
| `LocationSplit.SplitLocation` | jobboards/PoleEmploi.py:138-143 | the same, stated for the unstripped region text |
| `LocationSplit.SplitStrippedMatch` | jobboards/PoleEmploi.py:140-143 | on a match the department is exactly the leftmost digit run, and the location is the stripped rest of that line |
| `LocationSplit.SplitStrippedOfFound` | jobboards/PoleEmploi.py:141-143 | once the search finds a digit run, the split is its stripped digits and the stripped rest of the line |
| `LocationSplit.LeftmostFound` | jobboards/PoleEmploi.py:140 | any search result with the leftmost-match properties is the leftmost match |
| `LocationSplit.DigitsStripToThemselves` | jobboards/PoleEmploi.py:142 | `m.group(1).strip()` is the digits themselves |
| `LocationSplit.SplitLocationOfStripped` | jobboards/PoleEmploi.py:139-140 | stripping the region text first and searching the stripped text agree with splitting it directly |
| `LocationSplit.ParisExample` | jobboards/PoleEmploi.py:138-143 | `"75 - Paris"` gives department `"75"` and location `"Paris"` |
| `LocationSplit.RemoteExample` | jobboards/PoleEmploi.py:138-143 | `"Remote"` gives no department and location `"Remote"` |
| `Records.NamesDistinct` | jobboards/PoleEmploi.py:188-203 | the fourteen dictionary keys are pairwise distinct |
| `Records.RowOf` | jobboards/PoleEmploi.py:187-203 | the INSERT's parameters are the dictionary's values of the fourteen columns, in column order |
| `Records.RowOfMerge` | jobboards/PoleEmploi.py:187-203 | once every column has been written, the row no longer depends on what the dictionary held before |
| `Records.RowDict` | jobboards/PoleEmploi.py:220 | `dict(row)` gives every column the row's value at its position |
| `Records.RowDictOfRow` | jobboards/PoleEmploi.py:187-220 | reading a stored row back as a dictionary gives the dictionary it was stored from |
| `Records.InsertOrIgnore` | jobboards/PoleEmploi.py:187-211 | a new text key adds exactly that row and changes no other; a key already stored leaves the table as it was; a NULL key is never a conflict |
| `Records.InsertKeepsWellKeyed` | jobboards/PoleEmploi.py:182 | the insert keeps every stored row under its own offer id |
| `Records.InsertTwice` | jobboards/PoleEmploi.py:209-211 | inserting a row whose text key is already stored again is a no-op |
| `Records.FirstWithKey` | jobboards/PoleEmploi.py:187-211 | a row of the run with the given key that no earlier row of the run shares, or `None` when no row has that key |
| `Records.FirstWriteWins` | jobboards/PoleEmploi.py:184-216 | after any run of inserts a key holds the row it held before, or else the first row of the run with that key |
| `Records.ReinsertKeepsKeyed` | jobboards/PoleEmploi.py:184-216 | re-running the same inserts changes no row with a text key |
| `Records.CreateOffer` | jobboards/PoleEmploi.py:218-242 | an offer exactly when offerid, ref and company are all truthy; the offer's source is `PoleEmploi` and every other field is the row's value, unchanged |
| `PageAnalyzer.Result` | jobboards/PoleEmploi.py:85-156 | the caller sees `None` exactly on the stored path, an exception exactly on a raising path, and the exception is the one raised |
| `PageAnalyzer.ResultsDistinct` | jobboards/PoleEmploi.py:89-136 | every exit returns a different result, so the caller can tell them apart |
| `PageAnalyzer.StoredWritesComplete` | jobboards/PoleEmploi.py:138-153 | after the last writes every column has a value, and the offer id is the one written first |
| `PageAnalyzer.SkippedPage` | jobboards/PoleEmploi.py:88-89 | a page the framework does not want analysed returns `""` and writes, disables and inserts nothing |
| `PageAnalyzer.CheckpointExits` | jobboards/PoleEmploi.py:88-136 | for each exit, the page takes that exit if and only if its element is missing and every earlier checkpoint passed |
| `PageAnalyzer.CheckpointEffects` | jobboards/PoleEmploi.py:91-97 | only the last exit inserts; only a missing content block disables the offer, and it disables the offer id just recorded; every analysed page records its offer id |
| `PageAnalyzer.StoredRecord` | jobboards/PoleEmploi.py:104-156 | the stored path writes all fourteen columns: offer id, URL, feed id, last update, title, ref, date added (the clock), date published (the converted date), contract, salary, department, location, company and state `ACTIVE`; an extracted text that is `None` is stored as NULL |
| `PageAnalyzer.StoredPage` | jobboards/PoleEmploi.py:99-156 | on the stored path the texts are those of the field extractor and the location split, the company is `NA` when the page names no organisation, and otherwise the organisation's stripped text (which may itself be `NA`) |
| `PageAnalyzer.CompanyText` | jobboards/PoleEmploi.py:146-150 | the company text has no edge whitespace, and is `NA` when the page names no organisation |
| `PageAnalyzer.CompanyDefault` | jobboards/PoleEmploi.py:146-150 | the company is `NA` if and only if the page names no organisation or the organisation's stripped text is `NA` |
| `PageAnalyzer.StoredOffer` | jobboards/PoleEmploi.py:218-242 | the row a stored page inserts, read back and built into an offer, gives an offer exactly when offer id, ref and company are non-empty; the offer carries the page's URL, feed id and state `ACTIVE` |
| `PoleEmploi.JBPoleEmploi.constructor` | jobboards/PoleEmploi.py:28-31 | a board named `PoleEmploi` with an empty dictionary and log, over a database that may already hold the table |
| `PoleEmploi.JBPoleEmploi.CreateTable` | jobboards/PoleEmploi.py:158-182 | afterwards the table exists and holds the rows it held before, which is none when it is new |
| `PoleEmploi.JBPoleEmploi.InsertToJBTable` | jobboards/PoleEmploi.py:184-216 | raises `KeyError` on a missing column and `OperationalError` without the table, changing nothing; otherwise returns 0 and the table is the insert-or-ignore of the dictionary's row |
| `PoleEmploi.JBPoleEmploi.AnalyzePage` | jobboards/PoleEmploi.py:85-156 | the dictionary gains exactly the keys the page's checkpoints write; only the missing-block exit logs a disabled offer; only the stored path calls the insert, with the row of this page's writes alone; the result is the exit's |
| `PoleEmploi.JBPoleEmploi.RunCheckpoints` | jobboards/PoleEmploi.py:88-97 | the framework's verdict, the offer id write and the body and content-block checkpoints change the board and return as `Checkpoints` prescribes |
| `PoleEmploi.JBPoleEmploi.Put` | jobboards/PoleEmploi.py:105 | `self.datas[k] = v` adds one write and changes nothing else |
| `PoleEmploi.JBPoleEmploi.RunBlock` | jobboards/PoleEmploi.py:99-110 | the title checkpoint, then the title, URL and last-update writes, as `BlockCheckpoints` prescribes |
| `PoleEmploi.JBPoleEmploi.RunItems` | jobboards/PoleEmploi.py:109-117 | the primary item (its absence raises `TypeError`), the ref and feed-id writes, then the secondary-item checkpoint, as `ItemCheckpoints` prescribes |
| `PoleEmploi.JBPoleEmploi.RunDetails` | jobboards/PoleEmploi.py:119-123 | the date added is written before the publication date is converted, and the conversion raises on a missing or rejected date, as `DetailCheckpoints` prescribes |
| `PoleEmploi.JBPoleEmploi.RunRegion` | jobboards/PoleEmploi.py:125-136 | the contract and salary writes, then the region checkpoint, as `RegionCheckpoint` prescribes |
| `PoleEmploi.JBPoleEmploi.WriteStored` | jobboards/PoleEmploi.py:138-153 | the department is first NULL and then the digits when the split finds them; then the location, the company and the state |
| `PoleEmploi.JBPoleEmploi.StoreRow` | jobboards/PoleEmploi.py:138-156 | the last writes, then one insert of the complete row; an error of the insert propagates |

## Left out

- File and feed I/O (`glob.glob`, `utilities.openPage`): feeds are given as (page id, HTML) values, in the order `glob` would list them.
- The HTML parser: a page is given as the elements the parser finds (body, content block, title, the two list items, region and organisation) and the serialisations the field extractor searches. `unicode.join(u'\n', map(unicode, soup))` is taken as given. BeautifulSoup 3 tags are always truthy, so `if not x` is modelled as "x was not found".
- `utilities.htmltotext`, the date conversion `strptime(...).strftime('%s')` and `time.time()`: these are parameters of the model, because they depend on the library, the time zone and the clock.
- The general regular-expression engine: only the five patterns of the file are modelled. The four captions contain no metacharacter, so each is matched literally.
- SQLite plumbing (connect, `text_factory`, commit, close), the DDL text and SQLite's conversions by column type affinity: the table is a map from text keys to rows plus a list of rows whose key is NULL, since SQLite accepts NULL in a TEXT primary key and NULLs never conflict. Storage failures other than a missing table are not modelled.
- The framework base class: `isMustAnalyze` is a flag of the page, `disableOffer` is a log of the offer ids passed to it, and `isTableCreated` is a field of the board.
- `PoleEmploi.JBPoleEmploi.WriteStored`: the code first writes `li.text.strip()` as the location and overwrites it after a match. The search at line 140 reads the value just written; the model computes that value directly as the stripped region text and writes the final location once, so the intermediate dictionary state is not modelled.
- The `Offer` class of the framework: it is a datatype with the fifteen fields `createOffer` sets.
- `PoleEmploi.JBPoleEmploi.InsertToJBTable` requires that the recorded offer id is text or NULL. That always holds, since the code only ever stores the result of `extractOfferId` there.
