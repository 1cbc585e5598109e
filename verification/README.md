# Booth map data pipeline, modelled in Dafny

A convention-booth map reads its booth list from a published Google spreadsheet.
The edge function `onRequestGet` (functions/api/stalls.ts) does several things:

- picks the first acceptable upstream CSV among a live-query ("gviz") URL and the published URL;
- tokenizes the CSV and zips rows with headers;
- folds the rows into booths. A row without a booth number continues the previous booth;
- caches the result for 15 seconds and falls back to the last good body when the upstream fails.

The Astro route `GET` (src/pages/api/stalls.ts) does the same source selection, without the cache, and returns the raw CSV.

On the client, the project models three more pieces:

- `loadStalls` is an older loader with a naive comma split and a last-write-wins map.
- `useFavorites` keeps a sorted, de-duplicated set of favourite booth ids, synchronised across the page and other tabs.
- `SearchBar` matches a query against each booth's fields, and `injectStyle` splices a `<style>` block into the venue SVG.

The model is functional:

- strings are `seq<char>`;
- a JavaScript `Map` is an association list with distinct keys in insertion order (`OrderedMap`), and a `Set` is a duplicate-free sequence;
- a CSV record is a `map<string, string>`;
- every handler maps the old state and its inputs to the new state.

Time, fetch results and the `URL` parser are parameters.

| module | file | source |
|---|---|---|
| `Options`, `Text` | options.dfy, text.dfy | `Option`; `trim`, ASCII case mapping, `split`/`join`, `includes`, `indexOf` |
| `Csv` | csv.dfy | `csvToRows` |
| `Records` | records.dfy | `parseCSV`, `pick`, the `SEP` split |
| `Price` | price.dfy | `priceNum` |
| `OrderedMap` | ordered_map.dfy | `Map.get` / `Map.set` |
| `Booths`, `BoothIndex` | booths.dfy, booth_index.dfy | `normalizeToShape`: the row fold, and a non-recursive description of its result |
| `Urls`, `Upstream` | urls.dfy, upstream.dfy | `normalizePubToCsv`, `buildGvizCsvUrl`, `looksLikeHtml`, candidates and selection, the Astro `GET` |
| `StallsCache` | cache.dfy | the time-to-live / stale / 502 decision of `onRequestGet` |
| `LoadStalls` | load_stalls.dfy | `loadStalls` |
| `Sorting`, `Favorites` | sorting.dfy, favorites.dfy | `Array.prototype.sort`, `useFavorites` |
| `Search`, `MapStyle` | search.dfy, map_style.dfy | `SearchBar`, `injectStyle` |

The booth fold is stated against an independent reference. `BoothIndex.Attributed` pairs each row with the booth number it is filed under. `BoothIndex.Reference` then builds each booth directly from its rows:

- the first row's spelling of the id;
- the first row that has each of name, url and keywords;
- the items of the rows that have content;
- all the rows.

`BoothIndex.RunAgrees` proves that the fold yields exactly these booths, in first-seen order.

Where the documentation and the code differ, the model follows the code: `priceNum` is `null`, not absent, when there is no price text.

The price reading follows the code as well. `priceNum` of `"1,250元"` is 1, although the `.replace(",", "")` shows that 1250 was meant (see Findings):

- `Booths.ItemOf`, which the booth fold and everything built on it use, reads the price as line 131 does: a grouping comma ends the number.
- `Booths.ItemOfCorrected` is the same item with the intended reading.
- The two items are equal whenever the price text has no comma (`Booths.ItemReadingsAgree`). `Booths.GroupedItemExample` shows that they differ for `"1,250元"`.

## Model

| member | source | states |
|---|---|---|
| Text.Trim | functions/api/stalls.ts:59 | the result has no white space at either end and is empty exactly when the input is blank |
| Text.TrimFramed | functions/api/stalls.ts:74 | trimming removes only white space, from the two ends |
| Text.TrimIdempotent | functions/api/stalls.ts:74 | trimming twice is trimming once |
| Text.UpperFolds | functions/api/stalls.ts:91 | upper-casing leaves no lower-case letter, changes no other character, and loses nothing lower-casing keeps: both give the same lower-cased text |
| Text.LowerFolds | src/pages/api/stalls.ts:63 | lower-casing leaves no upper-case letter, changes no other character, is idempotent, and loses nothing upper-casing keeps |
| Text.UpperIdempotent | functions/api/stalls.ts:91 | upper-casing twice is upper-casing once |
| Text.UpperKeepsNoLetters | functions/api/stalls.ts:124 | a text without letters, such as `18` or `是`, equals or occurs in the upper-cased string exactly when it does in the original |
| Text.LowerKeepsNoLetters | functions/api/stalls.ts:124 | the same for the lower-cased string |
| Text.SplitBy | src/lib/loadStalls.ts:18-19 | a split has one piece more than there are separators, and no piece contains a separator |
| Text.JoinSplit | src/lib/loadStalls.ts:18-19 | joining the pieces of a one-character split with that character gives the text back |
| Text.SplitJoin | src/lib/loadStalls.ts:18-19 | splitting separator-free pieces joined by a separator gives the pieces back |
| Text.IndexOf | src/components/Map.tsx:102 | `None` exactly when the character is absent, otherwise its first position |
| OrderedMap.Get | functions/api/stalls.ts:92 | `None` exactly when no entry has the key; with distinct keys, the value of the entry that has it |
| OrderedMap.Set | functions/api/stalls.ts:106 | keeps keys distinct; the key then maps to the value and every other key keeps its value; a present key keeps its place, an absent one is appended |
| Csv.CsvToRows | functions/api/stalls.ts:33-55 | the tokenizer always flushes a last row, so there is at least one row and no row is empty |
| Csv.CsvToRowsLoop | functions/api/stalls.ts:33-55 | the character loop with its look-ahead computes the same rows as the recursive tokenizer |
| Csv.ScanAppendsRows | functions/api/stalls.ts:38-51 | the character loop only appends rows, never changing one already finished, and every row it finishes has at least one cell |
| Csv.EncodeRoundTrip | functions/api/stalls.ts:40-53 | any non-empty table, quoted with doubled quotes, tokenizes back to itself: quotes, commas, newlines and carriage returns inside cells survive |
| Csv.PlainTextIsSplit | functions/api/stalls.ts:44-50 | text without quotes tokenizes as a split on `\n` and then `,`, with every `\r` dropped |
| Csv.EscapedQuoteExample | functions/api/stalls.ts:41 | `""` inside quotes is one literal quote |
| Csv.UnbalancedQuoteExample | functions/api/stalls.ts:40-43 | an unclosed quote swallows the rest of the text into one cell, without error |
| Csv.EmptyInputExample | functions/api/stalls.ts:52-54 | empty text gives one row with one empty cell |
| Records.BuildRecordKeys | functions/api/stalls.ts:64-65 | the record has exactly the header keys; each key holds the trimmed cell of its last column, or "" past the row's end; all values are trimmed |
| Records.BuildRecordDistinct | functions/api/stalls.ts:65 | with distinct headers, each header maps to its own column's cell |
| Records.DataRecords | functions/api/stalls.ts:61-67 | at most one record per row |
| Records.DataRecordsKeys | functions/api/stalls.ts:61-67 | every record has exactly the header keys and trimmed values |
| Records.DataRecordsNoBlank | functions/api/stalls.ts:61-67 | without blank rows, record i is built from row i |
| Records.BlankRowSkipped | functions/api/stalls.ts:63 | a row of empty or white-space cells leaves the records as if it were absent |
| Records.ParseCsv | functions/api/stalls.ts:56-69 | fewer records than tokenized rows; every record has exactly the trimmed header names as keys |
| Records.ParseEncoded | functions/api/stalls.ts:56-69 | the first encoded row is read as the headers and the rest as data |
| Records.TableRoundTrip | functions/api/stalls.ts:56-69 | an encoded table with distinct trimmed headers and trimmed non-blank rows parses back cell for cell |
| Records.Pick | functions/api/stalls.ts:70-77 | `None` exactly when no alias names a column with a non-blank cell; an alias that trims to `""` never hits, because `hit ?` rejects the empty key; a value found is non-empty and trimmed |
| Records.PickPrefersEarlier | functions/api/stalls.ts:71-75 | the value read is the trimmed cell of the first alias that has a non-blank one: earlier aliases without a value are skipped and later ones ignored |
| Records.PickFallbackExample | functions/api/stalls.ts:121 | a sheet using the second spelling of the CP column is still read |
| Records.NonEmpty | functions/api/stalls.ts:101 | a string is kept exactly when it is a non-empty string of the input; nothing is added |
| Records.NonEmptyCounts | functions/api/stalls.ts:101 | every non-empty string is kept as often as it occurs, and no empty one |
| Records.NonEmptyAppend | functions/api/stalls.ts:101 | filtering commutes with concatenation, so the kept strings stay in input order |
| Records.BarsOnlyExample | functions/api/stalls.ts:101 | a cell of bars alone gives an empty token list |
| Records.NonEmptyKeeps | functions/api/stalls.ts:101 | a list without empty strings passes unchanged |
| Records.Tokens | functions/api/stalls.ts:31 | keyword and tag tokens are non-empty, trimmed and free of the three bar characters |
| Records.TokensRoundTrip | functions/api/stalls.ts:101 | tokens joined by `\|` split back into the same tokens |
| Records.SplitField | functions/api/stalls.ts:99-102 | an absent cell stays absent and a present one gives a token list |
| Price.DigitRun | functions/api/stalls.ts:131 | the `\d+` run is maximal: all digits, and followed by a non-digit or the end |
| Price.FirstDigit | functions/api/stalls.ts:131 | the position of the first digit, `None` exactly when there is none |
| Price.Fraction | functions/api/stalls.ts:131 | the optional `.\d+` part is taken only when a digit follows the dot |
| Price.FirstNumber | functions/api/stalls.ts:131 | the first match exists exactly when the text has a digit |
| Price.Value | functions/api/stalls.ts:131 | a match's value is non-negative and zero exactly when both digit runs are zero |
| Price.PriceNum | functions/api/stalls.ts:130-131 | as written: absent text gives `null`, and a number is always positive |
| Price.RenderedPrice | functions/api/stalls.ts:131 | a positive integer written between non-digit text reads back as that integer |
| Price.ZeroPriceIsNull | functions/api/stalls.ts:131 | a zero price gives `null` through `\|\| null` |
| Price.NoDigitIsNull | functions/api/stalls.ts:131 | a price text with no digit gives `null` |
| Price.GroupedPriceAsWritten | functions/api/stalls.ts:131 | as written, `"1,250元"` gives 1 |
| Price.GroupedPriceNum | functions/api/stalls.ts:131 | corrected: absent text gives `null`, and a number is always positive |
| Price.GroupedPrice | functions/api/stalls.ts:131 | corrected: `a,bbb` between non-digit text reads as 1000·a + b |
| Price.GroupedPriceCorrected | functions/api/stalls.ts:131 | corrected: `"1,250元"` gives 1250 |
| Price.GroupedAgreesOnPlain | functions/api/stalls.ts:131 | on prices without a comma the corrected reading equals the written one |
| Booths.R18IgnoresCase | functions/api/stalls.ts:123-124 | the `i` flag: upper- or lower-casing the cell never changes the R18 flag |
| Booths.R18Examples | functions/api/stalls.ts:124 | `R-18`, `是` and `18` are R18, and `否` is not |
| Booths.ItemOf | functions/api/stalls.ts:117-134 | the item keeps its raw row; no price text means no price number; the R18 flag is set exactly when the R18 cell is |
| Booths.ItemReadingsAgree | functions/api/stalls.ts:130-131 | the item as the code computes it and the item with the corrected price reading are equal whenever the price text has no comma |
| Booths.GroupedItemExample | functions/api/stalls.ts:130-131 | for the price `1,250元` the code's item has 1 and the corrected item 1250 |
| Booths.PriceTextIsContent | functions/api/stalls.ts:136-138 | a price text alone is content, even one without a number |
| Booths.Backfill | functions/api/stalls.ts:108-115 | a name, url or keyword list already set is never replaced; nothing else changes |
| BoothIndex.LastExplicitIsLatest | functions/api/stalls.ts:86-89 | the last booth number seen is that of the latest row that has one |
| BoothIndex.Mine | functions/api/stalls.ts:91-92 | the rows filed under a key are those whose raw id upper-cases to it |
| BoothIndex.ItemsOf | functions/api/stalls.ts:136-145 | at most one item per row, each with content |
| BoothIndex.SeenIffMine | functions/api/stalls.ts:106-107 | a key is among the first-seen keys exactly when some row is filed under it |
| BoothIndex.ReferenceStep | functions/api/stalls.ts:92-146 | one more row for a key creates or backfills its booth and attaches the row |
| BoothIndex.StepAgrees | functions/api/stalls.ts:85-147 | one fold step keeps the map equal to the reference booths, in first-seen order |
| BoothIndex.RunAgrees | functions/api/stalls.ts:79-150 | the fold's map holds exactly the reference booths, keyed and ordered by first sighting, and its last booth number is the latest explicit one |
| BoothIndex.BoothLookup | functions/api/stalls.ts:79-150 | looking a key up gives the reference booth when some row is filed under it, else nothing |
| BoothIndex.ShapeWellFormed | functions/api/stalls.ts:91-107 | keys are distinct and equal their entry's id, which is the upper-cased raw id; each booth has a row and no more items than rows |
| BoothIndex.ShapeOfText | functions/api/stalls.ts:79-150 | `normalizeToShape` of a CSV text: a key holds the reference booth of the parsed rows filed under it, or nothing; `all` lists the table's booths in order; keys are distinct upper-cased ids |
| BoothIndex.AllMatchesById | functions/api/stalls.ts:107 | `all` lists exactly the map's entries, in the same order |
| BoothIndex.OrphanRowSkipped | functions/api/stalls.ts:87-88 | a row without a booth number before any booth number changes nothing |
| BoothIndex.ContinuationJoins | functions/api/stalls.ts:87-91 | a row without a booth number is filed under the last booth number seen |
| BoothIndex.AttributedGrows | functions/api/stalls.ts:109-114 | more rows only extend a booth: fields once set stay, items and rows grow at the end |
| BoothIndex.EarlierValuesKept | functions/api/stalls.ts:109-114 | a booth's name, url and keywords never change once set, whatever rows follow |
| Urls.SetParam | src/pages/api/stalls.ts:21 | `searchParams.set` makes the key map to the value and leaves every other key as it was |
| Urls.Defaults | src/pages/api/stalls.ts:23-24 | `single=true` and `gid=0` are added only when absent |
| Urls.Rewrite | functions/api/stalls.ts:156-168 | rewrites exactly `/pubhtml` paths and `/pub` paths without `output`, keeping origin and hash; the result ends in `/pub` with `output=csv` and the defaults, and every other parameter is unchanged |
| Urls.NormalizePubToCsv | src/pages/api/stalls.ts:15-38 | an unparsable URL, or one the rewrite does not apply to, is returned unchanged |
| Urls.NormalizeIdempotent | src/pages/api/stalls.ts:19-34 | normalizing twice is normalizing once, for a parser that reads back what it prints |
| Urls.PubhtmlBecomesCsv | src/pages/api/stalls.ts:19-25 | a `/pubhtml` link becomes the same path ending in `/pub`, with `output=csv` and the defaults |
| Urls.SegmentRun | src/pages/api/stalls.ts:44 | `[^/]+` stops at the first slash |
| Urls.SheetIdFrom | src/pages/api/stalls.ts:44 | the leftmost `/spreadsheets/d/` match and its segment |
| Urls.SheetId | src/pages/api/stalls.ts:44-46 | no id exactly when the path has no match; an id is non-empty and slash-free |
| Urls.PublishedPathGivesE | src/pages/api/stalls.ts:44 | a published `/spreadsheets/d/e/…` path yields the id `e` |
| Urls.BuildGvizCsvUrl | src/pages/api/stalls.ts:40-54 | `null` for an unparsable URL or a path without a spreadsheet id |
| Urls.GvizQuery | src/pages/api/stalls.ts:47-50 | the live-query URL has the `/gviz/tq` path of its sheet, `tqx=out:csv` and the given `gid` |
| Upstream.PlainBodyNotHtml | src/pages/api/stalls.ts:62-65 | a body whose first non-blank character, within 200, is neither `<` nor blank is not taken for HTML |
| Upstream.DoctypeIsHtml | src/pages/api/stalls.ts:63-64 | an upper-case `<!DOCTYPE` prefix is taken for HTML |
| Upstream.TagOpensHtml | functions/api/stalls.ts:189-192 | a body whose first 200 characters open, after white space, with `<html` or `<!doctype` in any letter case is taken for HTML |
| Upstream.CsvBodyNotHtml | functions/api/stalls.ts:189-192 | a CSV body is not taken for HTML |
| Upstream.PublishList | src/pages/api/stalls.ts:77-80 | the normalized URL comes first, the raw URL is tried too, and it is not repeated when normalization changed nothing |
| Upstream.GvizCandidate | src/pages/api/stalls.ts:81 | at most one live-query URL, none without an edit link |
| Upstream.CandidateOrders | functions/api/stalls.ts:224-229 | both routes try the same URLs; the edge function moves the live-query URL from last to first |
| Upstream.LiveQueryFirst | functions/api/stalls.ts:229 | the edge function tries the live-query URL first, the Astro route last |
| Upstream.AcceptedBodyNonEmpty | src/pages/api/stalls.ts:95 | an accepted body is never empty |
| Upstream.FunctionsStricter | functions/api/stalls.ts:236-237 | whatever the edge function accepts the Astro route accepts too, but not the converse: the edge function also checks the content type |
| Upstream.FirstAcceptedIndex | functions/api/stalls.ts:232-239 | no index exactly when no candidate is accepted, otherwise the first accepted one |
| Upstream.Select | src/pages/api/stalls.ts:89-103 | the loop stops at the first accepted candidate, having tried exactly the candidates up to it, or tries all and finds none |
| Upstream.PagesGet | src/pages/api/stalls.ts:67-140 | 500 exactly when the publish link is missing; 502 lists the candidates, none accepted; 200 carries the non-empty body of the first accepted one |
| StallsCache.RequestGid | functions/api/stalls.ts:207 | an absent or empty `gid` parameter reads as `0`; any other value is kept |
| StallsCache.Handle | functions/api/stalls.ts:200-273 | a missing link answers 500 with no fetch; a fresh cache answers from the cache with no fetch; only a successful fetch changes the cache; 502 only without any cached body |
| StallsCache.Refresh | functions/api/stalls.ts:222-273 | a miss changes the cache only on success, stamping it with the completion time; it never answers from a fresh cache, and 502 exactly when there is no body at all |
| StallsCache.RefreshHit | functions/api/stalls.ts:222-246 | with an acceptable candidate, the candidates are fetched in order up to the first acceptable one, whose shape is cached with the completion time and served fresh |
| StallsCache.RefreshMiss | functions/api/stalls.ts:231-273 | with no acceptable candidate, every candidate is fetched, the cache is kept, and the stale body is served or 502 answered |
| StallsCache.Serve | functions/api/stalls.ts:200-273 | a run of requests gives one reply per request |
| StallsCache.NoUnavailableAfterSuccess | functions/api/stalls.ts:261-273 | once a body has been cached, no later request is answered 502 |
| StallsCache.NoFetchWithinTtl | functions/api/stalls.ts:209-220 | requests within 15 seconds of the cached body fetch nothing and get that body |
| StallsCache.SecondRequestHitsCache | functions/api/stalls.ts:210-245 | a second request within the time-to-live of a fresh fetch is served from the cache |
| StallsCache.StaleFallback | functions/api/stalls.ts:261-271 | after a success, an upstream that fails every candidate still gets the old body, marked stale |
| LoadStalls.ParseLines | src/lib/loadStalls.ts:16-20 | one row per `\n` plus one, each with at least one cell |
| LoadStalls.Norm | src/lib/loadStalls.ts:22 | the key is trimmed, and equals the upper-cased raw id for a trimmed raw id |
| LoadStalls.NormIdempotent | src/lib/loadStalls.ts:22 | normalizing twice is normalizing once |
| LoadStalls.FindIndex | src/lib/loadStalls.ts:34-36 | `-1` exactly when the header is absent, otherwise its first position |
| LoadStalls.Build | src/lib/loadStalls.ts:38-51 | keys are distinct and each equals its entry's id; every raw id is non-empty |
| LoadStalls.Load | src/lib/loadStalls.ts:24-31 | a failed response gives no map, where the source throws |
| LoadStalls.KeyPresent | src/lib/loadStalls.ts:40-51 | a key is present exactly when some row produces it |
| LoadStalls.KeyAfterRow | src/lib/loadStalls.ts:45 | one more row adds its own key, if any, and keeps the presence of every other key |
| LoadStalls.LastRowWins | src/lib/loadStalls.ts:41-50 | a key holds the entry of the last row producing it: that row's normalized and raw id, and its name and link when those cells are non-empty |
| LoadStalls.KeysInFirstSeenOrder | src/lib/loadStalls.ts:45 | keys stay in the order of their first row |
| LoadStalls.SameBoothAfterNorm | src/lib/loadStalls.ts:45-46 | ids differing only in case or padding share one entry, the later row's |
| LoadStalls.NoIdColumnNoBooths | src/lib/loadStalls.ts:34-43 | without a booth-number header every row is skipped |
| LoadStalls.HeaderOnlyNoBooths | src/lib/loadStalls.ts:30-40 | a header line alone gives an empty map |
| LoadStalls.EmptyTextNoBooths | src/lib/loadStalls.ts:30-31 | empty text gives an empty map |
| LoadStalls.NaiveAgreesWithTokenizer | src/lib/loadStalls.ts:16-20 | on text without quotes or carriage returns the naive split reads what the edge tokenizer reads, with cells trimmed |
| LoadStalls.ParseEncodedTable | src/lib/loadStalls.ts:16-20 | a table of trimmed cells without commas or newlines survives joining and splitting |
| LoadStalls.QuotedCommaSplits | src/lib/loadStalls.ts:17-19 | quotes do not protect a comma: a quoted cell holding `x,y` splits into the cells `"x` and `y"`, quotes kept |
| LoadStalls.QuotedCommaExample | src/lib/loadStalls.ts:17-19 | the line `"a,b"` reads as the two cells `"a` and `b"` |
| Sorting.BelowTotal | src/lib/useFavorites.ts:12 | any two strings are ordered one way or the other |
| Sorting.BelowAntisymmetric | src/lib/useFavorites.ts:12 | strings ordered both ways are equal |
| Sorting.BelowTransitive | src/lib/useFavorites.ts:12 | the order is transitive |
| Sorting.Insert | src/lib/useFavorites.ts:12 | inserting adds exactly the element and keeps a sorted sequence sorted |
| Sorting.Sort | src/lib/useFavorites.ts:12 | the result is sorted and a permutation of the input |
| Sorting.SortedUnique | src/lib/useFavorites.ts:12 | two sorted permutations of the same elements are equal |
| Sorting.SortByContents | src/lib/useFavorites.ts:12 | sorting depends only on the multiset of elements |
| Sorting.SortIdempotent | src/lib/useFavorites.ts:12 | sorting twice is sorting once |
| Favorites.StableArray | src/lib/useFavorites.ts:11-13 | `toStableArray` is sorted and holds exactly the non-empty input strings |
| Favorites.StableArrayCounts | src/lib/useFavorites.ts:12 | duplicates are kept: each non-empty string occurs as often as in the input |
| Favorites.StableArrayIdempotent | src/lib/useFavorites.ts:11-13 | a stable array is its own stable array |
| Favorites.ArraysEqual | src/lib/useFavorites.ts:14-18 | true exactly when the arrays are equal |
| Favorites.FromArray | src/lib/useFavorites.ts:41 | `new Set` keeps each element once, and leaves a duplicate-free array as it is |
| Favorites.Delete | src/lib/useFavorites.ts:84 | removes exactly the one id and keeps the rest distinct |
| Favorites.Init | src/lib/useFavorites.ts:22-24 | the initial set is valid and holds exactly the non-empty stored ids |
| Favorites.Load | src/lib/useFavorites.ts:23 | a missing or unparsable stored value starts an empty set |
| Favorites.Toggle | src/lib/useFavorites.ts:68-76 | flips the membership of exactly the trimmed id; a blank id changes nothing |
| Favorites.Remove | src/lib/useFavorites.ts:78-87 | removes exactly the trimmed id; an absent id returns the set as it was |
| Favorites.Clear | src/lib/useFavorites.ts:89 | the empty set |
| Favorites.List | src/lib/useFavorites.ts:91 | sorted, and holds exactly the non-empty members |
| Favorites.ListDistinct | src/lib/useFavorites.ts:91 | the list has no duplicates |
| Favorites.CountIsSize | src/lib/useFavorites.ts:92 | `count` is the number of favourites |
| Favorites.Sync | src/lib/useFavorites.ts:38-41 | the state is kept when its sorted contents equal the incoming ones, otherwise replaced by exactly the incoming non-empty ids |
| Favorites.OnBus | src/lib/useFavorites.ts:35-43 | the bus handler keeps the set valid |
| Favorites.OnStorage | src/lib/useFavorites.ts:50-61 | another key or an unparsable value changes nothing |
| Favorites.ListByMembers | src/lib/useFavorites.ts:91 | the list depends only on the members |
| Favorites.ToggleTwice | src/lib/useFavorites.ts:68-76 | toggling the same id twice restores the members and the list |
| Favorites.EchoIsNoop | src/lib/useFavorites.ts:27-41 | the handler hearing its own broadcast keeps the state, so there is no update loop |
| Favorites.StoreLoadRoundTrip | src/lib/useFavorites.ts:22-29 | storing the list and loading it again gives the same members |
| Favorites.SyncIdempotent | src/lib/useFavorites.ts:38-58 | applying the same incoming array twice changes nothing the second time |
| Favorites.PaddedIdExample | src/lib/useFavorites.ts:66-69 | `isFav(" A")` is false and `isFav("A")` true after `toggle(" A")` |
| Search.Fields | src/components/SearchBar.tsx:28-38 | the id comes first among the searched fields |
| Search.Needle | src/components/SearchBar.tsx:44 | the needle is empty exactly when the query is blank |
| Search.Results | src/components/SearchBar.tsx:43-47 | a blank query finds nothing; otherwise an id is found exactly when a booth with it matches |
| Search.Filter | src/components/SearchBar.tsx:46 | an id is kept exactly when some booth with it matches |
| Search.FilterAppend | src/components/SearchBar.tsx:46 | filtering commutes with concatenation, so results keep the data order |
| Search.FieldSearched | src/components/SearchBar.tsx:28-41 | every field, keyword and tag is searched: a needle found in any of them, lower-cased, matches the booth |
| Search.HaystackStartsWithId | src/components/SearchBar.tsx:28-41 | the lower-cased id opens the haystack |
| Search.IdAlwaysSearched | src/components/SearchBar.tsx:30-46 | a query found in the lower-cased id always finds the booth |
| Search.TrimUpper | src/components/SearchBar.tsx:44 | trimming and upper-casing commute |
| Search.QueryCaseInsensitive | src/components/SearchBar.tsx:44 | the query's ASCII letter case does not matter |
| Search.AcrossFieldsExample | src/components/SearchBar.tsx:40 | the query `a b` matches a booth named `A` with theme `B` |
| MapStyle.InjectStyle | src/components/Map.tsx:101-127 | text without `>` is returned unchanged; otherwise the length grows by exactly the block |
| MapStyle.InjectedAfterFirstClose | src/components/Map.tsx:102-126 | the text through the first `>` comes first, then the block, then the rest |
| MapStyle.InjectionReversible | src/components/Map.tsx:126 | cutting the block back out restores the source, and the first `>` stays where it was |
| MapStyle.PrologExample | src/components/Map.tsx:100-102 | after an XML declaration the block lands before the `<svg>` tag |

## Left out

- Network and HTTP: `fetch`, response objects, headers and `res.text()` are left out. A fetch is a function from URL to an outcome: it throws, or returns ok, status, content type, body and final URL. In the cache model each request carries its own function.
- The edge function's in-flight promise, which lets concurrent requests share one fetch, is left out. Requests are handled one after another.
- `Date.now` is left out; the clock readings at request arrival and after the fetch are inputs.
- `JSON.stringify` of the shape, and `JSON.parse` in the storage listener and the stored-value reader, are left out. The cache holds the shape itself. A stored value is absent, unparsable, or an array of strings.
- The `URL` class is a pair of functions, parse and print, supplied by the caller. `Urls.NormalizeIdempotent`, `Urls.PubhtmlBecomesCsv` and `Urls.GvizQuery` assume that parsing a printed URL gives it back.
- `toUpperCase` and `toLowerCase` map only the ASCII letters. For the R18 test and the HTML check this loses nothing about the modelled properties, since their patterns are ASCII. Booth ids with accented or full-width letters would upper-case differently in JavaScript.
- Search.Results: matching folds only ASCII letters. JavaScript's `toLowerCase` also folds accented and full-width letters, so the program finds `POKÉMON` for the query `pokémon` and `ＡＢＣ` for `ａｂｃ`, and the model does not.
- Search.QueryCaseInsensitive: holds for the ASCII case mapping only. In JavaScript, `"ß".toUpperCase()` is `"SS"`, so such queries are not interchangeable.
- Strings are sequences of code points, not UTF-16 units. `slice(0, 200)` and the default sort can differ for characters outside the Basic Multilingual Plane.
- Booths.ItemOf: prices are `real`, not floating-point `Number`.
- The client's dead guard `if (!rows.length)` is not modelled as a branch, because the split always yields a line. `LoadStalls.LoadText` documents it.
- The React wiring is left out: state setters, effects, listener registration, and the dispatch of the broadcast. Each handler is a function from the previous set to the next.
- `safeLocalSet` is left out: what is written is `Favorites.List`.
- UI components other than the search filter and the SVG splice are left out, as are the Tailwind configuration and commented-out code.
- The CSS text that `injectStyle` inserts is a parameter: its content has no behaviour to model.
- Response headers are left out, apart from the reply kinds: the debug origin, the candidates and upstream status of a 502, and the source URL of a 200.

## Findings

| source | as written | input that shows it | evidently intended | confidence | as-written member | corrected member |
|---|---|---|---|---|---|---|
| functions/api/stalls.ts:131 | the price is the first `\d+(?:[.]\d+)?` match, then `.replace(",", "")`; the match can never contain a comma, so the replace never applies and a grouping comma ends the number | `"1,250元"` gives 1 | thousands separators are removed before reading the number, giving 1250 | not executed | Price.GroupedPriceAsWritten | Price.GroupedPriceCorrected |
