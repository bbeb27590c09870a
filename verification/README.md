# media-diet, modelled in Dafny

media-diet keeps a personal log of watched films and read books. Each run
does the following:

- reads a Letterboxd diary RSS feed and a Goodreads shelf RSS feed;
- normalises their items into movie and book records;
- merges the records with those stored in `movies.json` and `books.json`, keyed by id;
- decides whether anything changed;
- only then writes the two files and a combined, date-sorted `media.json`, and asks the static-site host to redeploy.

The model covers the following:

- **Letterboxd normaliser** (`letterboxd.dfy`): the field helpers (`extractIdFromUrl`, `normalizeMovieUrl`, `parseRating`, `parseRewatch`, `normalizeTitle`) and the item pipeline of `fetchLetterboxdMovies`.
- **Goodreads normaliser** (`goodreads.dfy`): `normalizeText`, `parseRssRating` (with `Number.parseInt`), `parseRssDate`, `bookUrlFromId` and the item pipeline of `fetchGoodreadsRssBooks`.
- **Merge** (`merge.dfy`): `mergeById` as a method that fills an insertion-ordered map class in two loops, proved equal to a declarative definition of the merge.
- **Change detector** (`diff.dfy`): `stableSortById` and `hasChanged`.
- **Date-descending sort** (`normalize.dfy`): `sortByDateDesc` and `buildMediaPayload`.
- **Run** (`run.dfy`): `run` as a method over a `Host` object that stands for the data directory, the two feeds and the deploy hook. Each host method records its effect in a log, so the order of loads, fetches, saves and the deploy POST is part of what is proved.

Shared pieces:

- `models.dfy` holds the record types.
- `text.dfy` holds the JavaScript string built-ins the normalisers use.
- `sorting.dfy` holds a stable sort. It is the model of `Array.prototype.sort`, which ECMAScript requires to be stable.
- `platform.dfy` bundles the library primitives whose behaviour is left open: URL parsing, `Date` parsing, `toISOString` and `parseFloat`. Every statement about the normalisers holds for any behaviour of them.

Behaviour of the code worth noting:

- `parseRewatch` matches `true`/`1`/`yes` and `false`/`0`/`no` case-sensitively (src/letterboxd.ts:48-53).
- A Letterboxd item without a `pubDate` is kept, with no date (src/letterboxd.ts:92).
- A Letterboxd item whose `pubDate` does not parse is not skipped. `toISOString` throws, and the whole fetch fails.
- No year or image is extracted, and the title loses only a rating suffix, never a year.
- A Goodreads item whose `book_id` is present but empty gets the id `""`: `??` falls back only on an absent value. Its url is then the link, because `bookUrlFromId` tests truthiness.
- `hasChanged` compares copies sorted by id, and the sort keeps records that share an id in their input order. A reordering of records with distinct ids is no change (`Diff.HasChangedPermutation`). Two different records with one id, swapped, count as a change (`Diff.HasChangedDuplicateIds`). The merge always produces distinct ids.

## Model

| member | source | states |
|---|---|---|
| Letterboxd.ExtractIdFromUrl | src/letterboxd.ts:12-21 | the id is non-empty for a non-empty link, and is either the link itself or a single path segment without `/` |
| Letterboxd.ExtractIdFallback | src/letterboxd.ts:13-20 | a link that does not parse, or whose path has no non-empty segment, is its own id |
| Letterboxd.ExtractIdLastSegment | src/letterboxd.ts:15-17 | a path `…/<slug>` followed by any number of slashes has id `slug`: trailing slashes are ignored |
| Letterboxd.ExtractIdIgnoresTrailingSlash | src/letterboxd.ts:15-17 | appending `/` to a path that has a segment leaves the id unchanged |
| Letterboxd.CanonicalPath | src/letterboxd.ts:26-29 | a path with at least three segments whose second is `film` becomes exactly `/film/<third>/`, whose segments are `film` and `<third>`; any other path is kept; the result is never rewritten again |
| Letterboxd.CanonicalPathIdempotent | src/letterboxd.ts:23-34 | rewriting the path twice is rewriting it once |
| Letterboxd.NormalizeMovieUrlIdempotent | src/letterboxd.ts:23-34 | normalising a URL twice is normalising it once, when the parser reads the normalised URL back as its parts |
| Letterboxd.NormalizeMovieUrlKeepsOtherPaths | src/letterboxd.ts:27-30 | a URL whose path is not a diary-entry path serialises unchanged |
| Letterboxd.MemberFilmPathSegments | src/letterboxd.ts:26-27 | `/<user>/film/<slug>/` has exactly the segments user, `film`, slug |
| Letterboxd.MemberFilmLink | src/letterboxd.ts:12-34 | a diary-entry link `…/<user>/film/<slug>/` gets the url `…/film/<slug>/` and the id `slug` |
| Letterboxd.ParseRating | src/letterboxd.ts:36-42 | an absent or empty rating is absent |
| Letterboxd.ParseRewatch | src/letterboxd.ts:44-55 | true exactly for `true`, `1`, `yes`; false exactly for `false`, `0`, `no`; absent for anything else, including other letter cases |
| Letterboxd.RatingSuffixDash | src/letterboxd.ts:59 | a string matching `\s*-\s*[★½]+` in full has its only dash right after its leading whitespace |
| Letterboxd.RatingSuffixEndsInGlyph | src/letterboxd.ts:59 | a rating suffix ends in ★ or ½ |
| Letterboxd.RatingSuffixExtension | src/letterboxd.ts:59 | a match that starts earlier than another match can only have taken in extra whitespace |
| Letterboxd.SuffixStart | src/letterboxd.ts:59 | the start of the leftmost match of the anchored suffix pattern, or the end of the string when there is none |
| Letterboxd.NormalizeTitle | src/letterboxd.ts:57-60 | the title never starts or ends with whitespace |
| Letterboxd.NormalizeTitleStripsSuffix | src/letterboxd.ts:57-60 | a title that trims to `base` plus a rating suffix becomes exactly `base` |
| Letterboxd.NormalizeTitleWithoutGlyph | src/letterboxd.ts:57-60 | a title with no ★ or ½ is only trimmed |
| Letterboxd.ToMovie | src/letterboxd.ts:82-95 | an item is dropped exactly when its link or title is missing or empty; it fails exactly when it is kept and its non-empty `pubDate` does not parse, with that date as the error |
| Letterboxd.ToMovieFields | src/letterboxd.ts:86-94 | a kept item yields a movie with id `extractIdFromUrl(link)`, title `normalizeTitle(title)`, url `normalizeMovieUrl(link)`, the parsed rating and rewatch flag, and the ISO date of a non-empty `pubDate` (absent otherwise) |
| Letterboxd.KeptItems | src/letterboxd.ts:83-85 | only items of the feed with a link and a title are kept |
| Letterboxd.NormalizeMovies | src/letterboxd.ts:81-96 | a successful normalisation has one entry per kept item |
| Letterboxd.NormalizeMoviesOk | src/letterboxd.ts:81-96 | the normalisation succeeds exactly when no item throws |
| Letterboxd.NormalizeMoviesFirstError | src/letterboxd.ts:81-96 | a failure reports the error of the first item that throws |
| Letterboxd.NormalizeMoviesKept | src/letterboxd.ts:81-96 | the k-th entry is the one built from the k-th kept item |
| Letterboxd.NormalizedMoviesWellFormed | src/letterboxd.ts:86-89 | every entry is a movie with a non-empty id and a trimmed title |
| Letterboxd.FetchLetterboxdMovies | src/letterboxd.ts:67-102 | a non-ok status is an error with that status; otherwise it succeeds exactly when the normalisation does, and the result is a permutation of the normalised entries, newest first, with same-time entries in feed order |
| Letterboxd.FetchWithoutItems | src/letterboxd.ts:79-80 | a feed without items gives no movies |
| Letterboxd.FetchSingleItem | src/letterboxd.ts:79-80 | a single item is read as a one-element list |
| Goodreads.NormalizeText | src/goodreads.ts:4-6 | the result is the words of the value (its maximal runs of non-whitespace) joined by single spaces, and "" for an absent value; so it is trimmed, single-spaced and keeps every other character in order |
| Text.CollapseSpacesWords | src/goodreads.ts:5 | replacing each whitespace run by one space keeps the words |
| Text.TrimWords | src/goodreads.ts:5 | trimming keeps the words |
| Text.UnwordsWords | src/goodreads.ts:5 | a trimmed, single-spaced string is its words joined by single spaces |
| Text.CollapseTrimWords | src/goodreads.ts:5 | collapsing whitespace and then trimming gives the words joined by single spaces |
| Text.WordsNoSpace | src/goodreads.ts:5 | every word is non-empty and holds no whitespace |
| Goodreads.NormalizeTextIdempotent | src/goodreads.ts:4-6 | normalising normalised text changes nothing |
| Goodreads.NormalizeTextBlank | src/goodreads.ts:4-6 | the text normalises to "" exactly when it is absent or all whitespace |
| Goodreads.ParseInt | src/goodreads.ts:22 | `parseInt` yields a number exactly when, after the leading whitespace, a digit follows directly or after one `+` or `-` |
| Goodreads.ParseIntPrefix | src/goodreads.ts:22 | whitespace, an optional sign, digits and a non-digit rest read as the signed value of the digits |
| Goodreads.DigitsValueOfNat | src/goodreads.ts:22 | a decimal numeral reads back as its number |
| Goodreads.ParseRssRating | src/goodreads.ts:18-24 | a rating needs a non-empty value containing a digit |
| Goodreads.ParseRssRatingNoDigits | src/goodreads.ts:18-24 | an absent or digit-less value has no rating |
| Goodreads.ParseRssRatingOfNumeral | src/goodreads.ts:18-24 | the numeral of a rating reads back as that rating |
| Goodreads.ParseRssDate | src/goodreads.ts:26-32 | a date exactly for a non-empty value that parses, and then its ISO form |
| Goodreads.BookUrlFromId | src/goodreads.ts:34-39 | the show-page prefix followed by the id for a non-empty id; otherwise the fallback, or "" without one |
| Goodreads.ToBook | src/goodreads.ts:60-82 | an item is dropped exactly when its read date is absent or unparseable, or it has neither a book id nor a link, or its title normalises to ""; a kept item is a dated book with a non-empty, trimmed, single-spaced title |
| Goodreads.ToBookFields | src/goodreads.ts:72-80 | the id is `book_id` when present, else the link (the title fallback is never reached); the title, url, author (absent when it normalises to ""), rating and date are the helpers' results |
| Goodreads.KeptBookItems | src/goodreads.ts:59-83 | only items that yield a book are kept |
| Goodreads.BookEntries | src/goodreads.ts:59-83 | no more entries than items |
| Goodreads.BookEntriesKept | src/goodreads.ts:59-83 | the k-th entry is the book built from the k-th kept item |
| Goodreads.BookEntriesWellFormed | src/goodreads.ts:61-80 | every entry is a dated book with a non-empty normalised title |
| Goodreads.FetchGoodreadsRssBooks | src/goodreads.ts:45-89 | a non-ok status is an error with that status; otherwise it always succeeds, with a permutation of the entries, newest first, same-time entries in feed order |
| Goodreads.FetchBooksWithoutItems | src/goodreads.ts:57-58 | a feed without items gives no books |
| Goodreads.FetchBooksSingleItem | src/goodreads.ts:57-58 | a single item is read as a one-element list |
| Sorting.TiedWithAppend | src/normalize.ts:4-8 | the tied elements of a concatenation are those of each part, in order |
| Sorting.Insert | src/normalize.ts:4-8 | inserting into a sorted sequence adds the element, keeps it sorted, and puts the element after every element tied with it |
| Sorting.StableSort | src/normalize.ts:4-8 | the sort returns a permutation, ordered by the comparator, in which every group of tied elements keeps its input order |
| Sorting.SortedUnique | src/normalize.ts:4-8 | when tied elements are equal, two sorted arrangements of the same elements are equal |
| Normalize.NewestFirstConsistent | src/normalize.ts:5-8 | the comparator `bTime - aTime` is a total preorder |
| Normalize.SortByDateDesc | src/normalize.ts:3-9 | a permutation of the input, non-increasing in time (an absent date counts as 0), with same-time entries in input order |
| Normalize.SortByDateDescIdempotent | src/normalize.ts:3-9 | sorting a sorted sequence again changes nothing |
| Normalize.StableUnique | src/normalize.ts:3-9 | two date-sorted arrangements of the same entries with the same same-time groups are equal |
| Normalize.BuildMediaPayload | src/normalize.ts:11-20 | the payload carries the given timestamp and, for each kind, the same records, date-sorted, with same-time records in input order; with `StableUnique` this fixes each list exactly |
| Diff.LexLeTotal | src/diff.ts:5 | any two ids are comparable |
| Diff.LexLeTransitive | src/diff.ts:5 | the id order is transitive |
| Diff.LexLeAntisymmetric | src/diff.ts:5 | ids that compare both ways are equal |
| Diff.ByIdConsistent | src/diff.ts:2-6 | the id comparator is a total preorder that ties exactly the records sharing an id |
| Diff.StableSortById | src/diff.ts:1-7 | a permutation of the input, in id order, in which records sharing an id keep their input order |
| Diff.HasChangedIrreflexive | src/diff.ts:9-16 | nothing has changed between a value and itself |
| Diff.HasChangedSymmetric | src/diff.ts:9-16 | swapping the arguments gives the same answer |
| Diff.HasChangedNonArray | src/diff.ts:15 | values that are not both arrays are compared directly |
| Diff.UnchangedSameRecords | src/diff.ts:10-13 | unchanged arrays hold the same records |
| Diff.HasChangedLength | src/diff.ts:10-13 | arrays of different lengths are always changed |
| Diff.HasChangedPermutation | src/diff.ts:10-13 | a permutation of an array with distinct ids is not a change |
| Diff.HasChangedDistinct | src/diff.ts:10-13 | for distinct ids, unchanged exactly when the new array holds the same records in any order |
| Diff.HasChangedDuplicateIds | src/diff.ts:1-13 | two different records with one id, swapped, count as a change |
| Merge.DedupSpec | src/run.ts:11-14 | the key order of the map holds every written id and no id twice |
| Merge.WithoutSpec | src/run.ts:13 | the ids of the second list missing from the first are exactly those |
| Merge.LastByIdSpec | src/run.ts:11-13 | the map has exactly the ids written as keys, each mapped to a record with that id |
| Merge.MergeOf | src/run.ts:11-14 | the values read back have the distinct ids in order of first write, one record per id |
| Merge.MergedById | src/run.ts:10-15 | exactly one record per id occurring in either list |
| Merge.IdMap.constructor | src/run.ts:11 | a new map is empty |
| Merge.IdMap.Set | src/run.ts:12-13 | a new id goes last; an id already present keeps its place and takes the new record |
| Merge.IdMap.SetAll | src/run.ts:12-13 | setting every item in order keeps the map equal to the one built from everything written |
| Merge.IdMap.Values | src/run.ts:14 | the values in key order are the merge of everything written |
| Merge.MergeById | src/run.ts:10-15 | the method's result equals `MergedById(existing, incoming)` |
| Merge.LastByIdAt | src/run.ts:11-13 | the last record written with an id is the one the map holds |
| Merge.LastByIdAppend | src/run.ts:12-13 | for an id written in the second list the map holds that list's last record for it, otherwise the first list's |
| Merge.LastByIdConcat | src/run.ts:12-13 | writing one list and then another gives the first map overridden by the second |
| Merge.MergeOfHolds | src/run.ts:14 | every record the map holds is in the values |
| Merge.MergeIncomingWins | src/run.ts:13 | the last fetched record with an id is in the merge |
| Merge.MergeExistingKept | src/run.ts:12-13 | the last stored record with an id the fetch lacks is in the merge |
| Merge.DedupAppend | src/run.ts:12-14 | the distinct ids of a concatenation are those of the first part, then the new ones of the second part |
| Merge.DedupDistinct | src/run.ts:12-14 | deduplicating distinct ids changes nothing |
| Merge.MergeOrder | src/run.ts:11-14 | the stored ids come first in their order, then ids only the fetch has, in fetch order |
| Merge.MergeIdempotent | src/run.ts:10-15 | merging the same fetch again changes nothing |
| Merge.MergeEmptyIncoming | src/run.ts:10-15 | with distinct stored ids, merging an empty fetch returns the stored records |
| Run.Host.constructor | src/store.ts:28-51 | the host starts with the given files and no effects |
| Run.Host.LoadMovies | src/store.ts:10-20 | a missing movies.json reads as []; nothing is written |
| Run.Host.LoadBooks | src/store.ts:38-41 | a missing books.json reads as []; nothing is written |
| Run.Host.FetchMovies | src/run.ts:26-29 | the Letterboxd fetch returns the normaliser's result for the response |
| Run.Host.FetchBooks | src/run.ts:26-29 | the Goodreads fetch returns the normaliser's result for the response |
| Run.Host.SaveMovies | src/store.ts:33-36 | only movies.json changes, to the records given |
| Run.Host.SaveBooks | src/store.ts:43-46 | only books.json changes, to the records given |
| Run.Host.SaveMedia | src/store.ts:48-51 | only media.json changes, to the payload given |
| Run.Host.TriggerDeployIfNeeded | src/deploy.ts:3-23 | the hook is POSTed only when something changed and a hook is configured; the files are untouched |
| Run.Run | src/run.ts:17-43 | the outcome, the effect log and the files after the run are those `RunOutcome`, `Logged` and `FilesAfter` give |
| Run.LoadFetchAndSave | src/run.ts:25-42 | past the configuration checks: the loads, both fetches, then the first failure, Letterboxd first, or the merge and save |
| Run.SaveIfChanged | src/run.ts:30-42 | merge, compare, and save and deploy exactly when `Decide` persists |
| Run.EffectsSpelledOut | src/run.ts:17-43 | the effects of each kind of run, in order |
| Run.RunChecksConfigFirst | src/run.ts:18-23 | a missing username or feed URL aborts before any effect, username first |
| Run.RunFetchFailureWritesNothing | src/run.ts:26-29 | a failed fetch aborts after the loads and fetches with no write and no deploy; with both failing, the Letterboxd error is reported |
| Run.RunLetterboxdHttpFailure | src/letterboxd.ts:67-69 | a non-ok Letterboxd status aborts the run with that status |
| Run.RunPersistsExactlyOnChange | src/run.ts:33-40 | with both fetches successful, the run saves exactly when the merged movies or the merged books differ from the stored ones |
| Run.RunUnchangedWritesNothing | src/run.ts:37-42 | a run that saves nothing writes no file and does not deploy |
| Run.RunPersistOrder | src/run.ts:37-42 | a saving run writes movies.json and books.json, then media.json, then POSTs to the configured hook; the files hold the merged records and the payload `buildMediaPayload` makes of them |
| Run.RunDeploysOnlyOnChange | src/deploy.ts:18-23 | the hook is POSTed exactly when the run saved and a hook is configured, and only to that hook |
| Run.RunKeepsStoredIds | src/run.ts:30-31 | every stored id is still in the file written back, and ids are distinct |
| Run.RunTwiceUnchanged | src/run.ts:30-42 | a second run on what the first left, with the same fetch results, finds nothing new |
| Run.RunFirstTimePersists | src/run.ts:33-40 | with no stored files, a run whose fetches yield any record saves |

## Left out

- URL parsing and serialisation are left open. A parsed URL is its path plus the text before and after it. Host, scheme and percent-encoding rules are not modelled.
- `Date` parsing and `toISOString` are left open, as functions from a string to an optional time value and from a time value to a string. The RangeError `toISOString` throws on an invalid date is modelled as the fetch's error.
- `Number.parseFloat` is floating point and is left open. `ParseRating` states only the absent/empty case.
- `Letterboxd.ParseRating`: states only that an absent or empty value gives no rating.
- `Number.parseInt` is modelled on unbounded integers. Precision loss beyond 2^53 and the value -0 are not modelled.
- `JSON.stringify` comparison is modelled as structural equality of records. Key order and how undefined fields serialise are not modelled.
- `localeCompare` is modelled as plain character-by-character lexicographic order, not locale collation.
- A stored `dateConsumed` that does not parse counts as time 0 in the date sort. The source's comparator returns NaN there, and the resulting order is implementation-defined.
- `Promise.all` is modelled as sequential with all-must-succeed. Both fetches always happen, and when both fail the Letterboxd error is reported.
- Store read errors other than a missing file, write failures, and the creation of the data directory are not modelled. The file contents are values; the path and `DATA_DIR` are not modelled.
- The network side of the deploy hook is not modelled: its response, the warning on a failed POST, and the warning when no hook is set.
- A deploy POST that rejects (a network error) is not modelled. In the source the rejection escapes `run` (src/deploy.ts:9, src/run.ts:42), and the process exits with status 1 (src/run.ts:45-48) after all three files were written. The model reports such a run as `Persisted`.
- `generatedAt` comes from the wall clock in the source and is a parameter here.
- The Letterboxd feed URL and `encodeURIComponent` are not modelled: the host's fetch records the username.
- The network fetch and the XML parsing are not modelled. A fetch is given as its HTTP status and the parsed `item` value.
- The in-place `sort` on a freshly built array is modelled as a function returning the sorted sequence. No other reference to the array exists.
- The `?? ""` default of `stableSortById` never applies, since every record has an id.
- Year and image extraction: no code sets `year` or `imageUrl`.
- src/api.ts (the read API) and reading the environment in src/config.ts are not part of this model. The settings are a `Config` value.
