# Palefò mock API — a Dafny model

Palefò is a Haitian Kreyòl language-learning platform. Its mock HTTP service
(`main.py`) serves four in-memory tables:

- the seed sentence table;
- the contribution table, the only table that changes: it grows on submission and is updated in place on moderation;
- the contributor leaderboard;
- the table of "AI" phrases.

This project models the request handlers over those tables as pure Dafny functions.

| module | what it models |
|---|---|
| `Results` | the two HTTP error classes (400 validation, 404 not found) as `ApiError`, with `Option` and `Result` |
| `Seqs` | list comprehensions with a condition (`Filter`), Python slicing (`Slice`), `min`/`max`, distinctness |
| `Text` | the Python string operations the handlers rely on: `str.split(sep)`, `sep.join`, `str.strip()`, `int()`, `str.lower()`, `str.split()` |
| `Sampling` | `random.sample` and `random.choice`, driven by an explicit stream of draws |
| `Sentences` | the seed sentences, the `excludeIds` parser and the three sentence queries |
| `Contributors` | the leaderboard table, `get_statistics` and `get_top_contributors` |
| `Contributions` | the contribution store: the seed records, submission with file validation, paginated listing, lookup, moderation and the store invariant under any request sequence |
| `Phrases` | the phrase table and `get_ai_generated_phrase` / `get_gemini_phrase` with their filters and fallback |

Randomness is a parameter. The `random.sample` and `random.choice` calls read
natural numbers from a `draws` sequence; a stream that runs out reads as
zeros. The lemma `Sampling.SampleReachable` shows that this loses nothing:
every sub-multiset of the pool, in every order, is produced by some draws.

The sentence queries take the sentence table as an argument. The service
always passes `Sentences.SeedSentences`.

The contribution store is a value (`seq<Contribution>`). Submission and
moderation return the new store along with the record they created or changed.

Two behaviours of the handlers a reader may not expect:
- The file-type check looks at the text after the last `.`, so a name with no dot at all (`mp3`) is accepted. A name ending in `.` is refused.
- `excludeIds` is a raw comma-separated string, not a set. An empty segment, as in `"1,,2"`, makes the whole request fail.

## Model

| member | source | states |
|---|---|---|
| `Sentences.SeedTableShape` | main.py:157-263 | the seed sentences are numbered 1..13 in order, each with a category, an audio URL and a difficulty in 1..5, so ids are unique |
| `Sentences.ParseSegment` | main.py:350 | one segment parses exactly when, stripped of surrounding whitespace, it is an integer literal |
| `Sentences.ParseSegments` | main.py:350-352 | a list comprehension over the segments whose first `ValueError` aborts it: a failure is always the 400 "invalid excludeIds" error, and a success yields one integer per segment |
| `Sentences.ParseSegmentsAccepts` | main.py:350-352 | the segment list is accepted exactly when every segment parses |
| `Sentences.ParseSegmentsValues` | main.py:350 | an accepted list holds, at each position, the value of the segment there |
| `Sentences.ParseSegmentsAll` | main.py:350 | segments that each parse to a given value yield exactly the list of those values |
| `Sentences.ShowIntSegment` | main.py:350 | the decimal spelling of any integer is a segment that parses back to it |
| `Sentences.IdPartsSegments` | main.py:350 | each spelled-out id of a list parses back to that id |
| `Sentences.ParseExcludeIds` | main.py:347-352 | an absent or empty `excludeIds` excludes nothing; otherwise it is accepted exactly when every comma-separated segment is an integer |
| `Sentences.PaddedSegment` | main.py:350 | an integer's decimal spelling with any whitespace before and after it parses back to that integer |
| `Sentences.PaddedIdsRoundTrip` | main.py:350-352 | any non-empty id list written with whitespace of the client's choice around each id, such as `1, 2`, is read back as the same list |
| `Sentences.SpelledSegment` | main.py:350 | a segment holding any spelling of a number (sign, leading zeros, surrounding whitespace) parses to that number: `" 007 "` reads as 7 |
| `Sentences.ExcludeIdsRoundTrip` | main.py:350 | any non-empty id list a client writes as `1,2,-3` is read back as the same list |
| `Sentences.EmptySegmentRejected` | main.py:350-352 | an empty segment (doubled or trailing comma) makes the request fail with "invalid excludeIds" |
| `Sentences.RandomSentences` | main.py:331-360 | fails exactly when `excludeIds` is malformed; otherwise returns `min(count, available)` of the sentences whose ids are not excluded, taken without replacement from them, so without repeats |
| `Sentences.ExcludedCount` | main.py:354 | on a table with unique ids, the available sentences number the table size minus the excluded ids that occur in it |
| `Sentences.RandomSentencesCount` | main.py:354-360 | on a table with unique ids, a successful query returns `min(count, N - k)` distinct sentences, where `k` counts the excluded ids that occur in the table |
| `Sentences.SentencesByCategory` | main.py:363-383 | returns `min(count, matches)` distinct sentences, all of that exact category; asking for at least all matches returns each match once, in some order |
| `Sentences.SentencesByCategorySimple` | main.py:386-398 | the simple-query endpoint answers exactly as the category endpoint |
| `Sentences.SentencesByDifficulty` | main.py:401-424 | returns `min(count, matches)` distinct sentences, all of that level; asking for at least all matches returns each match once |
| `Sentences.SampleMatching` | main.py:377-383 | filter-then-sample: empty when nothing matches, otherwise `min(count, matches)` of the matches taken without replacement (a sub-multiset of them), each match once when all are asked for |
| `Sentences.AbsentCategoryIsEmpty` | main.py:377-380 | on any table, a category that no sentence carries yields an empty list rather than an error |
| `Sentences.UnknownCategoryIsEmpty` | main.py:377-380 | an unknown category yields an empty list, not an error |
| `Sentences.AbsentLevelIsEmpty` | main.py:418-421 | on any table, a level that no sentence has yields an empty list rather than an error |
| `Sentences.LevelThreeIsEmpty` | main.py:418-421 | no seed sentence has difficulty 3, so that query returns an empty list |
| `Sampling.Sample` | main.py:360 | `random.sample(pool, k)` returns `k` elements drawn from the pool without replacement |
| `Sampling.SampleDistinct` | main.py:360 | a sample from a repeat-free pool has no repeats |
| `Sampling.SampleAllIsPermutation` | main.py:359-360 | a sample of the whole pool is a permutation of it |
| `Sampling.SampleStep` | main.py:360 | the first draw picks the first element of the sample; the rest is a sample of the remaining pool |
| `Sampling.SampleCons` | main.py:360 | a first draw that picks `r[0]`, followed by draws that pick the rest of `r` from the remaining pool, makes the sample `r` |
| `Sampling.SampleReachable` | main.py:360 | every selection without replacement, in every order, is the outcome of some draws |
| `Sampling.Choice` | main.py:710-712 | `random.choice` returns some element of the pool |
| `Seqs.Filter` | main.py:354 | a conditional list comprehension keeps exactly the elements that satisfy the condition, each as often as in the input |
| `Seqs.FilterCons` | main.py:354 | the comprehension over a non-empty list is the head, if kept, in front of the comprehension over the tail |
| `Seqs.FilterAppend` | main.py:539 | filtering distributes over appending a record to the table |
| `Seqs.FilterDistinct` | main.py:354 | filtering a repeat-free table gives a repeat-free list |
| `Seqs.Slice` | main.py:577 | Python slicing clamps both bounds to the list and yields the elements from the start index on |
| `Text.Split` | main.py:350 | `str.split(",")` yields at least one part and no part contains the separator |
| `Text.JoinSplit` | main.py:350 | joining the parts of a split with the separator gives back the string |
| `Text.SplitJoin` | main.py:350 | splitting a join of separator-free parts gives back the parts |
| `Text.LastSegmentUnique` | main.py:515 | `split(".")[-1]` is the unique separator-free suffix that is the whole string or follows a separator |
| `Text.LeadingSpaces` | main.py:350 | the length of the whitespace run at the front of a string: all whitespace, and followed by a non-whitespace character or the end |
| `Text.Strip` | main.py:350 | `str.strip()` is the infix that starts right after the leading whitespace, is followed only by whitespace, and is empty or has no whitespace at either end |
| `Text.StripAllSpace` | main.py:350 | a string of whitespace strips to the empty string |
| `Text.StripBetween` | main.py:350 | if positions `m` and `n - 1` hold the first and last non-whitespace characters, `strip()` is exactly the text between them |
| `Text.StripSurrounded` | main.py:350 | whitespace before and after a text with non-whitespace ends is removed, and nothing else |
| `Text.StripUnchanged` | main.py:350 | a string without whitespace at its ends is unchanged by `strip()` |
| `Text.ParseInt` | main.py:350 | `int()` accepts exactly an optional sign followed by at least one digit |
| `Text.ParseShowInt` | main.py:350 | `int(str(n)) == n` for every integer, up to the digit limit named under Left out |
| `Text.ParseSpelled` | main.py:350 | `int()` of a number spelled with or without a sign and with any number of leading zeros is that number: `"007"` is 7, `"+4"` is 4 |
| `Text.Lower` | main.py:515 | lower-casing keeps the length and maps each upper-case ASCII letter to its lower-case form |
| `Text.Words` | main.py:719 | `str.split()` yields only non-empty, whitespace-free words |
| `Text.WordsSkipSpaces` | main.py:719 | leading whitespace adds no words |
| `Text.WordsWordFirst` | main.py:719 | a word followed by whitespace or the end of the text is the first word |
| `Text.WordsSpaced` | main.py:719 | words separated by any non-empty whitespace, with any whitespace before and after, split back into exactly those words, so a run of blanks splits once |
| `Text.WordsUnwords` | main.py:719 | splitting a single-space join of words gives back the words |
| `Text.WordsCount` | main.py:719 | a string has at most as many words as characters, and no words exactly when it is all whitespace |
| `Text.WordsCoverText` | main.py:719 | the words of a string, concatenated, are its non-whitespace characters in order |
| `Contributors.AdjacentDecreasingPairwise` | main.py:281-292 | counts that drop from each row to the next drop between any two rows |
| `Contributors.RankedFromAdjacent` | main.py:281-292 | rows ranked 1, 2, 3, ... with non-negative counts that drop from row to row form a ranked leaderboard |
| `Contributors.SeedTableRanked` | main.py:281-292 | the leaderboard has ten rows with ranks 1..10 in order and strictly decreasing counts |
| `Contributors.TotalCountAppend` | main.py:445 | the contribution sum splits over a concatenation of tables |
| `Contributors.TotalCountBounds` | main.py:445 | with non-negative counts the sum is non-negative and at least every single count |
| `Contributors.TotalCount` | main.py:445 | the sum of the contribution counts is 0 on an empty table and non-negative when every count is |
| `Contributors.TotalCountSingle` | main.py:445 | the sum over a one-row table is that row's count |
| `Contributors.StatisticsOf` | main.py:445-446 | `totalContributions` is exactly the sum of the counts and `uniqueContributors` the table size; with non-negative counts the total is non-negative and bounds every contributor's count |
| `Contributors.SeedStatistics` | main.py:445-446 | the seed leaderboard reports 57700 contributions by 10 contributors |
| `Contributors.TopContributors` | main.py:461-478 | returns the first `min(limit, size)` rows; on a ranked table they carry ranks 1.. and every one has more contributions than any row left out |
| `Contributors.TopContributorsShare` | main.py:445-478 | the leaderboard's counts never add up to more than the platform total |
| `Contributors.TopThree` | main.py:478 | a limit of 3 returns exactly the three best-ranked seed contributors |
| `Contributions.SeedContributions` | main.py:265-279 | one seed record per sentence, numbered from 1, with the sentence's text and audio URL, the email `user{n}@example.com` for record `n`, a gender and region from the fixed lists, no reason or the fixed one, and the fixed timestamp |
| `Contributions.InitialStore` | main.py:265-279 | the start-up table has one record per seed sentence and is numbered 1, 2, 3, ... |
| `Contributions.ValidateAudioFilename` | main.py:509-520 | a missing or empty file name fails "audio file is required"; otherwise the name is accepted exactly when its lower-cased last dot segment, with a dot, is one of the four extensions, and that extension is returned; any other name fails "invalid file type"; both failures are status 400 |
| `Contributions.AudioFilenameAccepted` | main.py:514-516 | for a name written as a stem ending in a dot (or empty) plus a dot-free extension, acceptance holds exactly when the extension is mp3, wav, webm or m4a in any letter case |
| `Contributions.DottedExtension` | main.py:514-516 | the dotted whitelist contains exactly the four extensions |
| `Contributions.OggRefused` | main.py:515-520 | `clip.ogg` is refused as an invalid file type |
| `Contributions.UpperCaseAccepted` | main.py:515-516 | `clip.MP3` is accepted, with extension `mp3` |
| `Contributions.DotlessAccepted` | main.py:515-520 | a name without a dot is its own extension: it is accepted exactly when, lower-cased, it is one of the four extensions, which is then returned, and refused as an invalid file type otherwise |
| `Contributions.TrailingDotRefused` | main.py:515-520 | a name ending in a dot has an empty extension and is refused |
| `Contributions.Submit` | main.py:485-541 | succeeds exactly when the file name validates, failing with its error otherwise; on success it appends one pending record with id `count + 1`, the submitted fields, the audio URL built from the uuid and the extension and the two clock readings, and keeps the table numbered |
| `Contributions.SubmitThenGet` | main.py:523-539 | after a submission the new id finds the new record, and every earlier id finds what it found before |
| `Contributions.SubmitKeepsPublicListing` | main.py:531-568 | a new submission is pending, so the public listing is unchanged, while the full listing gains one item |
| `Contributions.FindIndex` | main.py:602 | `next(...)` finds the first record with the id, or reports that none has it |
| `Contributions.GetById` | main.py:588-607 | fails, with the not-found error and status 404, exactly when no record has the id; otherwise returns the first record with that id |
| `Contributions.GetByIdNumbered` | main.py:602-605 | in a table numbered from 1, id `n` is found exactly when `n <= size`, at position `n - 1` |
| `Contributions.SameIdsSameIndex` | main.py:602 | lookup depends only on the ids of the records |
| `Contributions.Moderate` | main.py:610-652 | fails with status 404 exactly when no record has the id; 400 exactly when the id exists and a rejection carries no reason; otherwise only the found record changes: approval set, reason kept on rejection and cleared on approval, update time set, so the record is pending, approved or rejected-with-reason, and numbering is kept |
| `Contributions.ModerateThenGet` | main.py:636-652 | after a moderation the moderated id finds the updated record, and every other id finds what it found before |
| `Contributions.RejectThenApprove` | main.py:641-649 | a rejection without a reason fails; a rejection with one stores it; a later approval clears it |
| `Contributions.Listed` | main.py:565-568 | the listing is never longer than the table and holds each record as often as the table does when it is approved or `includeUnapproved` is set, and never otherwise; its order is fixed by `FullListing`, `ListedAppend` and `ListedSingle` |
| `Contributions.FullListing` | main.py:565-568 | with `includeUnapproved` the listing is the table itself, in table order |
| `Contributions.ListedAppend` | main.py:565-568 | listing two tables one after the other lists the first, then the second: records keep their table order |
| `Contributions.ListedSingle` | main.py:565-568 | a one-record table lists its record exactly when it is approved or all records are asked for |
| `Contributions.AllApprovedListedAlike` | main.py:565-568 | when every record is approved, the public listing and the full listing coincide |
| `Contributions.ListedFromStore` | main.py:565-568 | every listed record is in the table, and without `includeUnapproved` every one is approved |
| `Contributions.PageStartProduct` | main.py:574 | the first record of page `page` is at index `(page - 1) * pageSize`, after `page - 1` full pages |
| `Contributions.CeilingDivision` | main.py:571 | `(n + d - 1) // d` is the least page count whose pages hold `n` items |
| `Contributions.PageCount` | main.py:571 | with that many pages the last page starts before the end of the records and the page after it would start at or past the end |
| `Contributions.PageBeyondEnd` | main.py:571-577 | a page starts past the last item exactly when its number exceeds the page count |
| `Contributions.Paginate` | main.py:570-585 | the result is the requested page of the list: `totalItems` counts the list; `totalPages` is just enough pages to hold it, the last starting before the end and the next at or past it; the page holds the items from the page's start index on, at most `pageSize` of them, and is empty exactly when the page number exceeds `totalPages` |
| `Contributions.PublicPageApproved` | main.py:565-577 | a page of the public listing shows only approved records of the table |
| `Contributions.PageItemsListed` | main.py:574-577 | a page shows only records of the list it pages through |
| `Contributions.ListContributions` | main.py:544-585 | the result is the requested page, in the sense of `Paginate`, of the listed records (the whole table, or its approved records in table order); with `includeUnapproved` it counts the whole table, without it every record shown is an approved record of the table; out-of-range pages are empty, not errors |
| `Contributions.PagePosition` | main.py:574-577 | index `i` lies at offset `i % d` of page `i // d + 1`, inside that page's window |
| `Contributions.PaginateItem` | main.py:574-577 | every item of a paged list appears on page `i // pageSize + 1` at position `i % pageSize` |
| `Contributions.PageOfItem` | main.py:574-577 | every listed record appears on page `i // pageSize + 1` at position `i % pageSize` |
| `Contributions.Apply` | main.py:485-652 | one request: a submission leaves the table alone or appends one record behind the unchanged table; a moderation keeps the size and every record with another id; no request changes any position's id |
| `Contributions.Run` | main.py:485-652 | requests applied one at a time: the table grows by at most one record per request and keeps the id at every existing position |
| `Contributions.RunInvariant` | main.py:485-652 | under any sequence of submissions and moderations the table stays numbered 1, 2, 3, ..., never shrinks, and records in the moderation life cycle stay in it |
| `Contributions.ServiceInvariant` | main.py:265-652 | from the start-up table, every reachable table has unique sequential ids and every submitted record is pending, approved without a reason or rejected with one |
| `Phrases.Render` | main.py:714-720 | the response copies the entry's phrase, translation, category and difficulty, and its word count is the number of words of the phrase: at most its length and zero exactly when it is all whitespace |
| `Phrases.Candidates` | main.py:690-706 | the three filters, each applied only when its parameter is truthy, keep exactly the phrases that satisfy every active filter |
| `Phrases.SelectEntry` | main.py:708-712 | the chosen phrase always comes from the table, and it satisfies the filters whenever some phrase does |
| `Phrases.SelectReachable` | main.py:708-712 | every phrase that satisfies the filters is chosen for some draw |
| `Phrases.GeneratePhrase` | main.py:668-720 | the response copies one table entry, which matches the filters whenever any entry does, and its word count is the number of whitespace-separated words of the phrase |
| `Phrases.GeminiPhrase` | main.py:723-745 | the Gemini endpoint answers exactly as the random-phrase endpoint |
| `Phrases.CategoryHonoured` | main.py:692-712 | asking for a category that some phrase carries always yields a phrase of that category |
| `Phrases.CategoryFallsBack` | main.py:692-710 | asking for a category no phrase carries falls back to a choice over the whole table, never an error |
| `Phrases.SeedPhraseCategories` | main.py:659-665 | the seed phrases include an `emotions` phrase and no `none-such` one |
| `Phrases.WordCountOfJoined` | main.py:719 | a phrase made of `n` words joined by single spaces has word count `n` |
| `Phrases.WordCountOfSpaced` | main.py:719 | words separated by any non-empty whitespace, with any whitespace around them, report their own number as word count |
| `Phrases.EducationPhraseWordCount` | main.py:661 | the education seed phrase reports four words |

## Left out

- HTTP plumbing is not modelled: FastAPI routing, CORS middleware, OpenAPI metadata, response serialisation. The `Query` and `Path` range constraints become `requires` clauses, because the framework answers 422 before a handler runs.
- `read_root` and `proxy_audio` are not modelled. They return constant or echoed data and touch no table.
- `totalAudioHours` is not modelled. It is a rounded float derived from the total, and the model has no floating point.
- The uuid, the clock readings and the random draws are inputs to the model, not computed by it.
- Text.ParseInt: accepts an optional sign and ASCII digits only, of any length. Python's `int()` also accepts underscores between digits and non-ASCII decimal digits. Since Python 3.11 (and the 3.10.7 and 3.9.14 releases) it raises `ValueError` on a decimal string of more than 4300 digits, so an `excludeIds` segment that long answers 400 in the service but is accepted by the model.
- Text.ParseShowInt: holds for every integer in the model. Under the same 4300-digit limit Python's `str(n)` raises for a longer number, so the round trip is only promised by Python below it.
- Text.Lower: lower-cases ASCII letters only. Python's `str.lower()` covers all of Unicode. The accept/refuse decision is unaffected, because no other character lower-cases into the letters and digits of the four extensions. The returned extension can differ for non-ASCII names that are refused anyway.
- A moderation request without a body is not modelled. The handler then dereferences `None` and answers 500.
- Concurrent requests are not modelled. Requests are applied one at a time (`Contributions.Run`), so the id race of `len(...) + 1` under concurrent submissions is outside the model.
- The text of a submission is not validated by the handler, nor does the model validate it.
- The sentence queries take the sentence table as an argument, and the seed facts are proved separately about `SeedSentences`.
- Sentences.RandomSentences: "no repeats" is stated under the hypothesis that the table has no repeated rows. The seed table has none (`Sentences.SeedTableShape`).
- Sentences.SentencesByCategory: the same hypothesis for "no repeats", discharged for the seed table by `Sentences.SeedTableShape`.
- Sentences.SentencesByDifficulty: the same hypothesis for "no repeats", discharged for the seed table by `Sentences.SeedTableShape`.
- Sampling.Sample: promises a sub-multiset of the right size, not uniformity. Probability is outside the model, and reachability of every outcome is proved instead (`Sampling.SampleReachable`).
- Phrases.EducationPhraseWordCount: only one seed phrase's word count is stated as a lemma. `Phrases.WordCountOfJoined` gives the count of any phrase written as single-space-joined words.
- Contributions.SeedContributions: its four random choices per record come from the draw stream. The lifecycle invariant is stated only for records added after start-up, because a seed record can be approved and still carry the fixed reason, a state no moderation produces. An unapproved seed record is pending or rejected with the fixed reason, both in the life cycle.
