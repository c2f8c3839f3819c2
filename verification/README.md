# City stats seeder, modelled in Dafny

A model of `scripts/seed_city_stats.js`, the one-off script that backfills the
`city_stats` Firestore collection. The script has two parts, and so does the
model:

- **Loading the names** (`loadCityNames`). The script finds the Dart list
  literal that starts with `const List<String> kCityNames = [` and ends at the
  first `];` at or after that marker. It collects the captured groups of the
  global regular expression `/'([^']+)'/g` in that text, trims each one, and
  drops the ones left empty. There are three errors: the marker is missing,
  the end is missing, or no name is left.
- **Seeding** (`seedCityStats`). The names are cut into batches of 400. For
  each batch, every name's document is read from the store as it stood
  before the batch. A document that already has a numeric `onlineCount` is
  skipped. Every other one gets `{ onlineCount: 0 }` merged into it, which
  creates it when missing. The batch's writes are committed together, and
  the script reports how many names were updated and how many were skipped.

Modules, one per concern:

| file | module | what it holds |
|---|---|---|
| `results.dfy` | `Results` | `Option` (for `indexOf`'s -1) and `Result` (for thrown errors) |
| `seqs.dfy` | `Seqs` | two facts about joining sequences |
| `text.dfy` | `Text` | `indexOf` with a start index; the whitespace set of `String.prototype.trim` and `trim` itself |
| `quoted_tokens.dfy` | `QuotedTokens` | the regular expression as an explicit scan, and a declarative description of leftmost non-overlapping matching |
| `city_names.dfy` | `CityNames` | `loadCityNames` and its three errors |
| `chunking.dfy` | `Chunking` | the `slice(i, i + 400)` batching |
| `seeder.dfy` | `Seeder` | the store as `map<string, map<string, Value>>`, one batch, the whole run, and the end-to-end script |

The file contents are a parameter of the loader. The collection is a map
from document id to fields. Each commit is a map update applied after all of
the batch's reads.

Properties proved about the model:

- The regular-expression scan is exactly the leftmost non-overlapping match
  sequence. `ScanIsLeftmost` proves one direction and `LeftmostUnique` the
  other.
- `LoadCityNamesSpec` describes the loader in terms of first occurrences
  and leftmost matches instead of `indexOf` and the scan. It still uses
  `Clean` for `map(trim).filter(Boolean)`, which `CleanMembers`,
  `CleanAppend` and `CleanNames` characterise.
- Batching is a partition: the batches join back to the list, each holds 1
  to 400 names, all but the last hold exactly 400, and there are
  ceil(n/400) of them.
- `updated + skipped` equals the number of names.
- Numeric counters are never overwritten. Merges keep every other field.
  Documents that are not listed are untouched. After a run, every listed
  name has a numeric counter.
- A second run changes nothing and reports every name as skipped.
- A run reports no update exactly when every name already had a counter.
- Updates never exceed the names listed without a counter, and equal them
  when no name is listed twice. Within a batch, a name without a counter is
  written, and counted, once for every time the batch lists it
  (`PendingRepeats`, `SeedChunkCountsRepeats`).

## Model

| member | source | states |
|---|---|---|
| `Text.IndexOf` | scripts/seed_city_stats.js:23-30 | the result is the leftmost occurrence at or after the start index, and it is absent exactly when the pattern does not occur from there on |
| `Text.IndexOfFindsFirst` | scripts/seed_city_stats.js:23-27 | whenever a first occurrence exists, `indexOf` returns it |
| `Text.Trim` | scripts/seed_city_stats.js:33 | the result is empty for an all-whitespace string, otherwise the slice left after cutting the whitespace prefix and suffix; neither end is whitespace; its characters come from the input |
| `Text.IsWhitespace` | scripts/seed_city_stats.js:33 | the characters `trim` removes: the ECMAScript white-space and line-terminator characters |
| `Text.TrimOfUnique` | scripts/seed_city_stats.js:33 | the trimming description admits only one result |
| `Text.TrimIdempotent` | scripts/seed_city_stats.js:33 | a trimmed string is its own trim, so trimming twice equals trimming once |
| `QuotedTokens.LeftmostAreMatches` | scripts/seed_city_stats.js:32 | every span in a leftmost-match list is a match at or after the index the search started from |
| `QuotedTokens.MatchUnique` | scripts/seed_city_stats.js:32 | a match of `'([^']+)'` is determined by its opening quote |
| `QuotedTokens.MatchEnd` | scripts/seed_city_stats.js:32 | a closing index is found exactly when some match begins at the index, and it closes such a match |
| `QuotedTokens.Scan` | scripts/seed_city_stats.js:32 | every reported span is a match that opens at or after the start index |
| `QuotedTokens.ScanIsLeftmost` | scripts/seed_city_stats.js:32 | each reported match is the leftmost one at or after the end of the previous match, and no match is left after the last |
| `QuotedTokens.LeftmostDeterministic` | scripts/seed_city_stats.js:32 | two lists of spans that both fit the leftmost-match description from the same index are equal |
| `QuotedTokens.LeftmostUnique` | scripts/seed_city_stats.js:32 | any list of spans that fits the leftmost-match description equals the scan's result |
| `QuotedTokens.MatchEndFinds` | scripts/seed_city_stats.js:32 | the closing-quote search finds the closing quote of any match that begins at the index |
| `QuotedTokens.Group` | scripts/seed_city_stats.js:32-33 | the captured group `match[1]` is the text strictly between the quotes, non-empty and quote-free |
| `QuotedTokens.Captures` | scripts/seed_city_stats.js:32-33 | one group per match, in match order; each group is the text strictly between the quotes, non-empty and quote-free |
| `QuotedTokens.Tokens` | scripts/seed_city_stats.js:32-33 | every captured group is non-empty and contains no quote |
| `QuotedTokens.EmptyLiteralShiftsPairing` | scripts/seed_city_stats.js:32 | in `'', 'B'` the empty literal does not match, the second quote pairs with the next opening quote, and the only group is `, ` |
| `CityNames.Message` | scripts/seed_city_stats.js:24-36 | the message thrown for each of the three errors (lines 25, 29 and 35) |
| `CityNames.MessagesDistinct` | scripts/seed_city_stats.js:24-36 | two errors carry the same message exactly when they are the same error |
| `CityNames.Clean` | scripts/seed_city_stats.js:33 | at most one name per token |
| `CityNames.CleanNames` | scripts/seed_city_stats.js:33 | every name left is non-empty with no whitespace at either end, and quote-free tokens give quote-free names |
| `CityNames.CleanAppend` | scripts/seed_city_stats.js:33 | trimming and filtering work token by token, so the tokens' order is kept |
| `CityNames.CleanMembers` | scripts/seed_city_stats.js:33 | a string is among the names exactly when it is the non-empty trim of some token |
| `CityNames.CleanKeepsNames` | scripts/seed_city_stats.js:33 | tokens that are already clean names come through unchanged, repeats included |
| `CityNames.LoadCityNames` | scripts/seed_city_stats.js:20-38 | "list not found" exactly when the marker is absent; "list end not found" exactly when no `];` occurs at or after the first marker, whatever precedes it; on success a non-empty list of non-empty, quote-free, trimmed names |
| `CityNames.LoadCityNamesSpec` | scripts/seed_city_stats.js:23-37 | the loader's result equals the trimmed, non-empty groups of the leftmost matches between the first marker and the first `];` after it, or "no city names parsed" when none is left |
| `Chunking.Chunks` | scripts/seed_city_stats.js:46-47 | each batch holds 1 to 400 names, and all but the last hold exactly 400 |
| `Chunking.ChunksJoin` | scripts/seed_city_stats.js:46-47 | the batches join back to the list: nothing is lost, repeated or reordered |
| `Chunking.ChunkCount` | scripts/seed_city_stats.js:46 | there are ceil(n/400) batches, one per turn of the loop |
| `Chunking.OffsetIsProduct` | scripts/seed_city_stats.js:46 | the loop's `i` on its k-th turn is 400k |
| `Chunking.ChunkIsSlice` | scripts/seed_city_stats.js:46-47 | batch k is the list's slice from the k-th loop index (400k) to 400 further on, cut at the end of the list |
| `Chunking.ChunksOf801` | scripts/seed_city_stats.js:46-47 | 801 names make three batches of 400, 400 and 1 |
| `Seeder.HasCount` | scripts/seed_city_stats.js:56 | the skip test: the document exists and its counter is a number |
| `Seeder.MergedDoc` | scripts/seed_city_stats.js:61-65 | after the merge the counter is 0, the document has exactly its former fields plus the counter, and those fields keep their values |
| `Seeder.SeededDoc` | scripts/seed_city_stats.js:55-66 | what a run makes of a document always has a numeric counter; a document that had one is kept as it is, any other is merged |
| `Seeder.MergeCount` | scripts/seed_city_stats.js:61-65 | a merge write creates or updates only its own document |
| `Seeder.MergeTwice` | scripts/seed_city_stats.js:61-69 | merging the counter into a document twice equals merging it once |
| `Seeder.Pending` | scripts/seed_city_stats.js:48-67 | a batch stages at most one write per listed name |
| `Seeder.PendingMembers` | scripts/seed_city_stats.js:48-67 | a name gets a write exactly when it is in the batch and lacks a numeric counter in the store as read before the batch |
| `Seeder.PendingNone` | scripts/seed_city_stats.js:48-67 | a batch stages no write exactly when every name in it has a numeric counter |
| `Seeder.PendingAppend` | scripts/seed_city_stats.js:48-67 | staging goes name by name, so the writes for a joined list are those of its parts, in order |
| `Seeder.PendingAgree` | scripts/seed_city_stats.js:48-67 | the staged writes depend only on which listed names have a numeric counter |
| `Seeder.PendingMonotone` | scripts/seed_city_stats.js:48-67 | a store in which more listed names have a numeric counter stages no more writes |
| `Seeder.ApplyWrites` | scripts/seed_city_stats.js:69 | after the commit every written document is merged, every other document is unchanged, and no other document appears |
| `Seeder.SeedChunk` | scripts/seed_city_stats.js:47-69 | for one batch: updated is the number of staged writes, one per listing without a numeric counter; updated plus skipped is the batch size; listed documents end as the run defines, and all others are untouched |
| `Seeder.SeedChunkKeepsTarget` | scripts/seed_city_stats.js:46-70 | a batch never changes what a later batch makes of any document |
| `Seeder.SeedChunks` | scripts/seed_city_stats.js:46-70 | over all batches: the counters add up to the number of names, listed documents end as the run defines, and unlisted ones are untouched |
| `Seeder.Seed` | scripts/seed_city_stats.js:40-70 | the counters add up to the number of names; every listed name ends with a numeric counter; existing counters are kept; other fields survive the merge; unlisted documents are untouched |
| `Seeder.SeedChunksNoop` | scripts/seed_city_stats.js:56-59 | batches whose names all have numeric counters leave the store as it is and skip every name |
| `Seeder.SeedIdempotent` | scripts/seed_city_stats.js:56-66 | a second run on the result leaves the store unchanged and reports zero updates and every name skipped |
| `Seeder.SeedChunksUpdates` | scripts/seed_city_stats.js:56-66 | a listed name without a numeric counter at the start makes some update happen |
| `Seeder.SeedUpdatesNothingIff` | scripts/seed_city_stats.js:56-66 | zero updates are reported exactly when every listed name already had a numeric counter |
| `Seeder.SeedChunksUpdateBound` | scripts/seed_city_stats.js:48-66 | the updates are at most the listed names lacking a numeric counter at the start, because later batches see earlier writes |
| `Seeder.SeedChunksUpdateDistinct` | scripts/seed_city_stats.js:48-66 | with no name listed twice, the updates are exactly the listed names lacking a numeric counter at the start |
| `Seeder.SeedUpdateCount` | scripts/seed_city_stats.js:43-66 | both of the above for the whole run |
| `Seeder.PendingRepeats` | scripts/seed_city_stats.js:48-67 | a name is staged once for every listing when it lacks a numeric counter before the batch, and never otherwise |
| `Seeder.SeedChunkCountsRepeats` | scripts/seed_city_stats.js:53-66 | a name lacking a numeric counter adds at least one update per listing in the batch |
| `Seeder.DuplicateInChunkCountedTwice` | scripts/seed_city_stats.js:48-66 | a missing name listed twice in one batch is read as missing both times and counted as two updates |
| `Seeder.SeedCityStats` | scripts/seed_city_stats.js:40-75 | a loading error is the run's error, with no write; otherwise the result is the seeding run over the loaded names: the counters add up to the positive number of names, every listed document ends as the run defines (existing numeric counters kept, others merged with their fields preserved), and unlisted documents are untouched |

## Left out

- The `serviceAccount.json` check, `require` and Firebase initialisation (lines 6-18): filesystem and credential I/O.
- Reading `lib/app_data.dart` (lines 21-22): the file contents are a parameter of `CityNames.LoadCityNames`.
- The Firestore client calls (`collection`, `doc().get()`, `batch`, `commit`): they become map reads and updates. The concurrent reads of `Promise.all` are modelled only by their effect, which is that every read of a batch sees the store as it was before that batch.
- Failed reads and commits, network errors, and what a failure halfway through leaves behind: remote behaviour that the code does not show. A modelled run either fails while loading, before any write, or completes.
- Console output and exit codes (lines 72-82).
- Firestore's rules for document ids (no `/`, not `.` or `..`): names are treated as opaque keys.
- Seeder.Value: numbers are integers. Firestore doubles and NaN are not represented, because only `typeof ... === 'number'` matters to the script.
- Text.IndexOf: a start index past the end of the text is not clamped as JavaScript does. This differs only for an empty pattern, and both call sites start inside the text.
- Text.IsWhitespace: strings are sequences of Unicode scalar values, not UTF-16 code units. Every whitespace character lies in the Basic Multilingual Plane, so trimming gives the same text.
