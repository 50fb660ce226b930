# Quote store of the quote-generator page

A verified Dafny model of the quote store inside `dom-manipulation/script.js`:
the global list of quotes `{id, text, category}` and the operations the page
performs on it.

- **Add** (`addQuote`): both form fields are trimmed (JavaScript `trim`); an
  empty field rejects the quote with nothing changed, otherwise one record with
  the trimmed fields and a fresh id is appended and the list is saved.
- **Remove** (`removeQuote`): keeps every record whose id differs.
- **Category pool** (`showRandomQuote`): the records whose lower-cased category
  equals the lower-cased target, or every record when no category is given.
- **Category list** (`populateCategories`, `displayCategories`): the distinct
  categories, sorted.
- **Sync** (`syncQuotes`): the server-wins merge. Starting from a copy of the
  local list, each remote record is looked up by id (first match, over the
  growing merged list). A record with an unknown id is appended. A record whose
  text differs replaces the whole matched record and counts a conflict. A record
  with equal text changes nothing. An empty or non-array remote list returns
  before any merge or save. The status is three-way: conflicts, updated, or unchanged.
- **Import**: the live import is `_importFromJsonFile_impl`. The later
  declaration of `importFromJsonFile` (line 389) is hoisted over the earlier
  one and forwards to it. A non-array file is rejected. Entries whose `text`
  and `category` are strings are kept, in file order. A falsy `id` is replaced
  by a fresh one. The kept entries are appended and the list is saved. The
  earlier `importFromJsonFile` (lines 233-271) is modelled too: it differs only
  by rejecting a file with no valid entry.

Modules:
- `Text` (`text.dfy`): `trim`, ASCII lower-casing, and the string order used by `sort`.
- `Seqs` (`seqs.dfy`): `filter` and sub-sequences.
- `Quotes` (`quotes.dfy`): the record, lookup by id, remove, pool, categories.
- `ServerMerge` (`merge.dfy`): the merge loop as a specification (`Step`, `Run`, `Merge`) and its lemmas.
- `JsonImport` (`json_import.dfy`): parsed import entries, validation, id normalisation, the export view.
- `Store` (`store.dfy`): class `QuoteStore` with the mutable `quotes` list and a ghost `persisted` copy written by every save.

Inputs the page takes from outside are parameters. Form fields are
`Option<string>`, where `None` is a missing input element. The fetched server
list is a `Remote` value. The parsed import file is an `ImportFile` value. The
ids that `Date.now()` or `Date.now() + random` would produce are passed in.

Three points of the code that the model follows exactly:
- `removeQuote` drops every record with the id, so duplicates of an id all go.
- The merge replaces the whole matched record with the remote one. The ids are equal, so `text` and `category` are what change.
- The merge keeps no count of additions, only the `updated` flag. The additions are exposed in the lemmas as `NewIds`, the new remote ids in first-occurrence order.

## Model

| member | source | states |
|---|---|---|
| `Quotes.Seed` | dom-manipulation/script.js:15-19 | the built-in list has three records with distinct ids |
| `Store.QuoteStore.constructor` | dom-manipulation/script.js:15-19 | the list starts as the stored list if there is one, else the seed |
| `Store.QuoteStore.Save` | dom-manipulation/script.js:49-51 | saving copies the whole list into the persisted slot and changes nothing else |
| `Text.TrimStart` | dom-manipulation/script.js:190-191 | the result is a suffix of the input, only whitespace was dropped, and it starts with a non-whitespace character |
| `Text.TrimEnd` | dom-manipulation/script.js:190-191 | the result is a prefix of the input, only whitespace was dropped, and it ends with a non-whitespace character |
| `Text.IsWhitespace` | dom-manipulation/script.js:190-191 | the characters `trim` drops (JavaScript WhiteSpace and LineTerminator); a definition, used by the contracts of `TrimStart`, `TrimEnd` and `Trim` |
| `Text.Trim` | dom-manipulation/script.js:190-191 | the result is the input with only whitespace removed before and after it (`PaddedAt`); it is empty exactly when the input is all whitespace, and otherwise starts and ends with non-whitespace |
| `Text.TrimIdempotent` | dom-manipulation/script.js:190-191 | trimming twice is trimming once |
| `Store.FieldValue` | dom-manipulation/script.js:190-191 | a field reads as empty iff it is missing or all whitespace; otherwise it reads as its trimmed value |
| `Store.QuoteStore.Add` | dom-manipulation/script.js:190-199 | returns true iff both trimmed fields are non-empty; on false nothing changes; on true exactly one record (fresh id, trimmed fields) is appended to the old list and the list is saved |
| `Quotes.IdsOfMembers` | dom-manipulation/script.js:320 | an id is in the id sequence iff some record carries it |
| `Quotes.IndexOfId` | dom-manipulation/script.js:320 | `findIndex` by id: -1 iff no record carries the id, else the first position carrying it |
| `Quotes.IndexOfIdSameIds` | dom-manipulation/script.js:320 | the lookup depends only on the ids of the list |
| `Quotes.FindIndex` | dom-manipulation/script.js:320 | the search loop returns the first matching position or -1 |
| `Quotes.RemoveById` | dom-manipulation/script.js:92 | no remaining record has the id, and every other record keeps its multiplicity |
| `Quotes.RemoveKeepsOrder` | dom-manipulation/script.js:92 | the remaining records are a sub-sequence of the list, in their order |
| `Quotes.RemoveAppend` | dom-manipulation/script.js:92 | removal acts on each part of a concatenation separately |
| `Quotes.RemoveAbsent` | dom-manipulation/script.js:92 | removing an id no record carries changes nothing |
| `Quotes.RemoveIdempotent` | dom-manipulation/script.js:92 | removing the same id twice is removing it once |
| `Quotes.RemoveUndoesAppend` | dom-manipulation/script.js:92 | removing the id of a record appended under an unused id restores the previous list |
| `Store.QuoteStore.Remove` | dom-manipulation/script.js:91-93 | the list becomes the filtered list and is saved |
| `Store.AddThenRemove` | dom-manipulation/script.js:186-199 | a caller adding under an unused id and then removing that id gets the original list back, whether or not the add was accepted |
| `Seqs.Filter` | dom-manipulation/script.js:122-124 | `filter` keeps exactly the elements passing the test, with their multiplicities |
| `Seqs.FilterAppend` | dom-manipulation/script.js:92 | `filter` distributes over concatenation |
| `Seqs.FilterKeepsAll` | dom-manipulation/script.js:421 | when every element passes, `filter` is the identity |
| `Seqs.FilterIdempotent` | dom-manipulation/script.js:92 | filtering twice by one test is filtering once |
| `Seqs.FilterIsSubsequence` | dom-manipulation/script.js:122-124 | the result of `filter` is a sub-sequence of its input |
| `Seqs.FilterAgreeing` | dom-manipulation/script.js:123 | two tests that agree on every element give the same result |
| `Quotes.SameCategory` | dom-manipulation/script.js:123 | the case-insensitive category comparison; a definition, specified through `Pool`'s contract and `PoolIgnoresCase` |
| `Quotes.Pool` | dom-manipulation/script.js:122-124 | with no or an empty category the pool is the whole list; otherwise a record is in it iff its lower-cased category equals the lower-cased target, with its multiplicity |
| `Quotes.PoolKeepsOrder` | dom-manipulation/script.js:122-124 | the pool is a sub-sequence of the list |
| `Quotes.PoolIgnoresCase` | dom-manipulation/script.js:123 | filtering by a category and by its lower-cased form give the same pool |
| `Quotes.PoolOfListedCategory` | dom-manipulation/script.js:122-126 | the pool of a listed category is never empty, the empty category included |
| `Text.Lower` | dom-manipulation/script.js:123 | lower-casing keeps the length and leaves no upper-case ASCII letter |
| `Text.LowerIdempotent` | dom-manipulation/script.js:123 | lower-casing twice is lower-casing once |
| `Text.LexLess` | dom-manipulation/script.js:139 | the string order of `sort`; a definition, proved a strict total order by the four lemmas below |
| `Text.LexIrreflexive` | dom-manipulation/script.js:139 | the sort order is irreflexive |
| `Text.LexAsymmetric` | dom-manipulation/script.js:139 | the sort order is asymmetric |
| `Text.LexTransitive` | dom-manipulation/script.js:139 | the sort order is transitive |
| `Text.LexTotal` | dom-manipulation/script.js:139 | any two different strings are ordered one way or the other |
| `Quotes.InsertSorted` | dom-manipulation/script.js:139 | adding a string to a strictly sorted sequence keeps it strictly sorted and adds exactly that string |
| `Quotes.Categories` | dom-manipulation/script.js:139 | the category list is strictly sorted, and a string is in it iff some quote has that category |
| `Quotes.CategoriesDistinct` | dom-manipulation/script.js:156 | no category appears twice |
| `Quotes.SortedUnique` | dom-manipulation/script.js:139 | two strictly sorted sequences with the same elements are equal, so the list is the one `Set` plus `sort` produce |
| `Quotes.CategoriesOfPermutation` | dom-manipulation/script.js:156 | the category list does not depend on the order of the records |
| `ServerMerge.Start` | dom-manipulation/script.js:315-317 | the loop's starting state: a copy of the local list, no conflict, not updated; a definition, used by `Merge` and `MergeOne` |
| `ServerMerge.Step` | dom-manipulation/script.js:320-329 | one iteration of the loop body; a definition, specified by `StepIds`, `StepFrame`, `StepHit` and `MergeOne` |
| `ServerMerge.Run` | dom-manipulation/script.js:319-330 | the `forEach` over the remote records in order; a definition, specified by the `Run…` lemmas |
| `ServerMerge.Merge` | dom-manipulation/script.js:315-330 | the whole merge from a local list; a definition, specified by the `Merge…` lemmas and tied to the loop by `Store.QuoteStore.Sync` |
| `ServerMerge.Report` | dom-manipulation/script.js:339-348 | the three-way status; a definition, specified by `MergeReport` |
| `ServerMerge.NewIds` | dom-manipulation/script.js:321-323 | the ids the merge appends: distinct, not already known, and exactly the remote ids not known |
| `ServerMerge.StepIds` | dom-manipulation/script.js:320-329 | one step leaves the ids unchanged or appends the remote id |
| `ServerMerge.StepFrame` | dom-manipulation/script.js:320-329 | a step leaves the first record of every other id where it was and unchanged |
| `ServerMerge.StepHit` | dom-manipulation/script.js:320-329 | after a step the first record with the remote id has the remote text |
| `ServerMerge.StepKeepsAgrees` | dom-manipulation/script.js:320-329 | a step for another id keeps the list agreeing with a record it agreed with |
| `ServerMerge.UntouchedStep` | dom-manipulation/script.js:320-329 | a step leaves alone a position that is not the first with the remote id |
| `ServerMerge.RunAppend` | dom-manipulation/script.js:319-330 | the loop over two lists in sequence is the loop over their concatenation |
| `ServerMerge.RunMergedOnly` | dom-manipulation/script.js:319-330 | the merged list of a loop depends only on the list it starts from, not on the counters |
| `ServerMerge.RunIds` | dom-manipulation/script.js:317-323 | after the loop the ids are the old ids followed by the new remote ids |
| `ServerMerge.RunProvenance` | dom-manipulation/script.js:317-329 | every merged record is a remote record or the local record left at its position |
| `ServerMerge.RunCounts` | dom-manipulation/script.js:315-329 | conflicts never decrease; conflicts plus additions are at most the number of remote records; `updated` is set iff there was an addition or a conflict |
| `ServerMerge.RunUnchanged` | dom-manipulation/script.js:316-329 | a loop that never sets `updated` leaves the list as it was |
| `ServerMerge.RunLastWins` | dom-manipulation/script.js:320-329 | the first record carrying a remote id ends with the text of the last remote record with that id |
| `ServerMerge.RunUntouched` | dom-manipulation/script.js:320-329 | a local record changes only if it is the first with its id and some remote record carries that id |
| `ServerMerge.RunAgreeing` | dom-manipulation/script.js:324 | remote records whose text already matches the list by id change nothing |
| `ServerMerge.MergeShape` | dom-manipulation/script.js:317-323 | merged length = local length + number of additions; local records keep their position and id; appended records are remote records, in order of first remote occurrence |
| `ServerMerge.MergeReport` | dom-manipulation/script.js:339-348 | "unchanged" iff the list, counts and flag are untouched iff no addition and no conflict; "updated" means the list grew; "resolved" carries the conflict count |
| `ServerMerge.MergeServerWins` | dom-manipulation/script.js:320-329 | server wins on every remote id; a local record whose id no remote record carries is untouched |
| `ServerMerge.MergeResyncIsNoop` | dom-manipulation/script.js:319-330 | merging the same server records (distinct ids) a second time changes nothing and reports nothing |
| `ServerMerge.MergeOne` | dom-manipulation/script.js:320-329 | one remote record: a new id is appended; a different text replaces the whole record at the match, category included, with one conflict; an equal text changes nothing even if the category differs |
| `ServerMerge.MergeTwice` | dom-manipulation/script.js:315-330 | two sync cycles in a row leave the same list as one cycle over both server answers concatenated |
| `ServerMerge.MergeExample` | dom-manipulation/script.js:324-327 | local `{1,A,X}` merged with remote `{1,B,Y}` gives `{1,B,Y}`, one conflict |
| `Store.QuoteStore.Sync` | dom-manipulation/script.js:307-348 | an empty or non-array remote list changes nothing and saves nothing; otherwise the list becomes the merge result, is saved, and the status is the reported outcome |
| `JsonImport.IsValid` | dom-manipulation/script.js:421 | the import's validity test; a definition, used by `ValidEntries` |
| `JsonImport.HasTruthyId` | dom-manipulation/script.js:422 | `it.id` is truthy; a definition, used by `Normalize` and `Export` |
| `JsonImport.ToQuote` | dom-manipulation/script.js:422 | the record pushed for one valid entry; a definition, specified through `AppendEntries` and the round-trip lemmas |
| `JsonImport.ValidEntries` | dom-manipulation/script.js:421 | the kept entries are exactly the entries with string `text` and `category`, each with its multiplicity in the file |
| `JsonImport.ValidEntriesAll` | dom-manipulation/script.js:421 | a file whose entries are all valid keeps them all |
| `JsonImport.ValidEntriesKeepOrder` | dom-manipulation/script.js:421 | kept entries are in file order |
| `JsonImport.Export` | dom-manipulation/script.js:219 | every exported entry passes the import's validity test, so validation keeps them all; an exported id counts as present exactly when it is not 0 |
| `JsonImport.ExportImportRoundTrip` | dom-manipulation/script.js:419-422 | importing an export gives every record back in order with its text and category; its id unless it was 0 |
| `JsonImport.ExportImportIdentity` | dom-manipulation/script.js:419-422 | with no zero id, importing an export gives back exactly the list |
| `JsonImport.ReimportIsStable` | dom-manipulation/script.js:419-422 | when the first import drew non-zero fresh ids, exporting and importing its records again gives them back unchanged, whatever fresh ids the second import has |
| `Store.QuoteStore.AppendEntries` | dom-manipulation/script.js:422 | the loop appends the normalised entries, in order, to the old list |
| `Store.QuoteStore.Import` | dom-manipulation/script.js:414-429 | no file, a parse error or a non-array changes nothing; otherwise the old list followed by the normalised valid entries is saved, even when none is valid |
| `Store.QuoteStore.ImportRequiringValid` | dom-manipulation/script.js:233-271 | as `Import`, but a file with no valid entry is rejected with nothing changed |

## Left out

- DOM building, event wiring, alerts, the status text and colour, and the list-adder exercise are UI. The status and alerts are modelled only as the returned `SyncStatus` and `ImportOutcome` values.
- `localStorage` and `sessionStorage` are storage I/O: `saveQuotes` is the ghost field `persisted`. `loadQuotes`, the last category and the last viewed quote are not modelled.
- `fetch` in `fetchQuotesFromServer` and `postQuoteToServer`, and the `setInterval` timer, are network and timer I/O. The remote list is an input. The mapping of server posts to `{id, text: title, category: 'Server'}` is not modelled.
- The guard at the top of `syncQuotes` that returns when the status element is missing from the page is not modelled; `Sync` assumes the element exists.
- Overlapping sync cycles are not modelled: each `Sync` call runs as one step, so the unguarded interleaving of two cycles is a concurrency issue outside this model.
- `JSON.parse`, `JSON.stringify`, `FileReader`, `Blob` and the download are library calls. The parsed file is an input, and `Export` is only the JSON value that gets written.
- The random choice of a quote from the pool uses `Math.random`. Generating ids from `Date.now()` plus a random number is nondeterministic. Both are left out; fresh ids are parameters.
- The hoisting wrappers at lines 388-389 are not modelled; only their effect is, namely which import body runs.
- Text.Lower: lower-cases ASCII letters only, not the full Unicode mapping of `toLowerCase`.
- Text.LexLess: compares Unicode code points; `sort` compares UTF-16 code units, which differs only for characters outside the Basic Multilingual Plane.
- Text.Trim: covers JavaScript's whitespace and line-terminator characters as a fixed list; Dafny strings are sequences of Unicode scalar values, not UTF-16 code units.
- JsonImport.Normalize: ids are integers; a truthy non-integer id (a string, a fraction) that the import would keep is not representable, and falsy non-numbers are all `None`. Extra fields of imported objects are dropped.
- Ids are compared with `==` on integers, standing for `===` on numbers; mixed number and string ids are not modelled.
