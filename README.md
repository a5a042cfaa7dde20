# Listing reconciliation of the Therese Plath real-estate feed server

This project models the reconciliation step of the feed server in Dafny. The
server reads property-listing feed files (REAXML documents) and keeps two
lists of listings: **Current**, the listings on the market, and **Sold**, the
few most recently sold ones. For every `residential` record of every feed,
`updateDB` (`index.js`) does this:

- it keeps only records whose listing agent is exactly `Therese Plath`;
- it drops every Current entry with the record's `uniqueID`;
- it then acts on the status. A `sold` record is appended to Sold. A `current`
  record is appended to Current. Any other status stops there, which means
  the listing is withdrawn;
- after a Sold append, if Sold has more than 3 entries, it takes the first
  entry with the smallest `modTime` (a stable ascending `sortBy`, then
  `take(1)`). It then removes every Sold entry that has that entry's id.

Files are handled one at a time, in sorted order of their names. The records
of each file are handled in document order. Every record sees the lists as
the earlier records left them.

The project has four modules:

- `Listings` (`listings.dfy`): the `Listing` record and JavaScript's order on
  strings (`LexLess`). It also has the two list operations the step uses:
  lookup by id (`HasId`) and lodash `remove({ uniqueID })` (`RemoveId`).
  `WithId` lists the entries of one id; lemmas use it to say what stays
  unchanged.
- `Reconciliation` (`reconciliation.dfy`): the pure model. It holds the agent
  filter (`InScope`), the status classification (`Classify`), the eviction
  (`OldestIndex`, `RetainSold`) and the per-record step (`Reconcile`). It also
  holds the fold of the step over one feed (`ReconcileAll`, `ApplyFeed`) and
  the properties of all of these.
- `Batch` (`batch.dfy`): feed files, the name sort of `files.sort()`
  (`SortByName`), the fold over files (`ApplyFiles`) and a whole run (`Run`).
- `Store` (`store.dfy`): the class `ListingStore`. Its fields `current` and
  `sold` are the two lists. Its methods update them in place, the way the
  source does. Each method is proved equal to the pure function for that step.

`modTime` values and file names are strings. They are compared
lexicographically by character, as JavaScript's `<` compares strings (lodash
`sortBy` and `Array.prototype.sort` both use that order).

The system's design asks for a stricter store than the code provides. Where
the two disagree, the model follows the code:

- The design asks that a Sold insertion replace any earlier Sold entry with
  the same id. The code only appends (`index.js:110-112`).
  `SoldCanHoldDuplicateIds` proves that Sold can then hold two entries with
  one id.
- The design asks that an id be in at most one of Current and Sold after a
  step. A `current` record never looks at Sold, so `IdCanBeInBothLists`
  proves the id can end up in both.
- The design asks that ties in `modTime` be broken by `uniqueID`. The code
  breaks them by list order, and so does the model (`FirstOldest`).
- The design asks that the eviction take one entry. The code removes every
  Sold entry with the evicted id, and that can include the record just
  inserted (`EvictionCanDropIncomingRecord`).
- The design asks that a record with an empty `uniqueID` be rejected. The code
  has no such check, and neither does the model.

## Model

| member | source | states |
|---|---|---|
| `Listings.LexLessTransitive` | index.js:119-122 | The string order used by `sortBy('$.modTime')` is transitive. |
| `Listings.LexLessTotal` | index.js:119-122 | Any two different strings are ordered one way or the other, so "oldest" is always defined. |
| `Listings.LexLessIrreflexive` | index.js:119-122 | No string sorts strictly before itself. |
| `Listings.RemoveId` | index.js:99-103 | Removing an id keeps exactly the entries with other ids. The result is shorter by the number of entries with that id. |
| `Listings.HasIdIsWithIdNonEmpty` | index.js:93-103 | `find({ uniqueID })` succeeds exactly when some entry has that id. |
| `Listings.RemoveIdAbsent` | index.js:99-103 | Removing an id that no entry has leaves the list unchanged, so the `inCurrentDB` guard makes no difference. |
| `Listings.RemoveIdRemovesAll` | index.js:99-103 | After removal, no entry has the removed id. |
| `Listings.RemoveIdKeepsOtherIds` | index.js:99-103 | For every other id, the entries with that id are the same and in the same order after a removal. |
| `Listings.RemoveIdAppend` | index.js:99-103 | Removal works entry by entry, so the order of the entries that stay is kept across ids. |
| `Reconciliation.InScope` | index.js:82-84 | The filter keeps exactly the records whose agent is `Therese Plath`. |
| `Reconciliation.InScopeAppend` | index.js:82-84 | The filter works record by record, so its result keeps document order. |
| `Reconciliation.InScopeAllTarget` | index.js:82-84 | A feed holding only the agent's records passes the filter whole. |
| `Reconciliation.Classify` | index.js:91-92 | The status class is sold exactly for `sold` and current exactly for `current`. Every other status means withdrawn. |
| `Reconciliation.OldestIndex` | index.js:119-122 | The entry `sortBy('$.modTime').take(1)` picks is an index inside the non-empty Sold. |
| `Reconciliation.OldestIndexIsFirstOldest` | index.js:119-122 | That entry has a minimal `modTime`, and every entry before it has a strictly later `modTime`. This is the first-among-ties choice of a stable ascending sort. |
| `Reconciliation.RetainSold` | index.js:114-127 | At or under the limit of 3, Sold is unchanged. Over it, Sold gets strictly shorter and has no entry that was not there before. |
| `Reconciliation.RetainSoldEvictsFirstOldest` | index.js:118-126 | Over the limit, the evicted id is that of the first oldest entry. Every entry with that id goes, and the entries of every other id stay unchanged and in order. |
| `Reconciliation.OlderArrivalIsEvicted` | index.js:110-126 | A sold record older than every entry of a full Sold is evicted by its own insertion. |
| `Reconciliation.ReconcileShape` | index.js:99-134 | After a step, Current is the old Current minus the record's id, with the record appended only for status `current`. Only a `sold` record changes Sold. |
| `Reconciliation.ReconcileCurrentEntries` | index.js:99-134 | After a step, the Current entries of every other id are unchanged. The record's own id is left with just the record for status `current`, and with nothing otherwise. |
| `Reconciliation.ReconcileCurrentHoldsRecordLast` | index.js:99-134 | After a step, Current has at most one entry with the record's id. It has exactly one, the record itself in last position, if and only if the status is `current`. |
| `Reconciliation.ReconcileRemoved` | index.js:91-107 | A record with any other status leaves its id out of Current and does not change Sold. No error is raised, even when the id was never known. |
| `Reconciliation.ReconcileSold` | index.js:109-127 | A `sold` record leaves its id out of Current and is appended to Sold before retention runs. Under the limit it simply stays. A Sold of at most 3 entries stays at most 3. |
| `Reconciliation.ReconcileCurrentIdempotent` | index.js:99-134 | Applying the same `current` record twice in a row gives the same two lists as applying it once. |
| `Reconciliation.SoldCanHoldDuplicateIds` | index.js:110-112 | Some state and `sold` record leave two Sold entries with one id: the insertion does not look for an earlier one. |
| `Reconciliation.IdCanBeInBothLists` | index.js:99-134 | Some state and `current` record leave the record's id in both Current and Sold. |
| `Reconciliation.EvictionCanDropIncomingRecord` | index.js:110-126 | Some full Sold evicts the `sold` record just inserted. |
| `Reconciliation.ReconcileAllAppend` | index.js:90-135 | The `forEach` is a left fold: applying `a + b` is applying `b` to the state that `a` left. |
| `Reconciliation.ApplyFeedSnoc` | index.js:82-135 | A record appended to a feed adds one step when it is the agent's, and nothing otherwise. |
| `Reconciliation.OtherAgentIgnored` | index.js:82-84 | A record of another agent changes neither list, wherever it is in the feed. |
| `Reconciliation.ReconcileAllKeepsSoldBound` | index.js:90-135 | If Sold starts with at most 3 entries, it has at most 3 after any sequence of records. |
| `Reconciliation.ThreeSoldFromEmpty` | index.js:109-118 | Three `sold` records into empty lists fill Sold in order, with no eviction. |
| `Reconciliation.StrictlyOldestHeadEvicted` | index.js:118-126 | Over the limit, a head entry that is strictly oldest and has an id of its own is the only entry evicted. |
| `Reconciliation.SoldArrivalEvictsOldestHead` | index.js:109-127 | A `sold` record arriving at a full Sold whose head is strictly oldest pushes that head out. The record goes at the end. |
| `Reconciliation.FourSoldKeepNewestThree` | index.js:90-135 | Four `sold` records into empty lists, the first strictly oldest, leave the other three in Sold. |
| `Batch.InsertByName` | index.js:194 | Inserting a file into a name-sorted list keeps it sorted and adds exactly that file. |
| `Batch.SortByName` | index.js:194 | `files.sort()` gives a name-sorted permutation of the directory's files. |
| `Batch.SortedByNameSameHead` | index.js:194 | Two name-sorted orders of the same files with unique names start with the same file. |
| `Batch.SortedByNameUnique` | index.js:194 | Two name-sorted orders of the same files with unique names are one order. |
| `Batch.RunIgnoresListingOrder` | index.js:188-201 | The outcome of a run does not depend on the order in which the directory lists its files. |
| `Batch.ApplyFilesAppend` | index.js:169-186 | Files are handled one after another: a later file sees what every earlier file did, evictions included. |
| `Batch.ApplyFilesIsOneFold` | index.js:169-186 | A run over several files is one fold of the per-record step over all their records, ordered by file and then by document. |
| `Batch.ApplyFilesKeepsSoldBound` | index.js:169-186 | If Sold starts with at most 3 entries, it has at most 3 after any number of files. |
| `Store.ListingStore.constructor` | index.js:8-9 | The store starts with the two lists as loaded. |
| `Store.ListingStore.ReconcileListing` | index.js:90-135 | The in-place update of both lists for one record equals the pure step `Reconcile`. It keeps Sold within 3 entries. |
| `Store.ListingStore.UpdateDB` | index.js:78-139 | Filtering one feed and then updating in place for each record equals `ApplyFeed` on the old lists. |
| `Store.ListingStore.ProcessFiles` | index.js:169-186 | Updating from the files one after another equals `ApplyFiles` on the old lists. |
| `Store.ListingStore.ProcessDirectory` | index.js:188-201 | An empty directory changes nothing. Otherwise its files go in name order, and the result equals `Run` on the old lists. |

## Left out

- Publishing (`pushToGit`, `index.js:26-54`) is left out: it writes files, serialises JSON and runs git pull, commit and push. All of that is I/O through a foreign library.
- Archiving (`moveToHistory`, `index.js:62-70`) and parsing (`xmlFileToJson`, `index.js:148-160`) are left out: they are a filesystem rename and the xml2js parser. The model starts from parsed records. A missing `residential` list (`|| []`, `index.js:80`) is an empty sequence.
- The promise plumbing of `main` and `processFiles` is left out (`readdir`, async chaining, `files.shift()` and recursion). That includes the missing rejection handling: a read, parse or shape failure stops the chain and skips the push. Only the sorted, strictly sequential order is kept.
- lowdb persistence and its `defaults` (`index.js:7-19`) are left out: the lists are in-memory state that starts as given sequences.
- The xml2js wrapper shape is left out (`listingAgent[0].name[0]`, `property.$.status`, the array-valued `uniqueID`). A record without an agent would throw in the filter. Lodash's partial deep match on array ids is also not modelled. Ids, statuses, agent names and `modTime` are plain strings compared by equality or by `LexLess`.
- `LexLess` compares Dafny characters, which are Unicode scalar values. JavaScript compares UTF-16 code units. The two orders differ only for characters outside the Basic Multilingual Plane. Lodash's special handling of `undefined`, `null` and `NaN` keys is also not modelled.
- The dead check `if (!properties)` (`index.js:86-88`) is left out, because after `filter` the value is always an array.
