# Record collection synchroniser

A Dafny model of `RecordService` in `src/lib/models/record.ts`. This is the part of the
record-collection web application that adds a release (identified by its Discogs id) to a
user's collection and removes it again. It keeps the shared catalog table `records`
consistent with the membership table `user_records`:

- the catalog has a row for a release exactly when some user holds that release;
- no user holds the same release twice.

The store is a pair of tables, each a sequence of rows in table order (`RecordService.Store`).
The row types follow `Record` and `UserRecord` in `src/lib/models/types/types.ts`
(`Rows.CatalogRecord`, `Rows.UserRecord`). Each of the service's methods is a pure function
from the store before to its outcome and the store after:

- `addRecordToCollection` is `RecordService.AddRecordToCollection`;
- `deleteRecordFromCollection` is `RecordService.DeleteRecordFromCollection`;
- `getUserRecords`, `getRecord` and `searchRecords` are read functions of the same name.

Store queries are modelled in `Tables`:

- a row filter (the `.eq` and `.in` equality filters, the `.ilike` pattern filter, and the
  complement of `.delete().eq()`) is `Tables.Filter`;
- `.single()` is `Tables.Single`. It yields a row only when exactly one row matched.

Because of `.single()`, the service's two existence checks are only right while the two keys
are unique. With a pair stored twice, the duplicate check sees no row and add inserts the pair
again (`CollectionLaws.RepeatedPairEscapesDuplicateCheck`). Both uniqueness facts are part of
the invariant `RecordService.Consistent`, and `CollectionLaws` proves that every add and every
remove keeps it.

Files:

- `tables.dfy`: filter and `.single()` semantics, with their lemmas.
- `rows.dfy`: the row types.
- `record_service.dfy`: the store, its views and invariants, and the operations.
- `collection_laws.dfy`: the properties of the operations.
- `scenarios.dfy`: request sequences starting from an empty store.

Notes on the code as written:

- Add inserts a missing catalog row *before* it checks for a duplicate membership. So a
  rejected add still creates the catalog row when the release had none. In a consistent store
  this cannot happen: a held release always has its row (`CollectionLaws.AddDuplicateRejected`
  proves the store is unchanged there).
- The inserted row always carries the supplied strings and year, never null. Empty values
  arrive as `''` and `0` from the caller.
- The service has no membership-existence query of its own. The record card decides "in
  collection" by searching the list of records it is given for one with the release's id.
  `CollectionLaws.ListedIffHeld` states that test on the assumption that this list is
  `getUserRecords` for the signed-in user. The page that loads the list and passes it to the
  card is not part of this model.

## Model

| member | source | states |
|---|---|---|
| RecordService.GetRecord | src/lib/models/record.ts:43-55 | a found row is in the catalog and carries the requested id, so a release the catalog lacks yields nothing; the converse, that a present release is found under a unique key, is `CollectionLaws.GetRecordFindsRow` |
| RecordService.FindMembership | src/lib/models/record.ts:127-132 | a found membership is in the table and is the requested (user, release) pair, so an unheld pair yields nothing; the converse, that a held pair is found under unique memberships, is `CollectionLaws.FindMembershipFindsPair` |
| RecordService.GetUserRecords | src/lib/models/record.ts:15-31 | the result holds exactly the catalog rows whose release the user holds, so it is empty when the user holds none |
| RecordService.SearchRecords | src/lib/models/record.ts:64-71 | the result holds exactly the catalog rows whose title contains the term |
| RecordService.AddRecordToCollection | src/lib/models/record.ts:91-148 | the outcome is success or the fixed duplicate message; afterwards the catalog has the release; existing rows of both tables are never rewritten; success adds exactly one row and the pair; a rejection means the pair was already held and memberships are unchanged |
| RecordService.DeleteRecordFromCollection | src/lib/models/record.ts:162-190 | always succeeds; afterwards the pair is not held; a membership survives iff it existed and is not the removed pair; a catalog row left for the release always has a membership referencing it |
| CollectionLaws.GetRecordFindsRow | src/lib/models/record.ts:43-51 | with a unique catalog key, `.single()` finds the row exactly when the catalog has the release |
| CollectionLaws.FindMembershipFindsPair | src/lib/models/record.ts:127-134 | with unique memberships, the duplicate check fires exactly when the user holds the release |
| CollectionLaws.AddNewIdInsertsRow | src/lib/models/record.ts:104-121 | for a release the catalog lacks, add appends one row, and a lookup of the release then finds a row whose title, artist, image URL, country, year, label and catalog number are exactly the supplied values |
| CollectionLaws.AddExistingIdKeepsRow | src/lib/models/record.ts:104-124 | for a release the catalog has, add leaves the catalog unchanged, so the first writer's metadata wins |
| CollectionLaws.AddDuplicateRejected | src/lib/models/record.ts:127-137 | a held pair is rejected with "Ya has añadido ese disco." and memberships are unchanged; in a consistent store nothing changes at all |
| CollectionLaws.AddFreshPairInserts | src/lib/models/record.ts:139-148 | an unheld pair succeeds: exactly one membership is appended, the pair set and the user's releases gain exactly that pair, and the catalog has the release |
| CollectionLaws.RepeatedPairEscapesDuplicateCheck | src/lib/models/record.ts:127-145 | in any store whose membership table holds a pair two or more times, memberships are not unique, and add of that pair succeeds and appends one more membership for it, because `.single()` matches no row |
| CollectionLaws.AddFreshPairExistingIdConsistent | src/lib/models/record.ts:104-148 | adding a fresh pair of a release the catalog has keeps the invariant |
| CollectionLaws.AddFreshPairNewIdConsistent | src/lib/models/record.ts:104-148 | adding a fresh pair of a release the catalog lacks keeps the invariant |
| CollectionLaws.AddPreservesConsistent | src/lib/models/record.ts:104-148 | add keeps both unique keys and "catalog row exists iff some membership references it" |
| CollectionLaws.AddTwiceRejectsSecond | src/lib/models/record.ts:104-148 | from a consistent store, a second add of the same pair is rejected with the duplicate message and changes nothing |
| CollectionLaws.RemoveDeletesOnlyPair | src/lib/models/record.ts:166-172 | remove succeeds; it deletes the pair's membership rows and keeps every other row in order; other users' releases are unchanged and the user loses only that release |
| CollectionLaws.RemoveCollectsOrphan | src/lib/models/record.ts:174-187 | the catalog row is deleted (and only it) exactly when no membership of the release remains; otherwise the catalog is unchanged |
| CollectionLaws.OtherHolderKeepsRow | src/lib/models/record.ts:174-187 | while another user holds the release, removing it leaves the catalog unchanged |
| CollectionLaws.RemoveKeepsOtherReferences | src/lib/models/record.ts:166-178 | remove can drop only the removed release from the set of referenced releases |
| CollectionLaws.RemoveIdempotent | src/lib/models/record.ts:166-190 | a second identical remove succeeds and leaves the store unchanged |
| CollectionLaws.RemovePreservesConsistent | src/lib/models/record.ts:166-190 | remove keeps both unique keys and "catalog row exists iff some membership references it" |
| CollectionLaws.RemoveUndoesFreshAdd | src/lib/models/record.ts:104-187 | in a consistent store, removing a pair right after adding it afresh restores the store exactly |
| CollectionLaws.GetUserRecordsListsHeld | src/lib/models/record.ts:15-31 | in a consistent store the user's list carries each held release exactly once and no other |
| CollectionLaws.ListedIffHeld | src/components/RecordCardTsx.tsx:17-19 | in a consistent store, the record card's "some listed row has this id" test holds iff the user holds the release |
| CollectionLaws.SearchEmptyTermListsAll | src/lib/models/record.ts:64-71 | an empty search term matches every title, so the whole catalog is listed |
| CollectionLaws.SearchNarrowsAsTermGrows | src/lib/models/record.ts:64-71 | for every catalog and terms, a row matching a term extended by more characters also matches the shorter term, so a longer term never lists more releases |
| CollectionLaws.SearchFindsByTitle | src/lib/models/record.ts:64-71 | every catalog row is listed when the search term is its whole title |
| CollectionLaws.RunPreservesConsistent | src/lib/models/record.ts:91-194 | any sequence of adds and removes from a consistent store ends in a consistent store |
| CollectionLaws.ReachableIsConsistent | src/lib/models/record.ts:91-194 | every store reached from the empty store by adds and removes is consistent |
| Scenarios.MoonSafariAddedTwice | src/lib/models/record.ts:127-148 | on an empty store the first add of (u1, 999) succeeds with one membership, and the second is rejected with the duplicate message and no change |
| Scenarios.LastHolderRemovalCollectsRow | src/lib/models/record.ts:174-187 | add then remove of release 123 by its only holder leaves both tables empty |
| Scenarios.FirstAddToEmptyStore | src/lib/models/record.ts:104-148 | the first add to an empty store succeeds and leaves exactly one catalog row, with the supplied metadata, and one membership |
| Scenarios.SecondHolderThenFirstLeaves | src/lib/models/record.ts:104-187 | when a second user adds a release one user holds and the first user removes it, the catalog row stays and only the second membership remains |
| Scenarios.OtherHolderRetainsRow | src/lib/models/record.ts:91-190 | for two distinct users starting from an empty store, after both add a release and the first removes it, the catalog keeps the first writer's row and only the second user's membership remains |

## Left out

- Store failures. The try/catch blocks that turn a thrown error into `{ success: false, error }`
  or an empty result, and the `(data, error)` pairs the query client returns, are not modelled
  (record.ts:32-34, 52-54, 149-152, 191-193). Every modelled query succeeds. So Add and Remove
  only ever return success or the duplicate message. The model also omits two failure paths:
  a failed remaining-membership query deletes the catalog row, and failed inserts are ignored.
- Logging (`src/pages/api/logger.ts`). It is console output and never affects control flow.
- `crypto.randomUUID()` and `new Date().toISOString()` become the parameters `rowId` and `now`.
  The catalog row's `created_at` is filled by the store at insert time. The model stamps it with
  the same `now`.
- Concurrent requests. The code takes no locks and uses no transactions, so interleaved
  adds and removes can race. The model serves requests one after another.
- RecordService.SearchRecords: matches the term as a plain, case-sensitive substring of the
  title. The store's `ilike` folds case and treats `%` and `_` inside the term as wildcards.
- Query result order. The store promises no order; the model returns rows in table order.
- Non-integer numbers. `discogs_id` and `year` are JavaScript numbers; the model uses unbounded
  integers. The endpoint converts them with `Number(...)`
  (`src/pages/api/records/[discogs_id]/index.ts:16`, `:21`, `:41`). So a non-numeric path segment
  yields a NaN id, and a fractional id or year passes through unchanged. None of these is in the
  model. With a NaN id, both `.single()` lookups find no row and add reports success. The
  membership insert (record.ts:140-145) then sends `discogs_id: NaN`, which JSON encodes as null.
- Nullable columns. `user_records.user_id`, `user_records.discogs_id` and `user_records.added_at`
  are nullable in the row type. The model makes all three required. For integer ids the service
  writes a value into each. A NaN id reaches `user_records.discogs_id` as null, which the model
  cannot represent (see the previous line).
- The HTTP endpoints, the authentication routes, the pages and the build configuration are not
  part of this model. Of the React components, only the record card's membership test
  (`src/components/RecordCardTsx.tsx:17-19`, `CollectionLaws.ListedIffHeld`) is modelled. The endpoint's coercion of missing fields to `''`
  and `0` happens before the service is called; `RecordService.Metadata` holds the coerced values.
