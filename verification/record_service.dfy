/**
 The collection synchroniser: adding a release to a user's collection and
 removing it again while the shared catalog keeps exactly the releases some
 user holds, plus the read queries over the two tables. The store is a pair
 of tables; every operation is a pure function from the store before to its
 outcome and the store after.
 */
module RecordService {
  import opened Tables
  import opened Rows

  /** The message of the duplicate-add rejection. */
  const AlreadyAdded: string := "Ya has añadido ese disco."

  /** `{ success: true }` or `{ success: false, error }`. */
  datatype Outcome = Success | Failure(error: string)

  /** The two tables: the shared catalog and the memberships. */
  datatype Store = Store(records: seq<CatalogRecord>, userRecords: seq<UserRecord>)

  /** The release metadata a caller supplies when adding to a collection. */
  datatype Metadata = Metadata(
    title: string,
    artist: string,
    imageUrl: string,
    country: string,
    year: int,
    recordLabel: string,
    catalogNumber: string)
  {
    /**
     The catalog row inserted for this metadata: every supplied field lands in
     its column and none is null; `now` is the store's insert time.
     */
    function ToRow(discogsId: DiscogsId, now: string): (rec: CatalogRecord)
      ensures rec.discogsId == discogsId && rec.title == title && rec.artist == artist
      ensures rec.imageUrl == Some(imageUrl) && rec.country == Some(country) && rec.year == Some(year)
      ensures rec.recordLabel == Some(recordLabel) && rec.catno == Some(catalogNumber)
      ensures rec.createdAt == Some(now)
    {
      CatalogRecord(discogsId, title, artist, Some(imageUrl), Some(country), Some(year),
                    Some(recordLabel), Some(catalogNumber), Some(now))
    }
  }

  // Row filters the service passes to the store.

  function WithId(discogsId: DiscogsId): CatalogRecord -> bool {
    (rec: CatalogRecord) => rec.discogsId == discogsId
  }

  function WithoutId(discogsId: DiscogsId): CatalogRecord -> bool {
    (rec: CatalogRecord) => rec.discogsId != discogsId
  }

  function IdAmong(ids: set<DiscogsId>): CatalogRecord -> bool {
    (rec: CatalogRecord) => rec.discogsId in ids
  }

  function TitleContains(term: string): CatalogRecord -> bool {
    (rec: CatalogRecord) => Contains(rec.title, term)
  }

  function OfUser(userId: UserId): UserRecord -> bool {
    (ur: UserRecord) => ur.userId == userId
  }

  function OfRecord(discogsId: DiscogsId): UserRecord -> bool {
    (ur: UserRecord) => ur.discogsId == discogsId
  }

  function OfPair(userId: UserId, discogsId: DiscogsId): UserRecord -> bool {
    (ur: UserRecord) => ur.Pair() == (userId, discogsId)
  }

  function NotOfPair(userId: UserId, discogsId: DiscogsId): UserRecord -> bool {
    (ur: UserRecord) => ur.Pair() != (userId, discogsId)
  }

  function CatalogKey(rec: CatalogRecord): DiscogsId {
    rec.discogsId
  }

  function MembershipKey(ur: UserRecord): (UserId, DiscogsId) {
    ur.Pair()
  }

  /** `term` occurs in `text` as a contiguous substring. */
  predicate Contains(text: string, term: string) {
    exists i | 0 <= i <= |text| - |term| :: OccursAt(text, term, i)
  }

  /** `term` occurs in `text` starting at position `i`. */
  predicate OccursAt(text: string, term: string, i: int) {
    0 <= i <= |text| - |term| && text[i..i + |term|] == term
  }

  // Abstract views of the store.

  /** The releases the catalog has a row for. */
  function CatalogIds(s: Store): set<DiscogsId> {
    set rec | rec in s.records :: rec.discogsId
  }

  /** The releases some membership references. */
  function ReferencedIds(s: Store): set<DiscogsId> {
    set ur | ur in s.userRecords :: ur.discogsId
  }

  /** The (user, release) pairs the membership table holds. */
  function Pairs(s: Store): set<(UserId, DiscogsId)> {
    set ur | ur in s.userRecords :: ur.Pair()
  }

  /** The releases `userId` holds. */
  function HeldIds(s: Store, userId: UserId): set<DiscogsId> {
    set ur | ur in s.userRecords && ur.userId == userId :: ur.discogsId
  }

  // Invariants.

  /** `discogs_id` is a unique key of the catalog. */
  ghost predicate UniqueCatalogKeys(s: Store) {
    DistinctKeys(s.records, CatalogKey)
  }

  /** No (user, release) pair is held twice. */
  ghost predicate UniqueMemberships(s: Store) {
    DistinctKeys(s.userRecords, MembershipKey)
  }

  /**
   The synchroniser's invariant: both keys are unique and the catalog has a
   row for a release exactly when some membership references it.
   */
  ghost predicate Consistent(s: Store) {
    && UniqueCatalogKeys(s)
    && UniqueMemberships(s)
    && CatalogIds(s) == ReferencedIds(s)
  }

  // Queries.

  /** `getRecord`: the catalog row for `discogsId`, through `.single()`. */
  function GetRecord(s: Store, discogsId: DiscogsId): (r: Option<CatalogRecord>)
    ensures r.Some? ==> r.value in s.records && r.value.discogsId == discogsId
    ensures discogsId !in CatalogIds(s) ==> r.None?
  {
    Single(Filter(s.records, WithId(discogsId)))
  }

  /** The membership row of `(userId, discogsId)`, through `.single()`. */
  function FindMembership(s: Store, userId: UserId, discogsId: DiscogsId): (r: Option<UserRecord>)
    ensures r.Some? ==> r.value in s.userRecords && r.value.Pair() == (userId, discogsId)
    ensures (userId, discogsId) !in Pairs(s) ==> r.None?
  {
    Single(Filter(s.userRecords, OfPair(userId, discogsId)))
  }

  /**
   `getUserRecords`: the catalog rows, in catalog order, of the releases
   `userId` holds; nothing when the user holds none.
   */
  function GetUserRecords(s: Store, userId: UserId): (r: seq<CatalogRecord>)
    ensures forall rec :: rec in r <==> rec in s.records && rec.discogsId in HeldIds(s, userId)
  {
    var mine := Filter(s.userRecords, OfUser(userId));
    if |mine| == 0 then []
    else
      var ids := set ur | ur in mine :: ur.discogsId;
      Filter(s.records, IdAmong(ids))
  }

  /** `searchRecords`: the catalog rows whose title contains `term`. */
  function SearchRecords(s: Store, term: string): (r: seq<CatalogRecord>)
    ensures forall rec :: rec in r <==> rec in s.records && Contains(rec.title, term)
  {
    Filter(s.records, TitleContains(term))
  }

  // Updates.

  /**
   `addRecordToCollection`: insert the catalog row unless one is found
   (the first writer's metadata stays), then reject a pair the user already
   holds, else insert one membership. `rowId` and `now` are the generated
   membership id and the clock reading.
   */
  function AddRecordToCollection(
    s: Store, userId: UserId, discogsId: DiscogsId, meta: Metadata, rowId: string, now: string)
    : (r: (Outcome, Store))
    ensures r.0 == Success || r.0 == Failure(AlreadyAdded)
    ensures discogsId in CatalogIds(r.1)
    ensures s.records <= r.1.records && |r.1.records| <= |s.records| + 1
    ensures s.userRecords <= r.1.userRecords
    ensures r.0.Success? ==> (userId, discogsId) in Pairs(r.1) && |r.1.userRecords| == |s.userRecords| + 1
    ensures r.0.Failure? ==> (userId, discogsId) in Pairs(s) && r.1.userRecords == s.userRecords
  {
    var s1 :=
      if GetRecord(s, discogsId).None? then s.(records := s.records + [meta.ToRow(discogsId, now)])
      else s;
    if FindMembership(s1, userId, discogsId).Some? then
      (Failure(AlreadyAdded), s1)
    else
      var ur := UserRecord(rowId, userId, discogsId, now);
      assert ur in s1.userRecords + [ur];
      (Success, s1.(userRecords := s1.userRecords + [ur]))
  }

  /**
   `deleteRecordFromCollection`: delete the user's membership rows for the
   release, then delete the catalog row when no membership for it remains.
   */
  function DeleteRecordFromCollection(s: Store, userId: UserId, discogsId: DiscogsId)
    : (r: (Outcome, Store))
    ensures r.0 == Success
    ensures (userId, discogsId) !in Pairs(r.1)
    ensures forall ur :: ur in r.1.userRecords <==> ur in s.userRecords && ur.Pair() != (userId, discogsId)
    ensures discogsId in CatalogIds(r.1) ==> discogsId in ReferencedIds(r.1)
  {
    var kept := Filter(s.userRecords, NotOfPair(userId, discogsId));
    var remaining := Filter(kept, OfRecord(discogsId));
    var records :=
      if |remaining| == 0 then Filter(s.records, WithoutId(discogsId)) else s.records;
    assert |remaining| > 0 ==> remaining[0] in kept;
    (Success, Store(records, kept))
  }
}
