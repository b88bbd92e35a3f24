/**
 Concrete request sequences against an empty store: a repeated add, an add
 undone by a remove, and a release kept while a second user still holds it.
 */
module Scenarios {
  import opened Tables
  import opened Rows
  import opened RecordService
  import opened CollectionLaws

  const MoonSafari := Metadata("Moon Safari", "Air", "", "FR", 1998, "Source", "SRC01")

  /** Adding the same release twice: the first add succeeds, the second is rejected. */
  lemma MoonSafariAddedTwice()
    ensures var (first, s1) := AddRecordToCollection(Store([], []), "u1", 999, MoonSafari, "m1", "t1");
      && first == Success
      && AddRecordToCollection(s1, "u1", 999, MoonSafari, "m2", "t2") == (Failure(AlreadyAdded), s1)
      && |s1.userRecords| == 1
  {
    AddFreshPairInserts(Store([], []), "u1", 999, MoonSafari, "m1", "t1");
    AddTwiceRejectsSecond(Store([], []), "u1", 999, MoonSafari, "m1", "t1", MoonSafari, "m2", "t2");
  }

  /** Add then remove by the only holder leaves no row of either table behind. */
  lemma LastHolderRemovalCollectsRow(meta: Metadata)
    ensures var s1 := AddRecordToCollection(Store([], []), "userA", 123, meta, "m1", "t1").1;
      DeleteRecordFromCollection(s1, "userA", 123).1 == Store([], [])
  {
    RemoveUndoesFreshAdd(Store([], []), "userA", 123, meta, "m1", "t1");
  }

  /** The first add to an empty store creates one catalog row and one membership. */
  lemma FirstAddToEmptyStore(
    userId: UserId, discogsId: DiscogsId, meta: Metadata, rowId: string, now: string)
    ensures AddRecordToCollection(Store([], []), userId, discogsId, meta, rowId, now)
      == (Success, Store([meta.ToRow(discogsId, now)], [UserRecord(rowId, userId, discogsId, now)]))
  {
    AddNewIdInsertsRow(Store([], []), userId, discogsId, meta, rowId, now);
    AddFreshPairInserts(Store([], []), userId, discogsId, meta, rowId, now);
    assert [] + [meta.ToRow(discogsId, now)] == [meta.ToRow(discogsId, now)];
    assert [] + [UserRecord(rowId, userId, discogsId, now)] == [UserRecord(rowId, userId, discogsId, now)];
  }

  /**
   A second user adds a release one user already holds, and the first then
   removes it: the catalog row stays and only the second membership remains.
   */
  lemma SecondHolderThenFirstLeaves(
    s1: Store, a: UserRecord, userB: UserId, metaB: Metadata, idB: string, nowB: string)
    requires |s1.records| == 1 && s1.records[0].discogsId == a.discogsId
    requires s1.userRecords == [a] && userB != a.userId
    ensures var s2 := AddRecordToCollection(s1, userB, a.discogsId, metaB, idB, nowB).1;
      var s3 := DeleteRecordFromCollection(s2, a.userId, a.discogsId).1;
      && s3.records == s1.records
      && s3.userRecords == [UserRecord(idB, userB, a.discogsId, nowB)]
  {
    var b := UserRecord(idB, userB, a.discogsId, nowB);
    assert s1.records[0] in s1.records;
    var s2 := AddRecordToCollection(s1, userB, a.discogsId, metaB, idB, nowB).1;
    AddExistingIdKeepsRow(s1, userB, a.discogsId, metaB, idB, nowB);
    AddFreshPairInserts(s1, userB, a.discogsId, metaB, idB, nowB);
    assert s2 == Store(s1.records, [a, b]);
    OtherHolderKeepsRow(s2, a.userId, userB, a.discogsId);
    RemoveDeletesOnlyPair(s2, a.userId, a.discogsId);
    var p := NotOfPair(a.userId, a.discogsId);
    FilterAppend([a], [b], p);
    FilterNone([a], p);
    FilterAll([b], p);
    assert [a] + [b] == [a, b];
  }

  /**
   Two users add the same release to an empty store and the first removes it:
   the catalog keeps the first writer's row and only the second user's
   membership remains.
   */
  lemma OtherHolderRetainsRow(
    userA: UserId, userB: UserId, discogsId: DiscogsId,
    metaA: Metadata, metaB: Metadata, idA: string, idB: string, nowA: string, nowB: string)
    requires userA != userB
    ensures var s1 := AddRecordToCollection(Store([], []), userA, discogsId, metaA, idA, nowA).1;
      var s2 := AddRecordToCollection(s1, userB, discogsId, metaB, idB, nowB).1;
      var s3 := DeleteRecordFromCollection(s2, userA, discogsId).1;
      && s3.records == [metaA.ToRow(discogsId, nowA)]
      && s3.userRecords == [UserRecord(idB, userB, discogsId, nowB)]
  {
    FirstAddToEmptyStore(userA, discogsId, metaA, idA, nowA);
    var a := UserRecord(idA, userA, discogsId, nowA);
    var s1 := Store([metaA.ToRow(discogsId, nowA)], [a]);
    SecondHolderThenFirstLeaves(s1, a, userB, metaB, idB, nowB);
  }
}
