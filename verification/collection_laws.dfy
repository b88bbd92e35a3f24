/**
 What the collection synchroniser promises: the effect of each branch of add
 and remove, the invariant both preserve over any sequence of requests, and
 the laws relating them (remove undoes a fresh add, a repeated add is
 rejected, a repeated remove changes nothing).
 */
module CollectionLaws {
  import opened Tables
  import opened Rows
  import opened RecordService

  // `.single()` under the unique keys.

  /** With a unique catalog key, `getRecord` finds a row exactly when one exists. */
  lemma GetRecordFindsRow(s: Store, discogsId: DiscogsId)
    requires UniqueCatalogKeys(s)
    ensures GetRecord(s, discogsId).Some? <==> discogsId in CatalogIds(s)
  {
    var p := WithId(discogsId);
    assert AtMostOne(s.records, p) by {
      forall i, j | 0 <= i < j < |s.records| && p(s.records[i])
        ensures !p(s.records[j])
      {
        assert CatalogKey(s.records[i]) != CatalogKey(s.records[j]);
      }
    }
    SingleFindsUnique(s.records, p);
    if discogsId in CatalogIds(s) {
      var rec :| rec in s.records && rec.discogsId == discogsId;
      assert p(rec);
    }
  }

  /** With unique memberships, the duplicate check finds a row exactly when the pair is held. */
  lemma FindMembershipFindsPair(s: Store, userId: UserId, discogsId: DiscogsId)
    requires UniqueMemberships(s)
    ensures FindMembership(s, userId, discogsId).Some? <==> (userId, discogsId) in Pairs(s)
  {
    var p := OfPair(userId, discogsId);
    assert AtMostOne(s.userRecords, p) by {
      forall i, j | 0 <= i < j < |s.userRecords| && p(s.userRecords[i])
        ensures !p(s.userRecords[j])
      {
        assert MembershipKey(s.userRecords[i]) != MembershipKey(s.userRecords[j]);
      }
    }
    SingleFindsUnique(s.userRecords, p);
    if (userId, discogsId) in Pairs(s) {
      var ur :| ur in s.userRecords && ur.Pair() == (userId, discogsId);
      assert p(ur);
    }
  }

  // Add.

  /** A release the catalog lacks gets a row carrying exactly the supplied metadata. */
  lemma AddNewIdInsertsRow(
    s: Store, userId: UserId, discogsId: DiscogsId, meta: Metadata, rowId: string, now: string)
    requires discogsId !in CatalogIds(s)
    ensures var s' := AddRecordToCollection(s, userId, discogsId, meta, rowId, now).1;
      && s'.records == s.records + [meta.ToRow(discogsId, now)]
      && GetRecord(s', discogsId).Some?
      && var found := GetRecord(s', discogsId).value;
      && found.discogsId == discogsId
      && found.title == meta.title
      && found.artist == meta.artist
      && found.imageUrl == Some(meta.imageUrl)
      && found.country == Some(meta.country)
      && found.year == Some(meta.year)
      && found.recordLabel == Some(meta.recordLabel)
      && found.catno == Some(meta.catalogNumber)
  {
    var row := meta.ToRow(discogsId, now);
    var s' := AddRecordToCollection(s, userId, discogsId, meta, rowId, now).1;
    assert s'.records == s.records + [row];
    FilterNone(s.records, WithId(discogsId));
    assert (s.records + [row])[..|s.records|] == s.records;
    assert Filter(s'.records, WithId(discogsId)) == [row];
  }

  /** A release the catalog already has keeps its row: the first writer's metadata wins. */
  lemma AddExistingIdKeepsRow(
    s: Store, userId: UserId, discogsId: DiscogsId, meta: Metadata, rowId: string, now: string)
    requires UniqueCatalogKeys(s) && discogsId in CatalogIds(s)
    ensures var s' := AddRecordToCollection(s, userId, discogsId, meta, rowId, now).1;
      && s'.records == s.records
      && GetRecord(s', discogsId) == GetRecord(s, discogsId)
  {
    GetRecordFindsRow(s, discogsId);
  }

  /** Adding a pair the user already holds is rejected and adds no membership. */
  lemma AddDuplicateRejected(
    s: Store, userId: UserId, discogsId: DiscogsId, meta: Metadata, rowId: string, now: string)
    requires UniqueMemberships(s) && (userId, discogsId) in Pairs(s)
    ensures var (outcome, s') := AddRecordToCollection(s, userId, discogsId, meta, rowId, now);
      && outcome == Failure(AlreadyAdded)
      && s'.userRecords == s.userRecords
      && (Consistent(s) ==> s' == s)
  {
    var s' := AddRecordToCollection(s, userId, discogsId, meta, rowId, now).1;
    if Consistent(s) {
      var ur :| ur in s.userRecords && ur.Pair() == (userId, discogsId);
      assert discogsId in ReferencedIds(s);
      GetRecordFindsRow(s, discogsId);
    }
    var s1 := if GetRecord(s, discogsId).None? then s.(records := s.records + [meta.ToRow(discogsId, now)]) else s;
    assert Pairs(s1) == Pairs(s) && UniqueMemberships(s1);
    FindMembershipFindsPair(s1, userId, discogsId);
  }

  /**
   Adding a pair the user does not hold succeeds and appends exactly one
   membership; the user then holds the release and the catalog has it.
   */
  lemma AddFreshPairInserts(
    s: Store, userId: UserId, discogsId: DiscogsId, meta: Metadata, rowId: string, now: string)
    requires (userId, discogsId) !in Pairs(s)
    ensures var (outcome, s') := AddRecordToCollection(s, userId, discogsId, meta, rowId, now);
      && outcome == Success
      && s'.userRecords == s.userRecords + [UserRecord(rowId, userId, discogsId, now)]
      && Pairs(s') == Pairs(s) + {(userId, discogsId)}
      && HeldIds(s', userId) == HeldIds(s, userId) + {discogsId}
      && ReferencedIds(s') == ReferencedIds(s) + {discogsId}
      && discogsId in CatalogIds(s')
  {
    var s' := AddRecordToCollection(s, userId, discogsId, meta, rowId, now).1;
    var ur := UserRecord(rowId, userId, discogsId, now);
    assert s'.userRecords == s.userRecords + [ur];
    assert forall x :: x in s'.userRecords <==> x in s.userRecords || x == ur;
  }

  /** Adding a fresh pair of a release the catalog has keeps the invariant. */
  lemma AddFreshPairExistingIdConsistent(
    s: Store, userId: UserId, discogsId: DiscogsId, meta: Metadata, rowId: string, now: string)
    requires Consistent(s) && (userId, discogsId) !in Pairs(s) && discogsId in CatalogIds(s)
    ensures Consistent(AddRecordToCollection(s, userId, discogsId, meta, rowId, now).1)
  {
    AddFreshPairInserts(s, userId, discogsId, meta, rowId, now);
    AppendDistinctKeys(s.userRecords, UserRecord(rowId, userId, discogsId, now), MembershipKey);
    AddExistingIdKeepsRow(s, userId, discogsId, meta, rowId, now);
  }

  /** Adding a fresh pair of a release the catalog lacks keeps the invariant. */
  lemma AddFreshPairNewIdConsistent(
    s: Store, userId: UserId, discogsId: DiscogsId, meta: Metadata, rowId: string, now: string)
    requires Consistent(s) && (userId, discogsId) !in Pairs(s) && discogsId !in CatalogIds(s)
    ensures Consistent(AddRecordToCollection(s, userId, discogsId, meta, rowId, now).1)
  {
    var s' := AddRecordToCollection(s, userId, discogsId, meta, rowId, now).1;
    var row := meta.ToRow(discogsId, now);
    AddFreshPairInserts(s, userId, discogsId, meta, rowId, now);
    AppendDistinctKeys(s.userRecords, UserRecord(rowId, userId, discogsId, now), MembershipKey);
    AddNewIdInsertsRow(s, userId, discogsId, meta, rowId, now);
    AppendDistinctKeys(s.records, row, CatalogKey);
    CatalogIdsGrow(s, s', row);
  }

  /** Inserting a catalog row adds exactly its release to the catalog's releases. */
  lemma CatalogIdsGrow(s: Store, s': Store, row: CatalogRecord)
    requires s'.records == s.records + [row]
    ensures CatalogIds(s') == CatalogIds(s) + {row.discogsId}
  {
    assert forall x :: x in s'.records <==> x in s.records || x == row;
  }

  /** Add keeps the synchroniser's invariant. */
  lemma AddPreservesConsistent(
    s: Store, userId: UserId, discogsId: DiscogsId, meta: Metadata, rowId: string, now: string)
    requires Consistent(s)
    ensures Consistent(AddRecordToCollection(s, userId, discogsId, meta, rowId, now).1)
  {
    if (userId, discogsId) in Pairs(s) {
      AddDuplicateRejected(s, userId, discogsId, meta, rowId, now);
    } else if discogsId in CatalogIds(s) {
      AddFreshPairExistingIdConsistent(s, userId, discogsId, meta, rowId, now);
    } else {
      AddFreshPairNewIdConsistent(s, userId, discogsId, meta, rowId, now);
    }
  }

  /** A second identical add is rejected and changes nothing. */
  lemma AddTwiceRejectsSecond(
    s: Store, userId: UserId, discogsId: DiscogsId, meta: Metadata, rowId: string, now: string,
    meta2: Metadata, rowId2: string, now2: string)
    requires Consistent(s)
    ensures var s1 := AddRecordToCollection(s, userId, discogsId, meta, rowId, now).1;
      AddRecordToCollection(s1, userId, discogsId, meta2, rowId2, now2) == (Failure(AlreadyAdded), s1)
  {
    var s1 := AddRecordToCollection(s, userId, discogsId, meta, rowId, now).1;
    AddPreservesConsistent(s, userId, discogsId, meta, rowId, now);
    AddDuplicateRejected(s1, userId, discogsId, meta2, rowId2, now2);
  }

  /** Under unique memberships, the duplicate check's filter matches at most one row. */
  lemma PairSelectsAtMostOne(s: Store, userId: UserId, discogsId: DiscogsId)
    ensures UniqueMemberships(s) ==> |Filter(s.userRecords, OfPair(userId, discogsId))| <= 1
  {
    if UniqueMemberships(s) {
      var p := OfPair(userId, discogsId);
      assert AtMostOne(s.userRecords, p) by {
        forall i, j | 0 <= i < j < |s.userRecords| && p(s.userRecords[i])
          ensures !p(s.userRecords[j])
        {
          assert MembershipKey(s.userRecords[i]) != MembershipKey(s.userRecords[j]);
        }
      }
      FilterAtMostOne(s.userRecords, p);
    }
  }

  /**
   The duplicate check relies on unique memberships: in a store holding a
   pair more than once, `.single()` sees no row, so add inserts it once more.
   */
  lemma RepeatedPairEscapesDuplicateCheck(
    s: Store, userId: UserId, discogsId: DiscogsId, meta: Metadata, rowId: string, now: string)
    requires |Filter(s.userRecords, OfPair(userId, discogsId))| >= 2
    ensures !UniqueMemberships(s)
    ensures var (outcome, s') := AddRecordToCollection(s, userId, discogsId, meta, rowId, now);
      && outcome == Success
      && s'.userRecords == s.userRecords + [UserRecord(rowId, userId, discogsId, now)]
  {
    PairSelectsAtMostOne(s, userId, discogsId);
    var s1 :=
      if GetRecord(s, discogsId).None? then s.(records := s.records + [meta.ToRow(discogsId, now)])
      else s;
    assert s1.userRecords == s.userRecords;
    assert FindMembership(s1, userId, discogsId).None?;
  }

  // Remove.

  /**
   Remove deletes the user's memberships of the release and nothing else:
   every other row stays, in order.
   */
  lemma RemoveDeletesOnlyPair(s: Store, userId: UserId, discogsId: DiscogsId)
    ensures var (outcome, s') := DeleteRecordFromCollection(s, userId, discogsId);
      && outcome == Success
      && s'.userRecords == Filter(s.userRecords, NotOfPair(userId, discogsId))
      && Pairs(s') == Pairs(s) - {(userId, discogsId)}
      && (forall v :: v != userId ==> HeldIds(s', v) == HeldIds(s, v))
      && HeldIds(s', userId) == HeldIds(s, userId) - {discogsId}
  {
  }

  /**
   Remove deletes the catalog row exactly when no membership of the release
   remains; otherwise the catalog is untouched.
   */
  lemma RemoveCollectsOrphan(s: Store, userId: UserId, discogsId: DiscogsId)
    ensures var s' := DeleteRecordFromCollection(s, userId, discogsId).1;
      && (discogsId in ReferencedIds(s') ==> s'.records == s.records)
      && (discogsId !in ReferencedIds(s') ==>
            && s'.records == Filter(s.records, WithoutId(discogsId))
            && CatalogIds(s') == CatalogIds(s) - {discogsId})
  {
    var s' := DeleteRecordFromCollection(s, userId, discogsId).1;
    var remaining := Filter(s'.userRecords, OfRecord(discogsId));
    if discogsId in ReferencedIds(s') {
      var ur :| ur in s'.userRecords && ur.discogsId == discogsId;
      assert ur in remaining;
    } else {
      FilterNone(s'.userRecords, OfRecord(discogsId));
    }
  }

  /** A second identical remove changes nothing. */
  lemma RemoveIdempotent(s: Store, userId: UserId, discogsId: DiscogsId)
    ensures var s1 := DeleteRecordFromCollection(s, userId, discogsId).1;
      DeleteRecordFromCollection(s1, userId, discogsId) == (Success, s1)
  {
    var s1 := DeleteRecordFromCollection(s, userId, discogsId).1;
    FilterIdempotent(s.userRecords, NotOfPair(userId, discogsId));
    FilterIdempotent(s.records, WithoutId(discogsId));
  }

  /** Remove only ever drops `discogsId` from the referenced releases. */
  lemma RemoveKeepsOtherReferences(s: Store, userId: UserId, discogsId: DiscogsId)
    ensures var s' := DeleteRecordFromCollection(s, userId, discogsId).1;
      && ReferencedIds(s') <= ReferencedIds(s)
      && ReferencedIds(s') - {discogsId} == ReferencedIds(s) - {discogsId}
  {
    var s' := DeleteRecordFromCollection(s, userId, discogsId).1;
    forall id | id in ReferencedIds(s) && id != discogsId
      ensures id in ReferencedIds(s')
    {
      var ur :| ur in s.userRecords && ur.discogsId == id;
      assert ur in s'.userRecords;
    }
  }

  /** Remove keeps the synchroniser's invariant. */
  lemma RemovePreservesConsistent(s: Store, userId: UserId, discogsId: DiscogsId)
    requires Consistent(s)
    ensures Consistent(DeleteRecordFromCollection(s, userId, discogsId).1)
  {
    var s' := DeleteRecordFromCollection(s, userId, discogsId).1;
    FilterDistinctKeys(s.userRecords, NotOfPair(userId, discogsId), MembershipKey);
    FilterDistinctKeys(s.records, WithoutId(discogsId), CatalogKey);
    RemoveKeepsOtherReferences(s, userId, discogsId);
    RemoveCollectsOrphan(s, userId, discogsId);
  }

  /** While another user holds the release, removing it keeps the catalog row. */
  lemma OtherHolderKeepsRow(s: Store, userId: UserId, other: UserId, discogsId: DiscogsId)
    requires other != userId && (other, discogsId) in Pairs(s)
    ensures DeleteRecordFromCollection(s, userId, discogsId).1.records == s.records
  {
    var s' := DeleteRecordFromCollection(s, userId, discogsId).1;
    var ur :| ur in s.userRecords && ur.Pair() == (other, discogsId);
    assert ur in s'.userRecords;
    RemoveCollectsOrphan(s, userId, discogsId);
  }

  /** Removing a pair right after adding it afresh restores the store exactly. */
  lemma RemoveUndoesFreshAdd(
    s: Store, userId: UserId, discogsId: DiscogsId, meta: Metadata, rowId: string, now: string)
    requires Consistent(s) && (userId, discogsId) !in Pairs(s)
    ensures var s1 := AddRecordToCollection(s, userId, discogsId, meta, rowId, now).1;
      DeleteRecordFromCollection(s1, userId, discogsId).1 == s
  {
    var s1 := AddRecordToCollection(s, userId, discogsId, meta, rowId, now).1;
    var s2 := DeleteRecordFromCollection(s1, userId, discogsId).1;
    AddFreshPairInserts(s, userId, discogsId, meta, rowId, now);
    FilterDropsAppended(s.userRecords, UserRecord(rowId, userId, discogsId, now), NotOfPair(userId, discogsId));
    assert s2.userRecords == s.userRecords;
    RemoveCollectsOrphan(s1, userId, discogsId);
    if discogsId in CatalogIds(s) {
      AddExistingIdKeepsRow(s, userId, discogsId, meta, rowId, now);
      assert discogsId in ReferencedIds(s2);
    } else {
      AddNewIdInsertsRow(s, userId, discogsId, meta, rowId, now);
      FilterDropsAppended(s.records, meta.ToRow(discogsId, now), WithoutId(discogsId));
      assert discogsId !in ReferencedIds(s2);
    }
  }

  // Reads.

  /**
   In a consistent store `getUserRecords` lists each release the user holds
   exactly once: its ids are exactly the user's ids, with no row repeated.
   */
  lemma GetUserRecordsListsHeld(s: Store, userId: UserId)
    requires Consistent(s)
    ensures var r := GetUserRecords(s, userId);
      && (set rec | rec in r :: rec.discogsId) == HeldIds(s, userId)
      && DistinctKeys(r, CatalogKey)
  {
    var r := GetUserRecords(s, userId);
    forall id | id in HeldIds(s, userId)
      ensures exists rec :: rec in r && rec.discogsId == id
    {
      assert id in ReferencedIds(s);
      var rec :| rec in s.records && rec.discogsId == id;
      assert rec in r;
    }
    var mine := Filter(s.userRecords, OfUser(userId));
    if |mine| > 0 {
      var ids := set ur | ur in mine :: ur.discogsId;
      FilterDistinctKeys(s.records, IdAmong(ids), CatalogKey);
    }
  }

  /**
   The collection test a record card makes on the user's list: some listed
   row carries the release's id.
   */
  predicate Listed(records: seq<CatalogRecord>, discogsId: DiscogsId) {
    exists rec | rec in records :: rec.discogsId == discogsId
  }

  /** In a consistent store that test says whether the user holds the release. */
  lemma ListedIffHeld(s: Store, userId: UserId, discogsId: DiscogsId)
    requires Consistent(s)
    ensures Listed(GetUserRecords(s, userId), discogsId) <==> discogsId in HeldIds(s, userId)
  {
    GetUserRecordsListsHeld(s, userId);
    var r := GetUserRecords(s, userId);
    if discogsId in HeldIds(s, userId) {
      assert discogsId in (set rec | rec in r :: rec.discogsId);
    }
  }

  /** An empty search term matches every title: `%%` lists the whole catalog. */
  lemma SearchEmptyTermListsAll(s: Store)
    ensures SearchRecords(s, "") == s.records
  {
    forall rec | rec in s.records
      ensures TitleContains("")(rec)
    {
      assert OccursAt(rec.title, "", 0);
    }
    FilterAll(s.records, TitleContains(""));
  }

  /**
   Lengthening the search term only narrows the result: every row matching
   `term + more` also matches `term`.
   */
  lemma SearchNarrowsAsTermGrows(s: Store, term: string, more: string)
    ensures forall rec :: rec in SearchRecords(s, term + more) ==> rec in SearchRecords(s, term)
  {
    forall rec | rec in SearchRecords(s, term + more)
      ensures rec in SearchRecords(s, term)
    {
      var i :| 0 <= i <= |rec.title| - |term + more| && OccursAt(rec.title, term + more, i);
      assert rec.title[i..i + |term|] == (term + more)[..|term|] == term;
      assert OccursAt(rec.title, term, i);
    }
  }

  /** A catalog row is always found by searching for its whole title. */
  lemma SearchFindsByTitle(s: Store, rec: CatalogRecord)
    requires rec in s.records
    ensures rec in SearchRecords(s, rec.title)
  {
    assert OccursAt(rec.title, rec.title, 0);
  }

  // Sequences of requests.

  /** A request the presentation layer sends. */
  datatype Request =
    | Add(userId: UserId, discogsId: DiscogsId, meta: Metadata, rowId: string, now: string)
    | Remove(userId: UserId, discogsId: DiscogsId)

  function Apply(s: Store, req: Request): (Outcome, Store) {
    match req
    case Add(u, id, meta, rowId, now) => AddRecordToCollection(s, u, id, meta, rowId, now)
    case Remove(u, id) => DeleteRecordFromCollection(s, u, id)
  }

  /** The store after serving `reqs` one after another. */
  function Run(s: Store, reqs: seq<Request>): Store
    decreases |reqs|
  {
    if |reqs| == 0 then s else Run(Apply(s, reqs[0]).1, reqs[1..])
  }

  /** Any sequence of adds and removes keeps the invariant. */
  lemma {:induction false} RunPreservesConsistent(s: Store, reqs: seq<Request>)
    requires Consistent(s)
    ensures Consistent(Run(s, reqs))
    decreases |reqs|
  {
    if |reqs| > 0 {
      match reqs[0] {
        case Add(u, id, meta, rowId, now) => AddPreservesConsistent(s, u, id, meta, rowId, now);
        case Remove(u, id) => RemovePreservesConsistent(s, u, id);
      }
      RunPreservesConsistent(Apply(s, reqs[0]).1, reqs[1..]);
    }
  }

  /** Every store reached from the empty one is consistent. */
  lemma ReachableIsConsistent(reqs: seq<Request>)
    ensures Consistent(Run(Store([], []), reqs))
  {
    RunPreservesConsistent(Store([], []), reqs);
  }
}
