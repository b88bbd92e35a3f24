/**
 The row shapes of the two tables behind a user's record collection: the
 shared catalog (`records`) and the memberships (`user_records`).
 */
module Rows {
  import opened Tables

  /** The external catalog's numeric release identifier. */
  type DiscogsId = int

  /** The identity provider's opaque user identifier. */
  type UserId = string

  /** A row of the shared catalog, keyed by `discogsId`. */
  datatype CatalogRecord = CatalogRecord(
    discogsId: DiscogsId,
    title: string,
    artist: string,
    imageUrl: Option<string>,
    country: Option<string>,
    year: Option<int>,
    recordLabel: Option<string>,
    catno: Option<string>,
    createdAt: Option<string>)

  /** A row of the membership table: user `userId` holds release `discogsId`. */
  datatype UserRecord = UserRecord(
    id: string,
    userId: UserId,
    discogsId: DiscogsId,
    addedAt: string)
  {
    /** The logical key of a membership. */
    function Pair(): (UserId, DiscogsId) {
      (userId, discogsId)
    }
  }
}
