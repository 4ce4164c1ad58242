/**
 * The trash listing: a signed-in user's own soft-deleted media items, most recently
 * deleted first.
 */
module DeletedApi {

  import opened Wrappers
  import opened Ordering
  import opened Store
  import opened Http

  function DeletedAtKey(m: Media): int
  {
    m.deletedAt.GetOr(0)
  }

  /** `findMany({ where: { deletedAt: { not: null }, uploadedBy }, orderBy: { deletedAt: 'desc' } })` */
  function DeletedBy(media: seq<Media>, user: Id): (r: seq<Media>)
    ensures forall i :: 0 <= i < |r| ==> r[i] in media && r[i].deletedAt.Some? && r[i].uploadedBy == user
    ensures forall i :: 0 <= i < |media| && media[i].deletedAt.Some? && media[i].uploadedBy == user ==> media[i] in r
    ensures forall i, j :: 0 <= i < j < |r| ==> r[i].deletedAt.value >= r[j].deletedAt.value
    ensures forall i :: 0 <= i < |media| && media[i].deletedAt.Some? && media[i].uploadedBy == user ==>
      multiset(r)[media[i]] == multiset(media)[media[i]]
  {
    var r := Listing(media, (m: Media) => m.deletedAt.Some? && m.uploadedBy == user, DeletedAtKey);
    assert SortedDesc(r, DeletedAtKey);
    r
  }

  /** GET /api/media/deleted */
  function ListDeleted(db: Library, caller: Option<Id>): (r: Response<seq<Media>>)
    reads db
    ensures caller.None? <==> r == Unauthorized()
    ensures r.Ok? ==> r.body == DeletedBy(db.media, caller.value)
  {
    if caller.None? then Unauthorized() else Ok(DeletedBy(db.media, caller.value))
  }
}
