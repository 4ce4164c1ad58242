/**
 * The permanent purge of soft-deleted media. Every media item whose deletion lies more
 * than seven days back is removed with its files, tag links and collection entries;
 * before that, a blob deletion is requested for each of its file URLs and for its cover.
 * The answer reports how many items went.
 */
module MediaCleanup {

  import opened Wrappers
  import opened Ordering
  import opened Store
  import opened Http
  import Text

  /** Days a soft-deleted item is kept before it may be purged. */
  const GraceDays := 7

  /** Deleted, and strictly more than seven days before `now`. */
  predicate DueForPurge(m: Media, now: int)
  {
    m.deletedAt.Some? && m.deletedAt.value < now - GraceDays * DayMs
  }

  function Due(now: int): Media -> bool
  {
    (m: Media) => DueForPurge(m, now)
  }

  function NotDue(now: int): Media -> bool
  {
    (m: Media) => !DueForPurge(m, now)
  }

  /** `findMany({ where: { deletedAt: { not: null, lt: oneWeekAgo } } })` */
  function PurgeSelection(media: seq<Media>, now: int): (r: seq<Media>)
    ensures forall i :: 0 <= i < |r| ==> r[i] in media && DueForPurge(r[i], now)
    ensures forall i :: 0 <= i < |media| && DueForPurge(media[i], now) ==> media[i] in r
  {
    Filter(media, Due(now))
  }

  function SelectionIds(sel: seq<Media>): set<Id>
  {
    set m | m in sel :: m.id
  }

  /** The URLs of the item's files, in table order (`media.files.map`). */
  function FileUrls(files: seq<MediaFile>, mediaId: Id): (r: seq<string>)
    ensures forall i :: 0 <= i < |files| && files[i].mediaId == mediaId ==> files[i].fileUrl in r
    ensures forall u :: u in r ==> exists i :: 0 <= i < |files| && files[i].mediaId == mediaId && files[i].fileUrl == u
  {
    if files == [] then []
    else
      var rest := FileUrls(files[1..], mediaId);
      assert forall u :: u in rest ==> exists i :: 1 <= i < |files| && files[i].mediaId == mediaId && files[i].fileUrl == u by {
        forall u | u in rest ensures exists i :: 1 <= i < |files| && files[i].mediaId == mediaId && files[i].fileUrl == u {
          var i :| 0 <= i < |files[1..]| && files[1..][i].mediaId == mediaId && files[1..][i].fileUrl == u;
          assert files[i + 1] == files[1..][i];
        }
      }
      if files[0].mediaId == mediaId then [files[0].fileUrl] + rest else rest
  }

  /** The blob deletions one item asks for: its files, then its cover when it has one. */
  function BlobsOf(m: Media, files: seq<MediaFile>): seq<string>
  {
    FileUrls(files, m.id) + (if Truthy(m.coverUrl) then [m.coverUrl.value] else [])
  }

  /** The `flatMap` over the selection: each item's deletions, item after item. */
  function AllBlobs(sel: seq<Media>, files: seq<MediaFile>): seq<string>
  {
    if sel == [] then [] else AllBlobs(sel[..|sel| - 1], files) + BlobsOf(sel[|sel| - 1], files)
  }

  /** Every file of a purged item, and its cover, gets a deletion request. */
  lemma {:induction false} AllBlobsComplete(sel: seq<Media>, files: seq<MediaFile>)
    ensures forall k, i :: 0 <= k < |sel| && 0 <= i < |files| && files[i].mediaId == sel[k].id ==>
      files[i].fileUrl in AllBlobs(sel, files)
    ensures forall k :: 0 <= k < |sel| && Truthy(sel[k].coverUrl) ==> sel[k].coverUrl.value in AllBlobs(sel, files)
  {
    if sel != [] {
      var init := sel[..|sel| - 1];
      AllBlobsComplete(init, files);
      forall k | 0 <= k < |sel| - 1 ensures sel[k] == init[k] { }
    }
  }

  /** `u` is one of the deletions item `m` asks for. */
  predicate RequestedFor(u: string, m: Media, files: seq<MediaFile>)
  {
    (exists i :: 0 <= i < |files| && files[i].mediaId == m.id && files[i].fileUrl == u) ||
    (Truthy(m.coverUrl) && m.coverUrl.value == u)
  }

  /** Nothing else is deleted: each request names a file or the cover of a purged item. */
  lemma {:induction false} AllBlobsSound(sel: seq<Media>, files: seq<MediaFile>)
    ensures forall u :: u in AllBlobs(sel, files) ==> exists k :: 0 <= k < |sel| && RequestedFor(u, sel[k], files)
  {
    if sel != [] {
      var init := sel[..|sel| - 1];
      AllBlobsSound(init, files);
      forall u | u in AllBlobs(sel, files) ensures exists k :: 0 <= k < |sel| && RequestedFor(u, sel[k], files) {
        if u in AllBlobs(init, files) {
          var k :| 0 <= k < |init| && RequestedFor(u, init[k], files);
          assert sel[k] == init[k];
        } else {
          assert u in BlobsOf(sel[|sel| - 1], files);
          assert RequestedFor(u, sel[|sel| - 1], files);
        }
      }
    }
  }

  /** Queues the blob deletions of the selection, one item at a time. */
  method RequestBlobDeletes(db: Library, sel: seq<Media>)
    modifies db`blobDeletes
    ensures db.blobDeletes == old(db.blobDeletes) + AllBlobs(sel, db.files)
  {
    var k := 0;
    while k < |sel|
      invariant 0 <= k <= |sel|
      invariant db.blobDeletes == old(db.blobDeletes) + AllBlobs(sel[..k], db.files)
    {
      assert sel[..k + 1][..k] == sel[..k];
      db.blobDeletes := db.blobDeletes + BlobsOf(sel[k], db.files);
      k := k + 1;
    }
    assert sel[..k] == sel;
  }

  /**
   * With unique ids, removing the selected ids keeps exactly the items not due, and the
   * number removed is the size of the selection.
   */
  lemma KeptAreNotDue(media: seq<Media>, now: int)
    requires MediaOk(media, |media| + MaxId(media))
    ensures Filter(media, MediaOutside(SelectionIds(PurgeSelection(media, now)))) == Filter(media, NotDue(now))
    ensures |media| - |Filter(media, NotDue(now))| == |PurgeSelection(media, now)|
  {
    var sel := PurgeSelection(media, now);
    var ids := SelectionIds(sel);
    forall i | 0 <= i < |media| ensures MediaOutside(ids)(media[i]) == NotDue(now)(media[i]) {
      if media[i].id in ids {
        var m :| m in sel && m.id == media[i].id;
        var j :| 0 <= j < |media| && media[j] == m;
      }
    }
    FilterAgree(media, MediaOutside(ids), NotDue(now));
    FilterSplit(media, Due(now), NotDue(now));
  }

  /** An upper bound on the ids, so that unique ids can be stated without the counter. */
  function MaxId(media: seq<Media>): (r: nat)
    ensures forall i :: 0 <= i < |media| ==> media[i].id <= r
  {
    if media == [] then 0
    else
      var rest := MaxId(media[1..]);
      assert forall i :: 1 <= i < |media| ==> media[i] == media[1..][i - 1];
      if media[0].id > rest then media[0].id else rest
  }

  datatype Outcome = Outcome(message: string, deletedCount: nat)

  const NothingToPurge := "No media to permanently delete"

  const PurgedPrefix := "Successfully deleted "
  const PurgedSuffix := " media items permanently"

  /** The success message, from which the number of purged items can be read back. */
  function PurgedMessage(count: nat): (r: string)
    ensures var digits := Text.NatToString(count);
      |r| == |PurgedPrefix| + |digits| + |PurgedSuffix| &&
      r[..|PurgedPrefix|] == PurgedPrefix && r[|r| - |PurgedSuffix|..] == PurgedSuffix &&
      r[|PurgedPrefix|..|PurgedPrefix| + |digits|] == digits && Text.DecimalValue(digits) == count
    ensures r != NothingToPurge
  {
    var digits := Text.NatToString(count);
    Text.NatToStringValue(count);
    var r := PurgedPrefix + digits + PurgedSuffix;
    assert r[|PurgedPrefix|..|PurgedPrefix| + |digits|] == digits;
    assert r[0] != NothingToPurge[0];
    r
  }

  /**
   * The store after a purge at `now`: the items due then are gone with their files and
   * links, and their blobs have been asked to be deleted.
   */
  twostate predicate PurgedAt(db: Library, now: int)
    reads db
  {
    var sel := PurgeSelection(old(db.media), now);
    var ids := SelectionIds(sel);
    db.media == Filter(old(db.media), NotDue(now)) &&
    db.files == Filter(old(db.files), FileOutside(ids)) &&
    db.mediaTags == (set l | l in old(db.mediaTags) && l.0 !in ids) &&
    db.collectionMedia == (set l | l in old(db.collectionMedia) && l.1 !in ids) &&
    db.blobDeletes == old(db.blobDeletes) + AllBlobs(sel, old(db.files))
  }

  /** POST /api/media/cleanup, at time `now`. */
  method Cleanup(db: Library, caller: Option<Id>, now: int) returns (r: Response<Outcome>)
    requires db.Valid()
    modifies db`media, db`files, db`mediaTags, db`collectionMedia, db`blobDeletes
    ensures db.Valid()
    ensures caller.None? ==> r == Unauthorized() && unchanged(db)
    ensures caller.Some? ==> r.Ok?
    ensures r.Ok? ==> PurgedAt(db, now)
    ensures r.Ok? ==> r.body.deletedCount == |PurgeSelection(old(db.media), now)|
    ensures r.Ok? && PurgeSelection(old(db.media), now) == [] ==> r.body.message == NothingToPurge
    ensures r.Ok? && PurgeSelection(old(db.media), now) != [] ==>
      r.body.message == PurgedMessage(|PurgeSelection(old(db.media), now)|)
    ensures r.Ok? ==> PurgeSelection(db.media, now) == []
  {
    if caller.None? {
      return Unauthorized();
    }
    var sel := PurgeSelection(db.media, now);
    if |sel| == 0 {
      NothingSelected(db.media, db.files, db.mediaTags, db.collectionMedia, now);
      return Ok(Outcome(NothingToPurge, 0));
    }
    var count := Purge(db, now);
    r := Ok(Outcome(PurgedMessage(count), count));
  }

  /** With nothing due, a purge would change nothing: the early return loses nothing. */
  lemma NothingSelected(media: seq<Media>, files: seq<MediaFile>, mediaTags: set<(Id, Id)>,
                        collectionMedia: set<(Id, Id)>, now: int)
    requires PurgeSelection(media, now) == []
    ensures Filter(media, NotDue(now)) == media
    ensures Filter(files, FileOutside(SelectionIds(PurgeSelection(media, now)))) == files
    ensures (set l | l in mediaTags && l.0 !in SelectionIds(PurgeSelection(media, now))) == mediaTags
    ensures (set l | l in collectionMedia && l.1 !in SelectionIds(PurgeSelection(media, now))) == collectionMedia
    ensures AllBlobs(PurgeSelection(media, now), files) == []
  {
    FilterAll(media, NotDue(now));
    assert SelectionIds(PurgeSelection(media, now)) == {};
    FilterAll(files, FileOutside({}));
  }

  /** The purge proper, once there is something to purge. */
  method Purge(db: Library, now: int) returns (count: nat)
    requires db.Valid()
    modifies db`media, db`files, db`mediaTags, db`collectionMedia, db`blobDeletes
    ensures db.Valid() && PurgedAt(db, now)
    ensures count == |PurgeSelection(old(db.media), now)|
    ensures PurgeSelection(db.media, now) == []
  {
    var sel := PurgeSelection(db.media, now);
    assert MediaOk(db.media, |db.media| + MaxId(db.media));
    KeptAreNotDue(db.media, now);
    RequestBlobDeletes(db, sel);
    count := db.DeleteMedia(SelectionIds(sel));
    NothingLeftDue(old(db.media), now);
  }

  /** After a purge at `now`, nothing that remains is due then. */
  lemma NothingLeftDue(media: seq<Media>, now: int)
    ensures PurgeSelection(Filter(media, NotDue(now)), now) == []
  {
    PurgeAgain(media, now, now);
  }

  /**
   * A second purge at the same time or earlier finds nothing: the purge is idempotent.
   */
  lemma PurgeAgain(media: seq<Media>, now: int, later: int)
    requires later <= now
    ensures PurgeSelection(Filter(media, NotDue(now)), later) == []
  {
  }

  /** An item deleted exactly seven days ago is not purged yet; a moment later it is. */
  lemma ExactlyAWeek(m: Media, now: int)
    requires m.deletedAt == Some(now - GraceDays * DayMs)
    ensures !DueForPurge(m, now)
    ensures DueForPurge(m, now + 1)
  {
  }

  /** Active items are never purged, however late. */
  lemma ActiveNeverPurged(media: seq<Media>, now: int)
    ensures forall i :: 0 <= i < |PurgeSelection(media, now)| ==> PurgeSelection(media, now)[i].deletedAt.Some?
  {
  }
}
