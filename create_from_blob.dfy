/**
 * The second half of a direct-to-blob upload: the file is already in the blob store,
 * and the client posts its URL, its content type and the item's details. As in the media
 * endpoint, a `mediaId` adds the file to an existing item of the caller's and anything
 * else creates a new item; here only a new item needs a title.
 */
module CreateFromBlob {

  import opened Wrappers
  import opened Store
  import opened Http
  import MediaApi

  /** The JSON body; `None` stands for a missing field. */
  datatype BlobForm = BlobForm(
    blobUrl: Option<string>, contentType: Option<string>, mediaId: Option<Id>,
    title: Option<string>, author: Option<string>, description: Option<string>,
    publicationDate: Option<string>, language: Option<string>, mediaType: Option<string>,
    tags: Option<string>)

  /** EPUB exactly for the EPUB content type; every other content type, or none, is taken as PDF. */
  function BlobFileType(contentType: Option<string>): (r: FileType)
    ensures r == Epub <==> contentType == Some(MediaApi.EpubMime)
  {
    if contentType == Some(MediaApi.EpubMime) then Epub else Pdf
  }

  /** On the two accepted content types the blob path agrees with the upload check. */
  lemma BlobTypeAgrees(mime: string)
    requires MediaApi.UploadFileType(mime).Some?
    ensures BlobFileType(Some(mime)) == MediaApi.UploadFileType(mime).value
  {
  }

  /** POST /api/media/create-from-blob, at time `now`. Refusals change nothing. */
  method Post(db: Library, caller: Option<Id>, form: BlobForm, now: int) returns (r: Response<Media>)
    requires db.Valid()
    modifies db`media, db`files, db`tags, db`mediaTags, db`nextId
    ensures db.Valid()
    ensures caller.None? ==> r == Unauthorized()
    ensures caller.Some? && !Truthy(form.blobUrl) ==> r == Error(400, "Blob URL is required")
    ensures caller.Some? && Truthy(form.blobUrl) && form.mediaId.None? && !Truthy(form.title) ==>
      r == Error(400, "Title is required for new media")
    ensures r.Error? ==> unchanged(db)
    ensures caller.Some? && Truthy(form.blobUrl) && form.mediaId.None? && Truthy(form.title) ==> r.Ok?
    ensures caller.Some? && Truthy(form.blobUrl) && form.mediaId.Some? ==>
      db.media == old(db.media) && db.tags == old(db.tags) && db.mediaTags == old(db.mediaTags) &&
      (r.Error? && r.status == 404 <==> form.mediaId.value !in MediaIds(old(db.media))) &&
      (r.Error? && r.status == 403 <==> MediaApi.OthersItem(db.media, form.mediaId.value, caller.value)) &&
      (r.Error? && r.status == 400 <==>
       (MediaApi.OwnItem(db.media, form.mediaId.value, caller.value) &&
        HasFileOfType(old(db.files), form.mediaId.value, BlobFileType(form.contentType))))
    ensures r.Ok? && form.mediaId.Some? ==>
      r.body in db.media && r.body.id == form.mediaId.value && r.body.uploadedBy == caller.value &&
      db.files == old(db.files) + [MediaFile(old(db.nextId), form.mediaId.value, form.blobUrl.value,
                                             BlobFileType(form.contentType))]
    ensures r.Ok? && form.mediaId.None? ==>
      r.body == Media(old(db.nextId), form.title.value, OrNull(form.author), OrNull(form.description),
                      OrNull(form.publicationDate), OrNull(form.language),
                      MediaApi.ValidatedMediaType(form.mediaType), caller.value, now, None, None) &&
      db.media == old(db.media) + [r.body] &&
      db.files == old(db.files) + [MediaFile(old(db.nextId) + 1, r.body.id, form.blobUrl.value,
                                             BlobFileType(form.contentType))] &&
      TaggedWith(db, r.body.id, FieldTagNames(form.tags))
  {
    if caller.None? {
      return Unauthorized();
    }
    if !Truthy(form.blobUrl) {
      return Error(400, "Blob URL is required");
    }
    r := StoreBlob(db, caller.value, form, now);
  }

  /** A request with a session and a blob URL: the file goes to the named item or to a new one. */
  method StoreBlob(db: Library, user: Id, form: BlobForm, now: int) returns (r: Response<Media>)
    requires db.Valid() && Truthy(form.blobUrl)
    modifies db`media, db`files, db`tags, db`mediaTags, db`nextId
    ensures db.Valid()
    ensures form.mediaId.None? && !Truthy(form.title) ==> r == Error(400, "Title is required for new media")
    ensures r.Error? ==> unchanged(db)
    ensures form.mediaId.None? && Truthy(form.title) ==> r.Ok?
    ensures form.mediaId.Some? ==>
      db.media == old(db.media) && db.tags == old(db.tags) && db.mediaTags == old(db.mediaTags) &&
      (r.Error? && r.status == 404 <==> form.mediaId.value !in MediaIds(old(db.media))) &&
      (r.Error? && r.status == 403 <==> MediaApi.OthersItem(db.media, form.mediaId.value, user)) &&
      (r.Error? && r.status == 400 <==>
       (MediaApi.OwnItem(db.media, form.mediaId.value, user) &&
        HasFileOfType(old(db.files), form.mediaId.value, BlobFileType(form.contentType))))
    ensures r.Ok? && form.mediaId.Some? ==>
      r.body in db.media && r.body.id == form.mediaId.value && r.body.uploadedBy == user &&
      db.files == old(db.files) + [MediaFile(old(db.nextId), form.mediaId.value, form.blobUrl.value,
                                             BlobFileType(form.contentType))]
    ensures r.Ok? && form.mediaId.None? ==>
      r.body == Media(old(db.nextId), form.title.value, OrNull(form.author), OrNull(form.description),
                      OrNull(form.publicationDate), OrNull(form.language),
                      MediaApi.ValidatedMediaType(form.mediaType), user, now, None, None) &&
      db.media == old(db.media) + [r.body] &&
      db.files == old(db.files) + [MediaFile(old(db.nextId) + 1, r.body.id, form.blobUrl.value,
                                             BlobFileType(form.contentType))] &&
      TaggedWith(db, r.body.id, FieldTagNames(form.tags))
  {
    var t := BlobFileType(form.contentType);
    if form.mediaId.Some? {
      r := MediaApi.AttachToExisting(db, user, form.mediaId.value, form.blobUrl.value, t);
      return;
    }
    if !Truthy(form.title) {
      return Error(400, "Title is required for new media");
    }
    var m := MediaApi.CreateWithTags(db, form.title.value, OrNull(form.author), OrNull(form.description),
                                     OrNull(form.publicationDate), OrNull(form.language),
                                     MediaApi.ValidatedMediaType(form.mediaType), user, now,
                                     form.blobUrl.value, t, form.tags);
    r := Ok(m);
  }
}
