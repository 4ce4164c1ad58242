/**
 * The media endpoint. POST takes an uploaded EPUB or PDF file: with a `mediaId` it adds
 * the file to that existing item of the caller's, otherwise it creates a new item with
 * the file and the parsed tags. GET lists the active (not deleted) items, newest first.
 * The rules shared with the other upload paths (media type, file type, error messages,
 * creating an item with its tags) live here too.
 */
module MediaApi {

  import opened Wrappers
  import opened Ordering
  import opened Store
  import opened Http
  import DeletedApi

  const EpubMime := "application/epub+zip"
  const PdfMime := "application/pdf"

  /** The content type a file of this kind is uploaded with. */
  function MimeOf(t: FileType): string
  {
    match t
    case Epub => EpubMime
    case Pdf => PdfMime
  }

  /** The two accepted content types, and nothing else; each names its own file type. */
  function UploadFileType(mime: string): (r: Option<FileType>)
    ensures r.Some? <==> mime == EpubMime || mime == PdfMime
    ensures r.Some? ==> MimeOf(r.value) == mime
  {
    if mime == EpubMime then Some(Epub)
    else if mime == PdfMime then Some(Pdf)
    else None
  }

  /** The content type of a file type is accepted, as that file type. */
  lemma MimeRoundTrip(t: FileType)
    ensures UploadFileType(MimeOf(t)) == Some(t)
  {
  }

  function MediaTypeName(t: MediaType): string
  {
    match t
    case Book => "Book"
    case Magazine => "Magazine"
    case Paper => "Paper"
    case Article => "Article"
  }

  const AllowedMediaTypes := ["Book", "Magazine", "Paper", "Article"]

  /** A listed media type is taken as given; anything else, or none, becomes Book. */
  function ValidatedMediaType(s: Option<string>): (r: MediaType)
    ensures s.Some? && s.value in AllowedMediaTypes ==> MediaTypeName(r) == s.value
    ensures !(s.Some? && s.value in AllowedMediaTypes) ==> r == Book
  {
    if s == Some("Magazine") then Magazine
    else if s == Some("Paper") then Paper
    else if s == Some("Article") then Article
    else Book
  }

  /** Every media type survives being written out and validated again. */
  lemma MediaTypeRoundTrip(t: MediaType)
    ensures ValidatedMediaType(Some(MediaTypeName(t))) == t
  {
  }

  /** `normalizedFileType.toUpperCase()` */
  function FileTypeLabel(t: FileType): string
  {
    match t
    case Epub => "EPUB"
    case Pdf => "PDF"
  }

  const MediaNotFound := "Media not found"
  const NotYourMedia := "Forbidden: You can only add files to your own media"

  /** The answer to a refused attach: 404, 403, or 400 naming the file type. */
  function AttachRefusal(a: Attach, t: FileType): (r: Response<Media>)
    requires !a.Attached?
    ensures a == MediaMissing <==> r.Error? && r.status == 404
    ensures a == NotOwner <==> r.Error? && r.status == 403
    ensures a == DuplicateType <==> r.Error? && r.status == 400
  {
    match a
    case MediaMissing => Error(404, MediaNotFound)
    case NotOwner => Error(403, NotYourMedia)
    case DuplicateType => Error(400, "A " + FileTypeLabel(t) + " file already exists for this media")
  }

  /**
   * A new item with its file and tags: the item row and its file row are appended, then
   * the tags field's names are found or created and linked to it.
   */
  method CreateWithTags(db: Library, title: string, author: Option<string>, description: Option<string>,
                        publicationDate: Option<string>, language: Option<string>, mediaType: MediaType,
                        owner: Id, now: int, url: string, t: FileType, tagsField: Option<string>)
    returns (m: Media)
    requires db.Valid()
    modifies db`media, db`files, db`tags, db`mediaTags, db`nextId
    ensures db.Valid()
    ensures m == Media(old(db.nextId), title, author, description, publicationDate, language,
                       mediaType, owner, now, None, None)
    ensures db.media == old(db.media) + [m]
    ensures db.files == old(db.files) + [MediaFile(old(db.nextId) + 1, m.id, url, t)]
    ensures TaggedWith(db, m.id, FieldTagNames(tagsField))
  {
    m := db.CreateMedia(title, author, description, publicationDate, language, mediaType, owner, now, url, t);
    assert m.id in MediaIds(db.media);
    db.LinkTags(m.id, FieldTagNames(tagsField));
  }

  /** The item with this id exists and belongs to `owner`. */
  predicate OwnItem(media: seq<Media>, id: Id, owner: Id)
  {
    exists i :: 0 <= i < |media| && media[i].id == id && media[i].uploadedBy == owner
  }

  /** The item with this id exists and belongs to someone other than `caller`. */
  predicate OthersItem(media: seq<Media>, id: Id, caller: Id)
  {
    exists i :: 0 <= i < |media| && media[i].id == id && media[i].uploadedBy != caller
  }

  /**
   * Adding an uploaded file to an existing item: the refusals of `AttachFile` as 404, 403
   * and 400, or the item the file now belongs to.
   */
  method AttachToExisting(db: Library, caller: Id, mediaId: Id, url: string, t: FileType)
    returns (r: Response<Media>)
    requires db.Valid()
    modifies db`files, db`nextId
    ensures db.Valid()
    ensures r.Error? ==> db.files == old(db.files) && db.nextId == old(db.nextId)
    ensures r.Error? && r.status == 404 <==> mediaId !in MediaIds(db.media)
    ensures r.Error? && r.status == 403 <==> OthersItem(db.media, mediaId, caller)
    ensures r.Error? && r.status == 400 <==> OwnItem(db.media, mediaId, caller) && HasFileOfType(old(db.files), mediaId, t)
    ensures r.Error? && r.status == 404 ==> r.message == MediaNotFound
    ensures r.Error? && r.status == 403 ==> r.message == NotYourMedia
    ensures r.Error? && r.status == 400 ==> r.message == "A " + FileTypeLabel(t) + " file already exists for this media"
    ensures r.Ok? ==> r.body in db.media && r.body.id == mediaId && r.body.uploadedBy == caller
    ensures r.Ok? ==> db.files == old(db.files) + [MediaFile(old(db.nextId), mediaId, url, t)]
  {
    var a := db.AttachFile(caller, mediaId, url, t);
    if !a.Attached? {
      return AttachRefusal(a, t);
    }
    var k := MediaIndex(db.media, mediaId);
    r := Ok(db.media[k.value]);
  }

  datatype FilePart = FilePart(name: string, mimeType: string)

  /** The multipart form of an upload; `None` stands for a missing field. */
  datatype UploadForm = UploadForm(
    file: Option<FilePart>, title: Option<string>, author: Option<string>,
    description: Option<string>, publicationDate: Option<string>, language: Option<string>,
    tags: Option<string>, mediaType: Option<string>, mediaId: Option<Id>)

  /** Signed in, with a file and a title, of an accepted type: the upload goes ahead. */
  predicate Accepted(caller: Option<Id>, form: UploadForm)
  {
    caller.Some? && form.file.Some? && Truthy(form.title) && UploadFileType(form.file.value.mimeType).Some?
  }

  /**
   * POST /api/media. `blobUrl` is where the blob store put the file; `now` is the clock.
   * Refusals change nothing. A `mediaId` adds the file to that item, after the checks of
   * `AttachFile`; otherwise a new item is created, with empty optional fields as null.
   */
  method Post(db: Library, caller: Option<Id>, form: UploadForm, blobUrl: string, now: int)
    returns (r: Response<Media>)
    requires db.Valid()
    modifies db`media, db`files, db`tags, db`mediaTags, db`nextId
    ensures db.Valid()
    ensures caller.None? ==> r == Unauthorized()
    ensures caller.Some? && (form.file.None? || !Truthy(form.title)) ==>
      r == Error(400, "File and title are required")
    ensures caller.Some? && form.file.Some? && Truthy(form.title) && !Accepted(caller, form) ==>
      r == Error(400, "Only EPUB and PDF files are allowed")
    ensures r.Error? ==> unchanged(db)
    ensures Accepted(caller, form) && form.mediaId.None? ==> r.Ok?
    ensures Accepted(caller, form) && form.mediaId.Some? ==>
      db.media == old(db.media) && db.tags == old(db.tags) && db.mediaTags == old(db.mediaTags)
    ensures Accepted(caller, form) && form.mediaId.Some? ==>
      (r.Error? && r.status == 404 <==> form.mediaId.value !in MediaIds(old(db.media)))
    ensures Accepted(caller, form) && form.mediaId.Some? ==>
      (r.Error? && r.status == 403 <==> OthersItem(db.media, form.mediaId.value, caller.value))
    ensures Accepted(caller, form) && form.mediaId.Some? ==>
      (r.Error? && r.status == 400 <==>
       (OwnItem(db.media, form.mediaId.value, caller.value) &&
        HasFileOfType(old(db.files), form.mediaId.value, UploadFileType(form.file.value.mimeType).value)))
    ensures r.Ok? && form.mediaId.Some? ==>
      r.body in db.media && r.body.id == form.mediaId.value && r.body.uploadedBy == caller.value &&
      db.files == old(db.files) + [MediaFile(old(db.nextId), form.mediaId.value, blobUrl,
                                             UploadFileType(form.file.value.mimeType).value)]
    ensures r.Ok? && form.mediaId.None? ==>
      r.body == Media(old(db.nextId), form.title.value, OrNull(form.author), OrNull(form.description),
                      OrNull(form.publicationDate), OrNull(form.language), ValidatedMediaType(form.mediaType),
                      caller.value, now, None, None) &&
      db.media == old(db.media) + [r.body] &&
      db.files == old(db.files) + [MediaFile(old(db.nextId) + 1, r.body.id, blobUrl,
                                             UploadFileType(form.file.value.mimeType).value)] &&
      TaggedWith(db, r.body.id, FieldTagNames(form.tags))
  {
    if caller.None? {
      return Unauthorized();
    }
    if form.file.None? || !Truthy(form.title) {
      return Error(400, "File and title are required");
    }
    if UploadFileType(form.file.value.mimeType).None? {
      return Error(400, "Only EPUB and PDF files are allowed");
    }
    r := StoreUpload(db, caller, form, blobUrl, now);
  }

  /** An accepted upload: added to the named item, or stored as a new item with its tags. */
  method StoreUpload(db: Library, caller: Option<Id>, form: UploadForm, blobUrl: string, now: int)
    returns (r: Response<Media>)
    requires db.Valid() && Accepted(caller, form)
    modifies db`media, db`files, db`tags, db`mediaTags, db`nextId
    ensures db.Valid()
    ensures r.Error? ==> unchanged(db)
    ensures form.mediaId.None? ==> r.Ok?
    ensures form.mediaId.Some? ==>
      db.media == old(db.media) && db.tags == old(db.tags) && db.mediaTags == old(db.mediaTags)
    ensures form.mediaId.Some? ==>
      (r.Error? && r.status == 404 <==> form.mediaId.value !in MediaIds(old(db.media)))
    ensures form.mediaId.Some? ==>
      (r.Error? && r.status == 403 <==> OthersItem(db.media, form.mediaId.value, caller.value))
    ensures form.mediaId.Some? ==>
      (r.Error? && r.status == 400 <==>
       (OwnItem(db.media, form.mediaId.value, caller.value) &&
        HasFileOfType(old(db.files), form.mediaId.value, UploadFileType(form.file.value.mimeType).value)))
    ensures r.Ok? && form.mediaId.Some? ==>
      r.body in db.media && r.body.id == form.mediaId.value && r.body.uploadedBy == caller.value &&
      db.files == old(db.files) + [MediaFile(old(db.nextId), form.mediaId.value, blobUrl,
                                             UploadFileType(form.file.value.mimeType).value)]
    ensures r.Ok? && form.mediaId.None? ==>
      r.body == Media(old(db.nextId), form.title.value, OrNull(form.author), OrNull(form.description),
                      OrNull(form.publicationDate), OrNull(form.language), ValidatedMediaType(form.mediaType),
                      caller.value, now, None, None) &&
      db.media == old(db.media) + [r.body] &&
      db.files == old(db.files) + [MediaFile(old(db.nextId) + 1, r.body.id, blobUrl,
                                             UploadFileType(form.file.value.mimeType).value)] &&
      TaggedWith(db, r.body.id, FieldTagNames(form.tags))
  {
    var t := UploadFileType(form.file.value.mimeType).value;
    if form.mediaId.Some? {
      r := AttachToExisting(db, caller.value, form.mediaId.value, blobUrl, t);
      return;
    }
    var m := CreateWithTags(db, form.title.value, OrNull(form.author), OrNull(form.description),
                            OrNull(form.publicationDate), OrNull(form.language), ValidatedMediaType(form.mediaType),
                            caller.value, now, blobUrl, t, form.tags);
    r := Ok(m);
  }

  function UploadedAt(m: Media): int
  {
    m.uploadedAt
  }

  /** `findMany({ where: { deletedAt: null }, orderBy: { uploadedAt: 'desc' } })` */
  function ActiveMedia(media: seq<Media>): (r: seq<Media>)
    ensures forall i :: 0 <= i < |r| ==> r[i] in media && r[i].deletedAt.None?
    ensures forall i :: 0 <= i < |media| && media[i].deletedAt.None? ==> media[i] in r
    ensures forall i, j :: 0 <= i < j < |r| ==> r[i].uploadedAt >= r[j].uploadedAt
    ensures forall i :: 0 <= i < |media| && media[i].deletedAt.None? ==>
      multiset(r)[media[i]] == multiset(media)[media[i]]
  {
    var r := Listing(media, (m: Media) => m.deletedAt.None?, UploadedAt);
    assert SortedDesc(r, UploadedAt);
    r
  }

  /** GET /api/media: every user sees all active items. */
  function List(db: Library, caller: Option<Id>): (r: Response<seq<Media>>)
    reads db
    ensures caller.None? <==> r == Unauthorized()
    ensures r.Ok? ==> r.body == ActiveMedia(db.media)
  {
    if caller.None? then Unauthorized() else Ok(ActiveMedia(db.media))
  }

  /**
   * The library and the trash split an owner's items: each of them is listed by exactly
   * one of the two.
   */
  lemma LibraryAndTrashSplit(media: seq<Media>, owner: Id, i: nat)
    requires i < |media| && media[i].uploadedBy == owner
    ensures media[i] in ActiveMedia(media) <==> media[i] !in DeletedApi.DeletedBy(media, owner)
  {
    var active := ActiveMedia(media);
    var trash := DeletedApi.DeletedBy(media, owner);
    if media[i] in active {
      var a :| 0 <= a < |active| && active[a] == media[i];
    }
  }
}
