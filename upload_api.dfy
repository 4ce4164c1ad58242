/**
 * The client-upload endpoint. The browser first asks for an upload token: the token
 * carries the caller's id and the item details the client sent, and admits only EPUB and
 * PDF files up to 5 GiB. When the blob store reports the finished upload, the details
 * come back with the token: with a `mediaId` the file is added to that item, otherwise a
 * new item is created, unless a file with the same URL is already stored. Nothing in the
 * completion step answers with an error; a refusal just stops it.
 */
module UploadApi {

  import opened Wrappers
  import opened Store
  import opened Http
  import MediaApi
  import CreateFromBlob

  /** The item details the client may send along; `None` stands for a missing field. */
  datatype Metadata = Metadata(
    mediaId: Option<Id>, title: Option<string>, author: Option<string>,
    description: Option<string>, publicationDate: Option<string>, language: Option<string>,
    mediaType: Option<string>, tags: Option<string>)

  /** `{}` */
  const NoMetadata := Metadata(None, None, None, None, None, None, None, None)

  /** The client payload string: absent, not JSON, or JSON read as item details. */
  datatype ClientPayload = Absent | Unparseable | Parsed(metadata: Metadata)

  /** What the token carries back to the completion step. */
  datatype TokenPayload = TokenPayload(userId: Option<Id>, metadata: Metadata)

  datatype TokenOptions = TokenOptions(
    allowedContentTypes: seq<string>, maximumSizeInBytes: nat, tokenPayload: TokenPayload)

  /** 5 GiB. */
  const MaxUploadBytes: nat := 5 * 1024 * 1024 * 1024

  /** The item details to put in the token: the parsed payload, or none at all. */
  function PayloadMetadata(payload: ClientPayload): (r: Metadata)
    ensures payload.Parsed? ==> r == payload.metadata
    ensures !payload.Parsed? ==> r == NoMetadata
  {
    if payload.Parsed? then payload.metadata else NoMetadata
  }

  /** `onBeforeGenerateToken` for a signed-in caller. */
  function TokenFor(caller: Id, payload: ClientPayload): (r: TokenOptions)
    ensures r.tokenPayload == TokenPayload(Some(caller), PayloadMetadata(payload))
    ensures r.allowedContentTypes == [MediaApi.PdfMime, MediaApi.EpubMime]
    ensures r.maximumSizeInBytes == 5 * 1024 * 1024 * 1024
  {
    TokenOptions([MediaApi.PdfMime, MediaApi.EpubMime], MaxUploadBytes,
                 TokenPayload(Some(caller), PayloadMetadata(payload)))
  }

  /** The token admits exactly the content types the media endpoint accepts. */
  lemma TokenTypesAgree(caller: Id, payload: ClientPayload, mime: string)
    ensures mime in TokenFor(caller, payload).allowedContentTypes <==> MediaApi.UploadFileType(mime).Some?
  {
  }

  /** The two requests the handler serves: a token request, and the completion report. */
  datatype UploadEvent =
    | TokenRequest(clientPayload: ClientPayload)
    | UploadCompleted(tokenPayload: Option<TokenPayload>, contentType: Option<string>, downloadUrl: string)

  datatype UploadReply = Token(options: TokenOptions) | Acknowledged

  /** What the completion step did; the handler answers the same whatever it was. */
  datatype Completion =
    | NoUser
    | AttachedFile(file: MediaFile)
    | AttachSkipped(reason: Attach)
    | AlreadyStored
    | CreatedMedia(item: Media)

  /** Some stored file already has this URL (`mediaFile.findFirst({ where: { fileUrl } })`). */
  predicate UrlStored(files: seq<MediaFile>, url: string)
  {
    exists i :: 0 <= i < |files| && files[i].fileUrl == url
  }

  /**
   * What the completion step for `url`, reported at `now`, did to the store and what it
   * answered: no user, a refused or performed attach to an existing item, a URL already
   * stored, or a new item with its file and tags. A refusal or a stored URL changes nothing.
   */
  twostate predicate Completed(db: Library, tokenPayload: Option<TokenPayload>, contentType: Option<string>,
                               url: string, now: int, c: Completion)
    reads db
  {
    (tokenPayload.None? || tokenPayload.value.userId.None? <==> c == NoUser) &&
    (c == NoUser || c == AlreadyStored || c.AttachSkipped? ==> unchanged(db)) &&
    (c.AttachSkipped? ==> !c.reason.Attached?) &&
    (c.AttachedFile? || c.AttachSkipped? ==>
       db.media == old(db.media) && db.tags == old(db.tags) && db.mediaTags == old(db.mediaTags)) &&
    (c != NoUser ==>
       var user := tokenPayload.value.userId.value;
       var meta := tokenPayload.value.metadata;
       var t := CreateFromBlob.BlobFileType(contentType);
       (meta.mediaId.Some? ==> c.AttachedFile? || c.AttachSkipped?) &&
       (meta.mediaId.None? ==> c == AlreadyStored || c.CreatedMedia?) &&
       (meta.mediaId.Some? ==>
         (c == AttachSkipped(MediaMissing) <==> meta.mediaId.value !in MediaIds(old(db.media))) &&
         (c == AttachSkipped(NotOwner) <==> MediaApi.OthersItem(old(db.media), meta.mediaId.value, user)) &&
         (c == AttachSkipped(DuplicateType) <==>
          (MediaApi.OwnItem(old(db.media), meta.mediaId.value, user) &&
           HasFileOfType(old(db.files), meta.mediaId.value, t))) &&
         (c.AttachedFile? ==>
           MediaApi.OwnItem(old(db.media), meta.mediaId.value, user) &&
           c.file == MediaFile(old(db.nextId), meta.mediaId.value, url, t) &&
           db.files == old(db.files) + [c.file])) &&
       (meta.mediaId.None? ==> (c == AlreadyStored <==> UrlStored(old(db.files), url))) &&
       (meta.mediaId.None? && !UrlStored(old(db.files), url) ==>
         c.CreatedMedia? &&
         c.item == Media(old(db.nextId), OrDefault(meta.title, "Untitled"), OrNull(meta.author),
                         OrNull(meta.description), OrNull(meta.publicationDate), OrNull(meta.language),
                         MediaApi.ValidatedMediaType(meta.mediaType), user, now, None, None) &&
         db.media == old(db.media) + [c.item] &&
         db.files == old(db.files) + [MediaFile(old(db.nextId) + 1, c.item.id, url, t)] &&
         TaggedWith(db, c.item.id, FieldTagNames(meta.tags))))
  }

  /**
   * `onUploadCompleted`, at time `now`. `tokenPayload` is `None` when there is none to
   * read. The file type is EPUB exactly for the EPUB content type, as in the blob path.
   */
  method OnUploadCompleted(db: Library, tokenPayload: Option<TokenPayload>, contentType: Option<string>,
                           url: string, now: int)
    returns (c: Completion)
    requires db.Valid()
    modifies db`media, db`files, db`tags, db`mediaTags, db`nextId
    ensures db.Valid()
    ensures Completed(db, tokenPayload, contentType, url, now, c)
  {
    if tokenPayload.None? || tokenPayload.value.userId.None? {
      return NoUser;
    }
    var user := tokenPayload.value.userId.value;
    var meta := tokenPayload.value.metadata;
    var t := CreateFromBlob.BlobFileType(contentType);
    if meta.mediaId.Some? {
      var a := db.AttachFile(user, meta.mediaId.value, url, t);
      if a.Attached? {
        return AttachedFile(a.file);
      }
      return AttachSkipped(a);
    }
    var k := Ordering.FirstIndex(db.files, (f: MediaFile) => f.fileUrl == url);
    if k.Some? {
      return AlreadyStored;
    }
    var m := MediaApi.CreateWithTags(db, OrDefault(meta.title, "Untitled"), OrNull(meta.author),
                                     OrNull(meta.description), OrNull(meta.publicationDate),
                                     OrNull(meta.language), MediaApi.ValidatedMediaType(meta.mediaType),
                                     user, now, url, t, meta.tags);
    c := CreatedMedia(m);
  }

  /**
   * The same completion reported twice (the webhook and an explicit call): the second
   * report adds nothing, so at most one item and one file come of it.
   */
  method CompletedTwice(db: Library, tokenPayload: Option<TokenPayload>, contentType: Option<string>,
                        url: string, now: int)
    returns (first: Completion, second: Completion)
    requires db.Valid()
    modifies db`media, db`files, db`tags, db`mediaTags, db`nextId
    ensures db.Valid()
    ensures !second.CreatedMedia? && !second.AttachedFile?
    ensures |db.media| <= |old(db.media)| + 1 && |db.files| <= |old(db.files)| + 1
  {
    first := OnUploadCompleted(db, tokenPayload, contentType, url, now);
    if first.CreatedMedia? {
      assert db.files[|db.files| - 1].fileUrl == url;
    }
    if first.AttachedFile? {
      var last := |db.files| - 1;
      assert db.files[last] == first.file;
      assert HasFileOfType(db.files, db.files[last].mediaId, db.files[last].fileType);
    }
    assert Settled(db.media, db.files, tokenPayload, contentType, url);
    second := CompletedAgain(db, tokenPayload, contentType, url, now);
  }

  /** A report that the stored rows already answer: no user, a refused attach, or a stored URL. */
  predicate Settled(media: seq<Media>, files: seq<MediaFile>, tokenPayload: Option<TokenPayload>,
                    contentType: Option<string>, url: string)
  {
    tokenPayload.None? || tokenPayload.value.userId.None? ||
    var user := tokenPayload.value.userId.value;
    var meta := tokenPayload.value.metadata;
    (meta.mediaId.Some? ==>
      meta.mediaId.value !in MediaIds(media) || MediaApi.OthersItem(media, meta.mediaId.value, user) ||
      HasFileOfType(files, meta.mediaId.value, CreateFromBlob.BlobFileType(contentType))) &&
    (meta.mediaId.None? ==> UrlStored(files, url))
  }

  /** A report arriving once the rows are settled changes nothing. */
  method CompletedAgain(db: Library, tokenPayload: Option<TokenPayload>, contentType: Option<string>,
                        url: string, now: int)
    returns (c: Completion)
    requires db.Valid() && Settled(db.media, db.files, tokenPayload, contentType, url)
    modifies db`media, db`files, db`tags, db`mediaTags, db`nextId
    ensures db.Valid()
    ensures !c.CreatedMedia? && !c.AttachedFile?
    ensures unchanged(db)
  {
    c := OnUploadCompleted(db, tokenPayload, contentType, url, now);
  }

  /**
   * POST /api/upload. Without a session the answer is 401 and nothing changes; a token
   * request is answered with the token options; a completion report runs the completion
   * step and is acknowledged whatever it did.
   */
  method Post(db: Library, caller: Option<Id>, event: UploadEvent, now: int)
    returns (r: Response<UploadReply>, c: Completion)
    requires db.Valid()
    modifies db`media, db`files, db`tags, db`mediaTags, db`nextId
    ensures db.Valid()
    ensures caller.None? ==> r == Unauthorized() && unchanged(db)
    ensures caller.Some? && event.TokenRequest? ==>
      r == Ok(Token(TokenFor(caller.value, event.clientPayload))) && unchanged(db)
    ensures caller.None? || event.TokenRequest? ==> c == NoUser
    ensures caller.Some? && event.UploadCompleted? ==>
      r == Ok(Acknowledged) && Completed(db, event.tokenPayload, event.contentType, event.downloadUrl, now, c)
  {
    c := NoUser;
    if caller.None? {
      return Unauthorized(), c;
    }
    match event {
      case TokenRequest(payload) =>
        r := Ok(Token(TokenFor(caller.value, payload)));
      case UploadCompleted(tokenPayload, contentType, url) =>
        c := OnUploadCompleted(db, tokenPayload, contentType, url, now);
        r := Ok(Acknowledged);
    }
  }
}
