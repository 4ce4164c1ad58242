/**
 * The relational store behind the library, as one object: each table is a sequence of
 * rows in insertion order, each many-to-many relation a set of id pairs. Row ids come
 * from one counter, so every id handed out is fresh.
 */
module Store {

  import opened Wrappers
  import opened Ordering
  import opened TagParsing

  type Id = nat

  /** Milliseconds in a day: every date computation uses a fixed-length day. */
  const DayMs: int := 86_400_000

  datatype FileType = Epub | Pdf

  datatype MediaType = Book | Magazine | Paper | Article

  datatype Invitation = Invitation(
    id: Id, token: string, email: Option<string>, createdBy: Id,
    createdAt: int, expiresAt: int, usedAt: Option<int>)

  datatype Media = Media(
    id: Id, title: string, author: Option<string>, description: Option<string>,
    publicationDate: Option<string>, language: Option<string>, mediaType: MediaType,
    uploadedBy: Id, uploadedAt: int, deletedAt: Option<int>, coverUrl: Option<string>)

  datatype MediaFile = MediaFile(id: Id, mediaId: Id, fileUrl: string, fileType: FileType)

  datatype Tag = Tag(id: Id, name: string)

  datatype Collection = Collection(id: Id, name: string, description: Option<string>, userId: Id)

  /** A row of the legacy single-file book table. */
  datatype LegacyBook = LegacyBook(
    id: Id, title: string, author: Option<string>, description: Option<string>,
    fileUrl: string, fileType: FileType, uploadedBy: Id, uploadedAt: int)

  function MediaIds(media: seq<Media>): set<Id>
  {
    set m | m in media :: m.id
  }

  function TagIds(tags: seq<Tag>): set<Id>
  {
    set t | t in tags :: t.id
  }

  function TagNames(tags: seq<Tag>): set<string>
  {
    set t | t in tags :: t.name
  }

  /** The position of the media row with the given id (`findUnique({ where: { id } })`). */
  function MediaIndex(media: seq<Media>, id: Id): (r: Option<nat>)
    ensures r.Some? ==> r.value < |media| && media[r.value].id == id
    ensures r.None? ==> id !in MediaIds(media)
  {
    var r := FirstIndex(media, (m: Media) => m.id == id);
    assert r.None? ==> forall m :: m in media ==> m.id != id;
    r
  }

  /** The position of the tag row with the given name (`findUnique({ where: { name } })`). */
  function TagIndex(tags: seq<Tag>, name: string): (r: Option<nat>)
    ensures r.Some? ==> r.value < |tags| && tags[r.value].name == name
    ensures r.None? ==> name !in TagNames(tags)
  {
    var r := FirstIndex(tags, (t: Tag) => t.name == name);
    assert r.None? ==> forall t :: t in tags ==> t.name != name;
    r
  }

  /** The media item already has a file of this type. */
  predicate HasFileOfType(files: seq<MediaFile>, mediaId: Id, t: FileType)
  {
    exists i :: 0 <= i < |files| && files[i].mediaId == mediaId && files[i].fileType == t
  }

  // ---- table invariants: unique ids below the counter, and the unique constraints ----

  ghost predicate InvitationsOk(invs: seq<Invitation>, bound: nat)
  {
    (forall i :: 0 <= i < |invs| ==> invs[i].id < bound) &&
    (forall i, j :: 0 <= i < j < |invs| ==> invs[i].id != invs[j].id && invs[i].token != invs[j].token)
  }

  ghost predicate MediaOk(media: seq<Media>, bound: nat)
  {
    (forall i :: 0 <= i < |media| ==> media[i].id < bound) &&
    (forall i, j :: 0 <= i < j < |media| ==> media[i].id != media[j].id)
  }

  /** At most one file of each type per media item. */
  ghost predicate OneFilePerType(files: seq<MediaFile>)
  {
    forall i, j :: 0 <= i < j < |files| && files[i].mediaId == files[j].mediaId ==>
      files[i].fileType != files[j].fileType
  }

  ghost predicate FilesOk(files: seq<MediaFile>, media: seq<Media>, bound: nat)
  {
    (forall i :: 0 <= i < |files| ==> files[i].id < bound && files[i].mediaId in MediaIds(media)) &&
    (forall i, j :: 0 <= i < j < |files| ==> files[i].id != files[j].id) &&
    OneFilePerType(files)
  }

  /** Ids below the counter, and tag names globally unique. */
  ghost predicate TagsOk(tags: seq<Tag>, bound: nat)
  {
    (forall i :: 0 <= i < |tags| ==> tags[i].id < bound) &&
    (forall i, j :: 0 <= i < j < |tags| ==> tags[i].id != tags[j].id && tags[i].name != tags[j].name)
  }

  /** Collection names unique per owner. */
  ghost predicate CollectionsOk(cs: seq<Collection>, bound: nat)
  {
    (forall i :: 0 <= i < |cs| ==> cs[i].id < bound) &&
    (forall i, j :: 0 <= i < j < |cs| ==>
      cs[i].id != cs[j].id && (cs[i].name, cs[i].userId) != (cs[j].name, cs[j].userId))
  }

  ghost predicate BooksOk(books: seq<LegacyBook>, bound: nat)
  {
    (forall i :: 0 <= i < |books| ==> books[i].id < bound) &&
    (forall i, j :: 0 <= i < j < |books| ==> books[i].id != books[j].id)
  }

  /** Every table's invariant, with `bound` the id counter. */
  ghost predicate RowsOk(invitations: seq<Invitation>, media: seq<Media>, files: seq<MediaFile>, tags: seq<Tag>,
                         collections: seq<Collection>, books: seq<LegacyBook>, bound: nat)
  {
    InvitationsOk(invitations, bound) && MediaOk(media, bound) && FilesOk(files, media, bound) &&
    TagsOk(tags, bound) && CollectionsOk(collections, bound) && BooksOk(books, bound)
  }

  /** Every link row joins two rows that exist. */
  ghost predicate LinksOk(links: set<(Id, Id)>, left: set<Id>, right: set<Id>)
  {
    forall l :: l in links ==> l.0 in left && l.1 in right
  }

  /**
   * The tags after find-or-create for the first `n` names, from `tags0` with counter `id0`:
   * one tag found per name, the old tags kept, and each new tag made for one of those
   * names not among the old ones, under a fresh id.
   */
  ghost predicate Grown(tags0: seq<Tag>, id0: Id, tags: seq<Tag>, nextId: Id, names: seq<string>, n: nat, found: seq<Tag>)
  {
    n <= |names| && |found| == n &&
    (forall i :: 0 <= i < n ==> found[i].name == names[i] && found[i] in tags) &&
    tags0 <= tags &&
    (forall i :: |tags0| <= i < |tags| ==>
      tags[i].name in names[..n] && tags[i].name !in TagNames(tags0) && id0 <= tags[i].id) &&
    nextId == id0 + (|tags| - |tags0|)
  }

  /** Finding or making the tag of the next name extends the growth by that name. */
  lemma GrownStep(tags0: seq<Tag>, id0: Id, before: seq<Tag>, beforeId: Id, tags: seq<Tag>, nextId: Id,
                  names: seq<string>, n: nat, found: seq<Tag>, tag: Tag)
    requires n < |names| && Grown(tags0, id0, before, beforeId, names, n, found)
    requires tag.name == names[n] && tag in tags
    requires names[n] in TagNames(before) ==> tags == before && nextId == beforeId
    requires names[n] !in TagNames(before) ==>
      tag == Tag(beforeId, names[n]) && tags == before + [tag] && nextId == beforeId + 1
    ensures Grown(tags0, id0, tags, nextId, names, n + 1, found + [tag])
  {
    assert names[..n + 1] == names[..n] + [names[n]];
    assert forall i :: 0 <= i < |before| ==> tags[i] == before[i];
    if names[n] !in TagNames(before) {
      assert names[n] !in TagNames(tags0);
    }
  }

  class Library {
    /** Registered users, keyed by email (the auth adapter's user table). */
    var users: map<string, Id>
    var invitations: seq<Invitation>
    var media: seq<Media>
    var files: seq<MediaFile>
    var tags: seq<Tag>
    /** (media id, tag id) */
    var mediaTags: set<(Id, Id)>
    var collections: seq<Collection>
    /** (collection id, media id) */
    var collectionMedia: set<(Id, Id)>
    var books: seq<LegacyBook>
    /** (book id, tag id) */
    var bookTags: set<(Id, Id)>
    /** Every blob deletion requested of the blob store, in order; none is performed here. */
    var blobDeletes: seq<string>
    /** The next fresh row id. */
    var nextId: nat

    /** The table invariants, and every link row joining rows that exist. */
    ghost predicate Valid()
      reads this
    {
      RowsOk(invitations, media, files, tags, collections, books, nextId) &&
      LinksOk(mediaTags, MediaIds(media), TagIds(tags)) &&
      LinksOk(collectionMedia, CollectionIds(collections), MediaIds(media)) &&
      LinksOk(bookTags, BookIds(books), TagIds(tags))
    }

    /** An empty library whose only rows are the given users. */
    constructor (users: map<string, Id>)
      ensures Valid()
      ensures this.users == users
      ensures invitations == [] && media == [] && files == [] && tags == []
      ensures collections == [] && books == [] && blobDeletes == []
      ensures mediaTags == {} && collectionMedia == {} && bookTags == {}
    {
      this.users := users;
      invitations, media, files, tags := [], [], [], [];
      collections, books, blobDeletes := [], [], [];
      mediaTags, collectionMedia, bookTags := {}, {}, {};
      nextId := 0;
    }

    /** A fresh row id (the database's id default). */
    method NewId() returns (id: Id)
      requires Valid()
      modifies this`nextId
      ensures Valid()
      ensures id == old(nextId) && nextId == old(nextId) + 1
    {
      id := nextId;
      nextId := nextId + 1;
    }

    /**
     * Adding a file to an existing media item: the item must exist (404), belong to the
     * caller (403) and not have a file of this type yet (400); only then is one file row added.
     */
    method AttachFile(caller: Id, mediaId: Id, url: string, t: FileType) returns (r: Attach)
      requires Valid()
      modifies this`files, this`nextId
      ensures Valid()
      ensures r == MediaMissing <==> mediaId !in MediaIds(old(media))
      ensures r == NotOwner <==>
        exists i :: 0 <= i < |media| && media[i].id == mediaId && media[i].uploadedBy != caller
      ensures r == DuplicateType <==>
        (exists i :: 0 <= i < |media| && media[i].id == mediaId && media[i].uploadedBy == caller) &&
        HasFileOfType(old(files), mediaId, t)
        ensures r.Attached? ==> r.file == MediaFile(old(nextId), mediaId, url, t)
      ensures files == if r.Attached? then old(files) + [r.file] else old(files)
      ensures !r.Attached? ==> nextId == old(nextId)
    {
      var k := MediaIndex(media, mediaId);
      if k.None? {
        return MediaMissing;
      }
      if media[k.value].uploadedBy != caller {
        return NotOwner;
      }
      if HasFileOfType(files, mediaId, t) {
        return DuplicateType;
      }
      var f := AddFile(mediaId, url, t);
      r := Attached(f);
    }

    /** A new invitation row, under a token no invitation has yet (the unique constraint). */
    method AddInvitation(token: string, email: Option<string>, createdBy: Id, createdAt: int, expiresAt: int)
      returns (inv: Invitation)
      requires Valid()
      requires forall i :: 0 <= i < |invitations| ==> invitations[i].token != token
      modifies this`invitations, this`nextId
      ensures Valid()
      ensures inv == Invitation(old(nextId), token, email, createdBy, createdAt, expiresAt, None)
      ensures invitations == old(invitations) + [inv] && nextId == old(nextId) + 1
    {
      var id := NewId();
      inv := Invitation(id, token, email, createdBy, createdAt, expiresAt, None);
      invitations := invitations + [inv];
    }

    /** A new collection row, under a (name, owner) pair not in use yet. */
    method AddCollection(name: string, description: Option<string>, userId: Id) returns (c: Collection)
      requires Valid()
      requires forall i :: 0 <= i < |collections| ==> (collections[i].name, collections[i].userId) != (name, userId)
      modifies this`collections, this`nextId
      ensures Valid()
      ensures c == Collection(old(nextId), name, description, userId)
      ensures collections == old(collections) + [c] && nextId == old(nextId) + 1
      ensures c.id !in CollectionIds(old(collections))
    {
      var id := NewId();
      c := Collection(id, name, description, userId);
      collections := collections + [c];
    }

    /** A new row of the legacy book table. */
    method AddBook(title: string, author: Option<string>, description: Option<string>, fileUrl: string,
                   fileType: FileType, uploadedBy: Id, uploadedAt: int)
      returns (b: LegacyBook)
      requires Valid()
      modifies this`books, this`nextId
      ensures Valid()
      ensures b == LegacyBook(old(nextId), title, author, description, fileUrl, fileType, uploadedBy, uploadedAt)
      ensures books == old(books) + [b] && nextId == old(nextId) + 1
    {
      var id := NewId();
      b := LegacyBook(id, title, author, description, fileUrl, fileType, uploadedBy, uploadedAt);
      books := books + [b];
    }

    /** One step of the legacy book's tag loop: find or create the tag, then connect it to the book. */
    method LinkBookTag(bookId: Id, name: string) returns (tag: Tag)
      requires Valid() && bookId in BookIds(books)
      modifies this`tags, this`nextId, this`bookTags
      ensures Valid()
      ensures tag.name == name && tag in tags
      ensures old(tags) <= tags && forall i :: |old(tags)| <= i < |tags| ==> tags[i].name == name
      ensures bookTags == old(bookTags) + {(bookId, tag.id)}
    {
      tag := UpsertTag(name);
      bookTags := bookTags + {(bookId, tag.id)};
    }

    /** One more file row for an existing media item that has no file of that type. */
    method AddFile(mediaId: Id, url: string, t: FileType) returns (f: MediaFile)
      requires Valid()
      requires mediaId in MediaIds(media) && !HasFileOfType(files, mediaId, t)
      modifies this`files, this`nextId
      ensures Valid()
      ensures f == MediaFile(old(nextId), mediaId, url, t)
      ensures files == old(files) + [f] && nextId == old(nextId) + 1
    {
      var id := NewId();
      f := MediaFile(id, mediaId, url, t);
      files := files + [f];
    }

    /** A new, active media row with its first file (`media.create` with a nested file). */
    method CreateMedia(
      title: string, author: Option<string>, description: Option<string>,
      publicationDate: Option<string>, language: Option<string>, mediaType: MediaType,
      owner: Id, now: int, url: string, t: FileType)
      returns (m: Media)
      requires Valid()
      modifies this`media, this`files, this`nextId
      ensures Valid()
      ensures m == Media(old(nextId), title, author, description, publicationDate, language,
                         mediaType, owner, now, None, None)
      ensures media == old(media) + [m]
      ensures files == old(files) + [MediaFile(old(nextId) + 1, m.id, url, t)]
      ensures nextId == old(nextId) + 2
    {
      m := Media(nextId, title, author, description, publicationDate, language, mediaType, owner, now, None, None);
      AddMediaRow(m);
      var f := AddFile(m.id, url, t);
    }

    /** Appends a media row under the fresh id it carries. */
    method AddMediaRow(m: Media)
      requires Valid() && m.id == nextId
      modifies this`media, this`nextId
      ensures Valid()
      ensures media == old(media) + [m] && nextId == old(nextId) + 1
      ensures m.id in MediaIds(media) && !HasFileOfType(files, m.id, Epub) && !HasFileOfType(files, m.id, Pdf)
    {
      assert forall f :: f in files ==> f.mediaId in MediaIds(media);
      assert m.id !in MediaIds(media);
      media := media + [m];
      nextId := nextId + 1;
      assert MediaIds(media) == MediaIds(old(media)) + {m.id};
    }

    /** `tag.upsert` by name: the existing tag of that name, or a fresh one appended. */
    method UpsertTag(name: string) returns (tag: Tag)
      requires Valid()
      modifies this`tags, this`nextId
      ensures Valid()
      ensures tag.name == name && tag in tags
      ensures name in TagNames(old(tags)) ==> tags == old(tags) && nextId == old(nextId)
      ensures name !in TagNames(old(tags)) ==>
        tag == Tag(old(nextId), name) && tags == old(tags) + [tag] && nextId == old(nextId) + 1
    {
      var k := TagIndex(tags, name);
      if k.Some? {
        return tags[k.value];
      }
      var id := NewId();
      tag := Tag(id, name);
      tags := tags + [tag];
    }

    /**
     * Find-or-create for every name, one after another. Old tags stay as they are, every
     * name ends up with a tag, and a new tag is only made for a name not seen before.
     */
    method UpsertTags(names: seq<string>) returns (found: seq<Tag>)
      requires Valid()
      modifies this`tags, this`nextId
      ensures Valid()
      ensures |found| == |names|
      ensures forall i :: 0 <= i < |names| ==> found[i].name == names[i] && found[i] in tags
      ensures old(tags) <= tags
      ensures forall i :: |old(tags)| <= i < |tags| ==>
        tags[i].name in names && tags[i].name !in TagNames(old(tags)) && old(nextId) <= tags[i].id
      ensures nextId == old(nextId) + (|tags| - |old(tags)|)
    {
      found := [];
      var n := 0;
      while n < |names|
        invariant TagsGrown(old(tags), old(nextId), names, n, found)
      {
        var tag := UpsertNext(old(tags), old(nextId), names, n, found);
        found := found + [tag];
        n := n + 1;
      }
      assert names[..n] == names;
    }

    /** The state of `UpsertTags` after the first `n` names. */
    ghost predicate TagsGrown(tags0: seq<Tag>, id0: Id, names: seq<string>, n: nat, found: seq<Tag>)
      reads this
    {
      Valid() && Grown(tags0, id0, tags, nextId, names, n, found)
    }

    /** One turn of `UpsertTags`: the tag of name `n`. */
    method UpsertNext(ghost tags0: seq<Tag>, ghost id0: Id, names: seq<string>, n: nat, found: seq<Tag>)
      returns (tag: Tag)
      requires n < |names| && TagsGrown(tags0, id0, names, n, found)
      modifies this`tags, this`nextId
      ensures TagsGrown(tags0, id0, names, n + 1, found + [tag])
    {
      ghost var before, beforeId := tags, nextId;
      tag := UpsertTag(names[n]);
      GrownStep(tags0, id0, before, beforeId, tags, nextId, names, n, found, tag);
    }

    /**
     * `media.deleteMany({ where: { id: { in: ids } } })`, with the item's files, tag links
     * and collection entries removed alongside. `count` is the number of media rows removed.
     */
    method DeleteMedia(ids: set<Id>) returns (count: nat)
      requires Valid()
      modifies this`media, this`files, this`mediaTags, this`collectionMedia
      ensures Valid()
      ensures media == Filter(old(media), MediaOutside(ids))
      ensures files == Filter(old(files), FileOutside(ids))
      ensures mediaTags == set l | l in old(mediaTags) && l.0 !in ids
      ensures collectionMedia == set l | l in old(collectionMedia) && l.1 !in ids
      ensures MediaIds(media) == MediaIds(old(media)) - ids
      ensures count == |old(media)| - |media|
    {
      DropMediaLinks(ids);
      count := DeleteMediaRows(ids);
    }

    /** The first half of `DeleteMedia`: the tag links and collection entries of the items go. */
    method DropMediaLinks(ids: set<Id>)
      requires Valid()
      modifies this`mediaTags, this`collectionMedia
      ensures Valid()
      ensures mediaTags == set l | l in old(mediaTags) && l.0 !in ids
      ensures collectionMedia == set l | l in old(collectionMedia) && l.1 !in ids
    {
      mediaTags := set l | l in mediaTags && l.0 !in ids;
      collectionMedia := set l | l in collectionMedia && l.1 !in ids;
    }

    /** The second half of `DeleteMedia`: once nothing links to them, the rows and their files go. */
    method DeleteMediaRows(ids: set<Id>) returns (count: nat)
      requires Valid()
      requires forall l :: l in mediaTags ==> l.0 !in ids
      requires forall l :: l in collectionMedia ==> l.1 !in ids
      modifies this`media, this`files
      ensures Valid()
      ensures media == Filter(old(media), MediaOutside(ids))
      ensures files == Filter(old(files), FileOutside(ids))
      ensures MediaIds(media) == MediaIds(old(media)) - ids
      ensures count == |old(media)| - |media|
    {
      var keptMedia := Filter(media, MediaOutside(ids));
      var keptFiles := Filter(files, FileOutside(ids));
      KeptRowsOk(media, files, mediaTags, collectionMedia, TagIds(tags), CollectionIds(collections), ids, nextId);
      count := |media| - |keptMedia|;
      media := keptMedia;
      files := keptFiles;
    }

    /** `media.update({ data: { tags: { connect } } })`: links the media item to each tag. */
    method ConnectMediaTags(mediaId: Id, found: seq<Tag>)
      requires Valid() && mediaId in MediaIds(media)
      requires forall i :: 0 <= i < |found| ==> found[i] in tags
      modifies this`mediaTags
      ensures Valid()
      ensures mediaTags == old(mediaTags) + (set t | t in found :: (mediaId, t.id))
    {
      mediaTags := mediaTags + (set t | t in found :: (mediaId, t.id));
    }

    /**
     * The tag step of creating a media item: the names parsed from its tags field are
     * found or created and all linked to the item. Each name ends with one tag, linked;
     * the only new links are the item's, to tags of those names.
     */
    method LinkTags(mediaId: Id, names: seq<string>)
      requires Valid() && mediaId in MediaIds(media)
      modifies this`tags, this`nextId, this`mediaTags
      ensures Valid()
      ensures TaggedWith(this, mediaId, names)
      ensures names == [] ==> nextId == old(nextId)
    {
      if |names| > 0 {
        var found := UpsertTags(names);
        ghost var before := mediaTags;
        ConnectMediaTags(mediaId, found);
        NamesLinked(tags, before, mediaTags, mediaId, names, found);
      }
    }
  }

  /** A form field the source tests for truthiness: present and not the empty string. */
  predicate Truthy(s: Option<string>)
  {
    s.Some? && s.value != []
  }

  /** `x || null`: an empty or missing text field is stored as null. */
  function OrNull(s: Option<string>): (r: Option<string>)
    ensures r.Some? <==> Truthy(s)
    ensures r.Some? ==> r == s
  {
    if Truthy(s) then s else None
  }

  /** `x || fallback` for a text field: a present, non-empty value, or the fallback. */
  function OrDefault(s: Option<string>, fallback: string): (r: string)
    ensures Truthy(s) ==> r == s.value
    ensures !Truthy(s) ==> r == fallback
  {
    if Truthy(s) then s.value else fallback
  }

  /** The names a tags form field yields: none when it is missing or empty. */
  function FieldTagNames(field: Option<string>): (r: seq<string>)
    ensures !Truthy(field) ==> r == []
    ensures Truthy(field) ==> r == ParseTagNames(field.value)
    ensures forall i :: 0 <= i < |r| ==> CleanName(r[i])
  {
    if Truthy(field) then
      ParseTagNamesSound(field.value);
      ParseTagNames(field.value)
    else []
  }

  /** The rows `deleteMany` keeps: those whose id is not among the deleted ones. */
  function MediaOutside(ids: set<Id>): Media -> bool
  {
    (m: Media) => m.id !in ids
  }

  /** The file rows of the kept media items. */
  function FileOutside(ids: set<Id>): MediaFile -> bool
  {
    (f: MediaFile) => f.mediaId !in ids
  }

  /** Deleting media rows keeps the media invariant and removes exactly those ids. */
  lemma KeptMediaOk(media: seq<Media>, ids: set<Id>, bound: nat)
    requires MediaOk(media, bound)
    ensures MediaOk(Filter(media, MediaOutside(ids)), bound)
    ensures MediaIds(Filter(media, MediaOutside(ids))) == MediaIds(media) - ids
  {
    var kept := Filter(media, MediaOutside(ids));
    FilterPairwise(media, MediaOutside(ids), (x: Media, y: Media) => x.id != y.id);
    forall id | id in MediaIds(media) - ids ensures id in MediaIds(kept) {
      var a :| 0 <= a < |media| && media[a].id == id;
    }
  }

  /**
   * Deleting the media rows with ids in `ids`, and their files, once no link names them:
   * the media and file invariants still hold and every link still joins existing rows.
   */
  lemma KeptRowsOk(media: seq<Media>, files: seq<MediaFile>, mediaTags: set<(Id, Id)>,
                   collectionMedia: set<(Id, Id)>, tagIds: set<Id>, collectionIds: set<Id>, ids: set<Id>, bound: nat)
    requires MediaOk(media, bound) && FilesOk(files, media, bound)
    requires LinksOk(mediaTags, MediaIds(media), tagIds) && LinksOk(collectionMedia, collectionIds, MediaIds(media))
    requires forall l :: l in mediaTags ==> l.0 !in ids
    requires forall l :: l in collectionMedia ==> l.1 !in ids
    ensures var kept := Filter(media, MediaOutside(ids));
      MediaOk(kept, bound) && FilesOk(Filter(files, FileOutside(ids)), kept, bound) &&
      MediaIds(kept) == MediaIds(media) - ids &&
      LinksOk(mediaTags, MediaIds(kept), tagIds) && LinksOk(collectionMedia, collectionIds, MediaIds(kept))
  {
    KeptMediaOk(media, ids, bound);
    KeptFilesOk(files, media, ids, bound);
  }

  /** Deleting the files of the deleted media keeps the file invariant. */
  lemma KeptFilesOk(files: seq<MediaFile>, media: seq<Media>, ids: set<Id>, bound: nat)
    requires FilesOk(files, media, bound) && MediaOk(media, bound)
    ensures FilesOk(Filter(files, FileOutside(ids)), Filter(media, MediaOutside(ids)), bound)
  {
    var kept := Filter(files, FileOutside(ids));
    KeptMediaOk(media, ids, bound);
    FilterPairwise(files, FileOutside(ids), (x: MediaFile, y: MediaFile) =>
      x.id != y.id && (x.mediaId == y.mediaId ==> x.fileType != y.fileType));
    forall i | 0 <= i < |kept| ensures kept[i].mediaId in MediaIds(Filter(media, MediaOutside(ids))) {
      var a :| 0 <= a < |files| && files[a] == kept[i];
    }
  }

  /** Linking `owner` to the tags `found` for `names`: each name is linked, and only they are. */
  lemma NamesLinked(tags: seq<Tag>, links0: set<(Id, Id)>, links: set<(Id, Id)>, owner: Id,
                    names: seq<string>, found: seq<Tag>)
    requires |found| == |names|
    requires forall i :: 0 <= i < |names| ==> found[i].name == names[i] && found[i] in tags
    requires links == links0 + set t | t in found :: (owner, t.id)
    ensures forall n :: n in names ==> exists t :: t in tags && t.name == n && (owner, t.id) in links
    ensures forall l :: l in links && l !in links0 ==>
      l.0 == owner && exists t :: t in tags && t.id == l.1 && t.name in names
  {
    forall n | n in names ensures exists t :: t in tags && t.name == n && (owner, t.id) in links {
      var i :| 0 <= i < |names| && names[i] == n;
      assert found[i] in found;
    }
    forall l | l in links && l !in links0
      ensures l.0 == owner && exists t :: t in tags && t.id == l.1 && t.name in names
    {
      var t :| t in found && l == (owner, t.id);
      var i :| 0 <= i < |found| && found[i] == t;
      assert t.name == names[i];
    }
  }

  /**
   * After the tag step for item `mediaId` with `names`: no tag or link was lost, every new
   * tag bears one of the names, each name has its tag, linked to the item, and every new
   * link joins the item to one of those tags; with no names, tags and links are as they were.
   */
  twostate predicate TaggedWith(db: Library, mediaId: Id, names: seq<string>)
    reads db
  {
    old(db.tags) <= db.tags && old(db.mediaTags) <= db.mediaTags &&
    (forall i :: |old(db.tags)| <= i < |db.tags| ==> db.tags[i].name in names) &&
    (forall n :: n in names ==> exists t :: t in db.tags && t.name == n && (mediaId, t.id) in db.mediaTags) &&
    (forall l :: l in db.mediaTags && l !in old(db.mediaTags) ==>
      l.0 == mediaId && exists t :: t in db.tags && t.id == l.1 && t.name in names) &&
    (names == [] ==> db.tags == old(db.tags) && db.mediaTags == old(db.mediaTags))
  }

  /** The outcome of adding a file to an existing media item. */
  datatype Attach = Attached(file: MediaFile) | MediaMissing | NotOwner | DuplicateType

  function CollectionIds(cs: seq<Collection>): set<Id>
  {
    set c | c in cs :: c.id
  }

  function BookIds(books: seq<LegacyBook>): set<Id>
  {
    set b | b in books :: b.id
  }
}
