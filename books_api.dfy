/**
 * The legacy books endpoint. POST stores an uploaded EPUB or PDF file as a book and
 * then, one name after another, finds or creates each parsed tag and links it to the
 * book. GET lists every book, newest first, whoever uploaded it.
 */
module BooksApi {

  import opened Wrappers
  import opened Ordering
  import opened Store
  import opened Http
  import MediaApi

  /** The tag name occurs in exactly one row of the tag table. */
  predicate NamedOnce(tags: seq<Tag>, name: string)
  {
    exists i :: 0 <= i < |tags| && tags[i].name == name &&
      forall j :: 0 <= j < |tags| && tags[j].name == name ==> j == i
  }

  /** Unique tag names mean that every name in the table occurs there once. */
  lemma UniqueTagNames(tags: seq<Tag>, bound: nat, name: string)
    requires TagsOk(tags, bound) && name in TagNames(tags)
    ensures NamedOnce(tags, name)
  {
    var t :| t in tags && t.name == name;
    var i :| 0 <= i < |tags| && tags[i] == t;
    forall j | 0 <= j < |tags| && tags[j].name == name ensures j == i {
    }
  }

  /**
   * After the tag loop for book `bookId` with `names`: no tag or book link was lost, each
   * name has one tag, linked to the book, and every new tag and link stems from a name.
   */
  twostate predicate BookTaggedWith(db: Library, bookId: Id, names: seq<string>)
    reads db
  {
    old(db.tags) <= db.tags && old(db.bookTags) <= db.bookTags &&
    (forall n :: n in names ==> exists t :: t in db.tags && t.name == n && (bookId, t.id) in db.bookTags) &&
    (forall i :: |old(db.tags)| <= i < |db.tags| ==> db.tags[i].name in names) &&
    (forall l :: l in db.bookTags && l !in old(db.bookTags) ==>
      l.0 == bookId && exists t :: t in db.tags && t.id == l.1 && t.name in names)
  }

  /** The `for (const tagName of tagNames)` loop: find or create the tag, then connect it. */
  method TagBook(db: Library, bookId: Id, names: seq<string>)
    requires db.Valid() && bookId in BookIds(db.books)
    modifies db`tags, db`nextId, db`bookTags
    ensures db.Valid()
    ensures BookTaggedWith(db, bookId, names)
    ensures forall n :: n in names ==> NamedOnce(db.tags, n)
    ensures names == [] ==> db.tags == old(db.tags) && db.bookTags == old(db.bookTags)
  {
    var k := 0;
    ghost var found: seq<Tag> := [];
    while k < |names|
      invariant TagLoop(db, old(db.tags), old(db.books), old(db.bookTags), bookId, names, k, found)
    {
      var tag := TagNext(db, old(db.tags), old(db.books), old(db.bookTags), bookId, names, k, found);
      found := found + [tag];
      k := k + 1;
    }
    assert names[..k] == names;
    TagLoopDone(old(db.tags), db.tags, old(db.bookTags), db.bookTags, bookId, names, found, db.nextId);
  }

  /** The state of `TagBook`'s loop after the first `k` names, with `found` their tags. */
  ghost predicate TagLoop(db: Library, tags0: seq<Tag>, books0: seq<LegacyBook>, bookTags0: set<(Id, Id)>,
                          bookId: Id, names: seq<string>, k: int, found: seq<Tag>)
    reads db
  {
    0 <= k <= |names| && |found| == k &&
    db.Valid() && db.books == books0 && bookId in BookIds(books0) &&
    tags0 <= db.tags &&
    (forall i :: 0 <= i < k ==> found[i].name == names[i] && found[i] in db.tags) &&
    (forall i :: |tags0| <= i < |db.tags| ==> db.tags[i].name in names[..k]) &&
    db.bookTags == bookTags0 + set t | t in found :: (bookId, t.id)
  }

  /** One turn of `TagBook`'s loop: the tag of name `k`, found or made, and linked to the book. */
  method TagNext(db: Library, ghost tags0: seq<Tag>, ghost books0: seq<LegacyBook>, ghost bookTags0: set<(Id, Id)>,
                 bookId: Id, names: seq<string>, k: nat, ghost found: seq<Tag>)
    returns (tag: Tag)
    requires k < |names| && TagLoop(db, tags0, books0, bookTags0, bookId, names, k, found)
    modifies db`tags, db`nextId, db`bookTags
    ensures TagLoop(db, tags0, books0, bookTags0, bookId, names, k + 1, found + [tag])
  {
    ghost var before := db.tags;
    tag := db.LinkBookTag(bookId, names[k]);
    TagStep(tags0, before, db.tags, bookId, names, found, k, tag);
  }

  /** One turn of the loop keeps its bookkeeping: the tag joins `found`, and its link the links. */
  lemma TagStep(tags0: seq<Tag>, before: seq<Tag>, tags: seq<Tag>, bookId: Id, names: seq<string>,
                found: seq<Tag>, k: nat, tag: Tag)
    requires k < |names| && |found| == k
    requires tags0 <= before <= tags
    requires forall i :: 0 <= i < k ==> found[i].name == names[i] && found[i] in before
    requires forall i :: |tags0| <= i < |before| ==> before[i].name in names[..k]
    requires forall i :: |before| <= i < |tags| ==> tags[i].name == names[k]
    requires tag.name == names[k] && tag in tags
    ensures forall i :: 0 <= i < k + 1 ==> (found + [tag])[i].name == names[i] && (found + [tag])[i] in tags
    ensures forall i :: |tags0| <= i < |tags| ==> tags[i].name in names[..k + 1]
    ensures (set t | t in found + [tag] :: (bookId, t.id)) == (set t | t in found :: (bookId, t.id)) + {(bookId, tag.id)}
  {
    assert names[..k + 1] == names[..k] + [names[k]];
    forall i | 0 <= i < k ensures found[i] in tags {
      var j :| 0 <= j < |before| && before[j] == found[i];
      assert tags[j] == before[j];
    }
    assert forall i :: |tags0| <= i < |before| ==> tags[i] == before[i];
  }

  /** What the loop's bookkeeping amounts to once every name has been handled. */
  lemma TagLoopDone(tags0: seq<Tag>, tags: seq<Tag>, links0: set<(Id, Id)>, links: set<(Id, Id)>, bookId: Id,
                    names: seq<string>, found: seq<Tag>, bound: nat)
    requires TagsOk(tags, bound) && tags0 <= tags
    requires |found| == |names|
    requires forall i :: 0 <= i < |names| ==> found[i].name == names[i] && found[i] in tags
    requires forall i :: |tags0| <= i < |tags| ==> tags[i].name in names
    requires links == links0 + set t | t in found :: (bookId, t.id)
    ensures forall n :: n in names ==> exists t :: t in tags && t.name == n && (bookId, t.id) in links
    ensures forall l :: l in links && l !in links0 ==>
      l.0 == bookId && exists t :: t in tags && t.id == l.1 && t.name in names
    ensures forall n :: n in names ==> NamedOnce(tags, n)
    ensures names == [] ==> tags == tags0 && links == links0
  {
    assert |tags| > |tags0| ==> tags[|tags0|].name in names;
    NamesLinked(tags, links0, links, bookId, names, found);
    forall n | n in names ensures NamedOnce(tags, n) {
      var i :| 0 <= i < |names| && names[i] == n;
      assert found[i] in tags;
      UniqueTagNames(tags, bound, n);
    }
  }

  /** The multipart form; `None` stands for a missing field. */
  datatype BookForm = BookForm(
    file: Option<MediaApi.FilePart>, title: Option<string>, author: Option<string>,
    description: Option<string>, tags: Option<string>)

  /**
   * POST /api/books. `blobUrl` is where the blob store put the file; `now` is the clock.
   * Refusals change nothing.
   */
  method Post(db: Library, caller: Option<Id>, form: BookForm, blobUrl: string, now: int)
    returns (r: Response<LegacyBook>)
    requires db.Valid()
    modifies db`books, db`tags, db`nextId, db`bookTags
    ensures db.Valid()
    ensures caller.None? ==> r == Unauthorized()
    ensures caller.Some? && (form.file.None? || !Truthy(form.title)) ==> r == Error(400, "File and title are required")
    ensures caller.Some? && form.file.Some? && Truthy(form.title) && MediaApi.UploadFileType(form.file.value.mimeType).None? ==>
      r == Error(400, "Only EPUB and PDF files are allowed")
    ensures r.Error? ==> unchanged(db)
    ensures r.Ok? <==>
      caller.Some? && form.file.Some? && Truthy(form.title) && MediaApi.UploadFileType(form.file.value.mimeType).Some?
    ensures r.Ok? ==>
      r.body == LegacyBook(old(db.nextId), form.title.value, OrNull(form.author), OrNull(form.description),
                           blobUrl, MediaApi.UploadFileType(form.file.value.mimeType).value, caller.value, now) &&
      db.books == old(db.books) + [r.body] &&
      BookTaggedWith(db, r.body.id, FieldTagNames(form.tags)) &&
      forall n :: n in FieldTagNames(form.tags) ==> NamedOnce(db.tags, n)
  {
    if caller.None? {
      return Unauthorized();
    }
    if form.file.None? || !Truthy(form.title) {
      return Error(400, "File and title are required");
    }
    var t := MediaApi.UploadFileType(form.file.value.mimeType);
    if t.None? {
      return Error(400, "Only EPUB and PDF files are allowed");
    }
    var b := db.AddBook(form.title.value, OrNull(form.author), OrNull(form.description), blobUrl, t.value,
                        caller.value, now);
    TagBook(db, b.id, FieldTagNames(form.tags));
    r := Ok(b);
  }

  function BookUploadedAt(b: LegacyBook): int
  {
    b.uploadedAt
  }

  /** `book.findMany({ orderBy: { uploadedAt: 'desc' } })`: every book, with no filter. */
  function AllBooks(books: seq<LegacyBook>): (r: seq<LegacyBook>)
    ensures multiset(r) == multiset(books)
    ensures forall i, j :: 0 <= i < j < |r| ==> r[i].uploadedAt >= r[j].uploadedAt
  {
    var r := SortDesc(books, BookUploadedAt);
    assert SortedDesc(r, BookUploadedAt);
    r
  }

  /** GET /api/books */
  function List(db: Library, caller: Option<Id>): (r: Response<seq<LegacyBook>>)
    reads db
    ensures caller.None? <==> r == Unauthorized()
    ensures r.Ok? ==> r.body == AllBooks(db.books)
  {
    if caller.None? then Unauthorized() else Ok(AllBooks(db.books))
  }
}
