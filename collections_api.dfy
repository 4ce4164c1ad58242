/**
 * The collections endpoint. GET lists the caller's collections by name, each with its
 * active (not deleted) items and their number; POST creates a collection under a trimmed
 * name that the caller has not used yet.
 */
module CollectionsApi {

  import opened Wrappers
  import opened Ordering
  import opened Store
  import opened Http
  import Text

  /** A collection as both requests answer it: the row, its active items, and their count. */
  datatype CollectionView = CollectionView(collection: Collection, media: seq<Media>, mediaCount: nat)

  predicate SortedByName(s: seq<Collection>)
  {
    forall i, j :: 0 <= i < j < |s| ==> Text.LexLe(s[i].name, s[j].name)
  }

  // `orderBy: { name: 'asc' }` is the insertion sort of `Ordering.SortDesc`, written again
  // for the character order `Text.LexLe` on names instead of a descending integer key.

  /** Puts `c` into a list before the first collection whose name it does not come after. */
  function InsertByName(c: Collection, s: seq<Collection>): (r: seq<Collection>)
    ensures |r| == |s| + 1
    ensures r[0] == c || (s != [] && r[0] == s[0])
  {
    if s == [] then [c]
    else if Text.LexLe(c.name, s[0].name) then [c] + s
    else [s[0]] + InsertByName(c, s[1..])
  }

  /** A list sorted by name stays sorted with a collection in front that does not come after its head. */
  lemma ConsByName(h: Collection, t: seq<Collection>)
    requires SortedByName(t) && (t != [] ==> Text.LexLe(h.name, t[0].name))
    ensures SortedByName([h] + t)
  {
    var r := [h] + t;
    forall i, j | 0 <= i < j < |r| ensures Text.LexLe(r[i].name, r[j].name) {
      if i == 0 && j > 1 {
        Text.LexLeTrans(h.name, t[0].name, t[j - 1].name);
      }
    }
  }

  /** Inserting into a list sorted by name keeps it sorted and adds exactly the one collection. */
  lemma {:induction false} InsertByNameSorted(c: Collection, s: seq<Collection>)
    requires SortedByName(s)
    ensures SortedByName(InsertByName(c, s))
    ensures multiset(InsertByName(c, s)) == multiset(s) + multiset{c}
  {
    if s == [] {
    } else if Text.LexLe(c.name, s[0].name) {
      ConsByName(c, s);
    } else {
      var t := InsertByName(c, s[1..]);
      InsertByNameSorted(c, s[1..]);
      assert s == [s[0]] + s[1..];
      Text.LexLeTotal(c.name, s[0].name);
      ConsByName(s[0], t);
    }
  }

  /** Insertion sort by name, ascending (`orderBy: { name: 'asc' }`). */
  function SortByName(s: seq<Collection>): (r: seq<Collection>)
    ensures SortedByName(r)
    ensures multiset(r) == multiset(s)
  {
    if s == [] then []
    else
      assert s == [s[0]] + s[1..];
      var t := SortByName(s[1..]);
      InsertByNameSorted(s[0], t);
      InsertByName(s[0], t)
  }

  function OwnedBy(user: Id): Collection -> bool
  {
    (c: Collection) => c.userId == user
  }

  /** The caller's collections, by name: exactly theirs, each as often as it is stored. */
  function CollectionsOf(cs: seq<Collection>, user: Id): (r: seq<Collection>)
    ensures SortedByName(r)
    ensures forall i :: 0 <= i < |r| ==> r[i] in cs && r[i].userId == user
    ensures forall i :: 0 <= i < |cs| && cs[i].userId == user ==> cs[i] in r
    ensures forall i :: 0 <= i < |cs| && cs[i].userId == user ==> multiset(r)[cs[i]] == multiset(cs)[cs[i]]
  {
    FilterCount(cs, OwnedBy(user));
    var mine := Filter(cs, OwnedBy(user));
    var r := SortByName(mine);
    SameMembers(r, mine);
    r
  }

  /** Linked to collection `cid` and not deleted: what `include: { media: { where: { deletedAt: null } } }` keeps. */
  function InCollection(links: set<(Id, Id)>, cid: Id): Media -> bool
  {
    (m: Media) => (cid, m.id) in links && m.deletedAt.None?
  }

  /** The collection's active items, in table order. */
  function CollectionItems(media: seq<Media>, links: set<(Id, Id)>, cid: Id): (r: seq<Media>)
    ensures forall i :: 0 <= i < |r| ==> r[i] in media && (cid, r[i].id) in links && r[i].deletedAt.None?
    ensures forall i :: 0 <= i < |media| && (cid, media[i].id) in links && media[i].deletedAt.None? ==> media[i] in r
    ensures Subsequence(r, media)
  {
    FilterSubsequence(media, InCollection(links, cid));
    Filter(media, InCollection(links, cid))
  }

  function ActiveIds(media: seq<Media>): set<Id>
  {
    set m | m in media && m.deletedAt.None? :: m.id
  }

  /** `_count: { select: { media: { where: { deletedAt: null } } } }`: link rows to active items. */
  function ActiveLinkCount(links: set<(Id, Id)>, media: seq<Media>, cid: Id): nat
  {
    |set l | l in links && l.0 == cid && l.1 in ActiveIds(media)|
  }

  /**
   * With unique media ids, the count and the listed items agree: the count is the length
   * of the list.
   */
  lemma CountIsListed(media: seq<Media>, links: set<(Id, Id)>, cid: Id, bound: nat)
    requires MediaOk(media, bound)
    ensures ActiveLinkCount(links, media, cid) == |CollectionItems(media, links, cid)|
  {
    var r := CollectionItems(media, links, cid);
    FilterPairwise(media, InCollection(links, cid), (a: Media, b: Media) => a.id != b.id);
    var counted := set l | l in links && l.0 == cid && l.1 in ActiveIds(media);
    var image := Image(r, cid);
    forall l | l in counted ensures l in image {
      var m :| m in media && m.deletedAt.None? && m.id == l.1;
      var i :| 0 <= i < |media| && media[i] == m;
      assert media[i] in r;
    }
    assert counted == image;
    DistinctImageSize(r, cid);
  }

  /** Pairing distinct ids with one collection id gives as many pairs as items. */
  lemma {:induction false} DistinctImageSize(r: seq<Media>, cid: Id)
    requires forall i, j :: 0 <= i < j < |r| ==> r[i].id != r[j].id
    ensures |Image(r, cid)| == |r|
  {
    if r != [] {
      DistinctImageSize(r[1..], cid);
      ImageSplit(r, cid);
    }
  }

  /** The pairs of the items in `r` with collection `cid`: the link rows they stand for. */
  function Image(r: seq<Media>, cid: Id): set<(Id, Id)>
  {
    set m | m in r :: (cid, m.id)
  }

  /** The first item's pair, which no later item shares, and the pairs of the others. */
  lemma ImageSplit(r: seq<Media>, cid: Id)
    requires r != []
    requires forall i, j :: 0 <= i < j < |r| ==> r[i].id != r[j].id
    ensures Image(r, cid) == {(cid, r[0].id)} + Image(r[1..], cid)
    ensures (cid, r[0].id) !in Image(r[1..], cid)
  {
    var tail := r[1..];
    assert r == [r[0]] + tail;
    forall m | m in tail ensures m.id != r[0].id {
      var k :| 0 <= k < |tail| && tail[k] == m;
      assert r[k + 1] == m;
    }
  }

  /** One listed collection: itself, its items that are not deleted, and the count. */
  function View(db: Library, c: Collection): (v: CollectionView)
    reads db
    ensures v.collection == c
    ensures forall i :: 0 <= i < |v.media| ==>
      v.media[i] in db.media && (c.id, v.media[i].id) in db.collectionMedia && v.media[i].deletedAt.None?
    ensures forall m :: m in db.media && (c.id, m.id) in db.collectionMedia && m.deletedAt.None? ==> m in v.media
    ensures Subsequence(v.media, db.media)
  {
    CollectionView(c, CollectionItems(db.media, db.collectionMedia, c.id),
                   ActiveLinkCount(db.collectionMedia, db.media, c.id))
  }

  /** GET /api/collections */
  function List(db: Library, caller: Option<Id>): (r: Response<seq<CollectionView>>)
    reads db
    ensures caller.None? <==> r == Unauthorized()
    ensures r.Ok? ==> |r.body| == |CollectionsOf(db.collections, caller.value)|
    ensures r.Ok? ==> forall i :: 0 <= i < |r.body| ==> r.body[i] == View(db, CollectionsOf(db.collections, caller.value)[i])
  {
    if caller.None? then Unauthorized()
    else
      var mine := CollectionsOf(db.collections, caller.value);
      Ok(seq(|mine|, i requires 0 <= i < |mine| reads db => View(db, mine[i])))
  }

  /** In a consistent store every listed count is the length of the listed items. */
  lemma ListedCountsMatch(db: Library, caller: Option<Id>)
    requires db.Valid()
    ensures List(db, caller).Ok? ==>
      forall i :: 0 <= i < |List(db, caller).body| ==> List(db, caller).body[i].mediaCount == |List(db, caller).body[i].media|
  {
    if caller.Some? {
      var mine := CollectionsOf(db.collections, caller.value);
      forall i | 0 <= i < |mine| ensures View(db, mine[i]).mediaCount == |View(db, mine[i]).media| {
        CountIsListed(db.media, db.collectionMedia, mine[i].id, db.nextId);
      }
    }
  }

  /** The user already has a collection with this name (`findUnique({ where: { name_userId } })`). */
  predicate NameTaken(cs: seq<Collection>, name: string, user: Id)
  {
    exists i :: 0 <= i < |cs| && cs[i].name == name && cs[i].userId == user
  }

  /** A name is usable when it is present and not only white space. */
  predicate UsableName(name: Option<string>)
  {
    name.Some? && Text.Trim(name.value) != []
  }

  /**
   * POST /api/collections. `name` is `None` when it is missing or not a string. Refusals
   * change nothing; a new collection starts with no items.
   */
  method Create(db: Library, caller: Option<Id>, name: Option<string>, description: Option<string>)
    returns (r: Response<CollectionView>)
    requires db.Valid()
    modifies db`collections, db`nextId
    ensures db.Valid()
    ensures caller.None? ==> r == Unauthorized()
    ensures caller.Some? && !UsableName(name) ==> r == Error(400, "Collection name is required")
    ensures caller.Some? && UsableName(name) && NameTaken(old(db.collections), Text.Trim(name.value), caller.value) ==>
      r == Error(400, "A collection with this name already exists")
    ensures r.Ok? <==>
      caller.Some? && UsableName(name) && !NameTaken(old(db.collections), Text.Trim(name.value), caller.value)
    ensures r.Error? ==> unchanged(db)
    ensures r.Ok? ==>
      r.body == CollectionView(Collection(old(db.nextId), Text.Trim(name.value), OrNull(description), caller.value), [], 0) &&
      db.collections == old(db.collections) + [r.body.collection]
    ensures r.Ok? ==> r.body == View(db, r.body.collection)
  {
    if caller.None? {
      return Unauthorized();
    }
    if name.None? || Text.Trim(name.value) == [] {
      return Error(400, "Collection name is required");
    }
    var trimmed := Text.Trim(name.value);
    var k := FirstIndex(db.collections, (c: Collection) => c.name == trimmed && c.userId == caller.value);
    if k.Some? {
      return Error(400, "A collection with this name already exists");
    }
    var c := db.AddCollection(trimmed, OrNull(description), caller.value);
    NoLinksYet(db.media, db.collectionMedia, old(db.collections), c.id);
    r := Ok(CollectionView(c, [], 0));
  }

  /** A collection id not in use has no item links, so it lists nothing and counts zero. */
  lemma NoLinksYet(media: seq<Media>, links: set<(Id, Id)>, cs: seq<Collection>, id: Id)
    requires LinksOk(links, CollectionIds(cs), MediaIds(media))
    requires id !in CollectionIds(cs)
    ensures CollectionItems(media, links, id) == []
    ensures ActiveLinkCount(links, media, id) == 0
  {
    var counted := set l | l in links && l.0 == id && l.1 in ActiveIds(media);
    assert counted == {};
  }
}
