/**
 * The catalog routes as transitions of the store: list the caller's catalogs,
 * create one, update one (rename and full replace of its items) and delete
 * one. Each mutating route first checks that the caller owns the catalog.
 */
module Catalogs {
  import opened Wrappers
  import opened Strings
  import opened Store
  import opened Addon

  /** A catalog with its items, as the GET and PUT responses send it. */
  datatype CatalogView = CatalogView(id: string, name: string, kind: string, userId: string, items: seq<Item>)

  function ViewOf(db: Db, c: Catalog): CatalogView {
    CatalogView(c.id, c.name, c.kind, c.userId, CatalogItems(db, c.id))
  }

  /** `GET /`: the caller's catalogs, each with its items in `createdAt` order. */
  function ListCatalogs(db: Db, userId: string): (r: seq<CatalogView>)
    ensures |r| == |CatalogsOf(db.catalogs, userId)|
    ensures forall v :: v in r ==> v.userId == userId
    ensures var cats := CatalogsOf(db.catalogs, userId);
      forall i :: 0 <= i < |r| ==>
        && r[i].id == cats[i].id && r[i].name == cats[i].name && r[i].kind == cats[i].kind
        && r[i].items == CatalogItems(db, cats[i].id)
  {
    var cats := CatalogsOf(db.catalogs, userId);
    var r := seq(|cats|, i requires 0 <= i < |cats| => ViewOf(db, cats[i]));
    assert forall i :: 0 <= i < |r| ==> r[i].userId == userId by {
      forall i | 0 <= i < |r| ensures r[i].userId == userId {
        assert cats[i] in cats;
      }
    }
    r
  }

  /** In a valid store each listed catalog's items follow its links in row order. */
  lemma {:induction false} ListedItemsFollowRowOrder(db: Db, userId: string)
    requires Valid(db)
    ensures forall v :: v in ListCatalogs(db, userId) ==> v.items == Project(Rows(db, v.id))
  {
    forall v | v in ListCatalogs(db, userId) ensures v.items == Project(Rows(db, v.id)) {
      ValidRowsOrdered(db, v.id);
    }
  }

  // ---------------------------------------------------------------- create

  /** The catalog `POST /` stores: the type defaults to `movie` when none is given. */
  function NewCatalog(id: string, name: string, kind: Option<string>, userId: string): (c: Catalog)
    ensures c.id == id && c.name == name && c.userId == userId
    ensures Truthy(kind) ==> c.kind == kind.value
    ensures !Truthy(kind) ==> c.kind == MOVIE
  {
    Catalog(id, name, if Truthy(kind) then kind.value else MOVIE, userId)
  }

  function AddCatalog(db: Db, c: Catalog): Db {
    db.(catalogs := db.catalogs + [c])
  }

  /** A catalog added under a fresh id keeps the store valid, has no links, and belongs to its user. */
  lemma {:induction false} AddCatalogValid(db: Db, c: Catalog)
    requires Valid(db) && c.id !in CatalogIds(db.catalogs)
    ensures Valid(AddCatalog(db, c))
    ensures Owns(AddCatalog(db, c), c.userId, c.id)
    ensures LinksOf(AddCatalog(db, c).links, c.id) == []
  {
    var r := AddCatalog(db, c);
    assert CatalogIds(db.catalogs) <= CatalogIds(r.catalogs);
    LinksOfNone(db.links, c.id);
    var cats := r.catalogs;
    forall i, j | 0 <= i < j < |cats| ensures cats[i].id != cats[j].id {
      if j == |cats| - 1 {
        assert cats[i] in db.catalogs;
      }
    }
    assert cats[|db.catalogs|] == c;
  }

  // ---------------------------------------------------------------- update

  /** `if (name) catalog.update({ data: { name } })`. */
  function Rename(db: Db, id: string, name: Option<string>): Db {
    if !Truthy(name) then db
    else match FindCatalog(db.catalogs, id)
      case None => db
      case Some(i) => db.(catalogs := db.catalogs[i := db.catalogs[i].(name := name.value)])
  }

  /** The upsert loop: one `mediaItem.upsert` per item, in input order. */
  function UpsertAll(db: Db, items: seq<Item>, overwrite: bool): (r: Db)
    ensures r.users == db.users && r.catalogs == db.catalogs && r.links == db.links && r.clock == db.clock
  {
    if items == [] then db
    else Upsert(UpsertAll(db, items[..|items| - 1], overwrite), items[|items| - 1], overwrite)
  }

  /** The last item of the list with key `k`: the one whose title and poster an overwriting upsert loop leaves. */
  function LastWith(items: seq<Item>, k: Key): (r: Option<Item>)
    ensures r.Some? ==> r.value in items && r.value.key() == k
    ensures r.None? ==> forall i :: 0 <= i < |items| ==> items[i].key() != k
  {
    if items == [] then None
    else if items[|items| - 1].key() == k then Some(items[|items| - 1])
    else LastWith(items[..|items| - 1], k)
  }

  /** The item at the last position holding key `k` is the one `LastWith` finds. */
  lemma {:induction false} LastWithAt(items: seq<Item>, k: Key, i: nat)
    requires i < |items| && items[i].key() == k
    requires forall j :: i < j < |items| ==> items[j].key() != k
    ensures LastWith(items, k) == Some(items[i])
  {
    var n := |items| - 1;
    if i < n {
      assert items[n].key() != k;
      assert items[..n][i] == items[i];
      LastWithAt(items[..n], k, i);
    }
  }

  lemma {:induction false} UpsertAllValid(db: Db, items: seq<Item>, overwrite: bool)
    requires Valid(db)
    ensures Valid(UpsertAll(db, items, overwrite))
  {
    if items != [] {
      UpsertAllValid(db, items[..|items| - 1], overwrite);
      UpsertValid(UpsertAll(db, items[..|items| - 1], overwrite), items[|items| - 1], overwrite);
    }
  }

  /**
   * After the overwriting upsert loop every input key is stored, with the title and
   * poster of the last input item that has it; keys not in the input keep their rows.
   */
  lemma {:induction false} UpsertAllStores(db: Db, items: seq<Item>)
    requires Valid(db)
    ensures var r := UpsertAll(db, items, true);
      forall k :: (LastWith(items, k).Some? ==>
                    Lookup(r.media, k).Some?
                    && Lookup(r.media, k).value.title == LastWith(items, k).value.title
                    && Lookup(r.media, k).value.poster == LastWith(items, k).value.poster)
               && (LastWith(items, k).None? ==> Lookup(r.media, k) == Lookup(db.media, k))
  {
    if items != [] {
      var prefix := items[..|items| - 1];
      var last := items[|items| - 1];
      var mid := UpsertAll(db, prefix, true);
      UpsertAllStores(db, prefix);
      UpsertAllValid(db, prefix, true);
      UpsertEffect(mid, last, true);
    }
  }

  /**
   * `items.map((item, index) => ...).filter(Boolean)`: a link per item whose media
   * row is found, with `createdAt` the base time plus the item's index.
   */
  function OrderedLinks(media: seq<MediaItem>, id: string, items: seq<Item>, now: int): (r: seq<Link>)
    ensures Increasing(r)
    ensures forall l :: l in r ==>
      l.catalogId == id && now <= l.createdAt < now + |items| && l.mediaId in MediaIds(media)
  {
    if items == [] then []
    else
      var rest := OrderedLinks(media, id, items[1..], now + 1);
      match FindMedia(media, items[0].key())
      case None => rest
      case Some(j) =>
        assert media[j] in media;
        IncreasingCons(Link(id, media[j].id, now), rest);
        [Link(id, media[j].id, now)] + rest
  }

  lemma {:induction false} IncreasingCons(l: Link, t: seq<Link>)
    requires Increasing(t)
    requires forall x :: x in t ==> l.createdAt < x.createdAt
    ensures Increasing([l] + t)
  {
    forall i, j | 0 <= i < j < |[l] + t| ensures ([l] + t)[i].createdAt < ([l] + t)[j].createdAt {
      if i == 0 {
        assert ([l] + t)[j] == t[j - 1];
      }
    }
  }

  /** When every item's media row exists, there is one link per item and link `k` is created at `now + k`. */
  lemma {:induction false} OrderedLinksComplete(media: seq<MediaItem>, id: string, items: seq<Item>, now: int)
    requires forall k :: 0 <= k < |items| ==> FindMedia(media, items[k].key()).Some?
    ensures var r := OrderedLinks(media, id, items, now);
      && |r| == |items|
      && forall k :: 0 <= k < |items| ==>
           r[k] == Link(id, media[FindMedia(media, items[k].key()).value].id, now + k)
  {
    if items != [] {
      OrderedLinksComplete(media, id, items[1..], now + 1);
      var j := FindMedia(media, items[0].key()).value;
      var rest := OrderedLinks(media, id, items[1..], now + 1);
      var r := OrderedLinks(media, id, items, now);
      assert r == [Link(id, media[j].id, now)] + rest;
      forall k | 1 <= k < |items|
        ensures r[k] == Link(id, media[FindMedia(media, items[k].key()).value].id, now + k)
      {
        assert r[k] == rest[k - 1] && items[1..][k - 1] == items[k];
      }
    }
  }

  /** The transaction: delete every link of the catalog, then create the ordered links. */
  function ReplaceLinks(db: Db, id: string, items: seq<Item>): Db {
    var now := db.clock;
    db.(links := LinksNotOf(db.links, id) + OrderedLinks(db.media, id, items, now), clock := now + |items|)
  }

  /** `PUT /:id` on the store: nothing changes unless the caller owns the catalog. */
  function Update(db: Db, userId: string, id: string, name: Option<string>, items: Option<seq<Item>>): Db {
    if !Owns(db, userId, id) then db
    else
      var renamed := Rename(db, id, name);
      if items.None? then renamed
      else ReplaceLinks(UpsertAll(renamed, items.value, true), id, items.value)
  }

  lemma {:induction false} RenameValid(db: Db, id: string, name: Option<string>)
    requires Valid(db)
    ensures Valid(Rename(db, id, name))
    ensures CatalogIds(Rename(db, id, name).catalogs) == CatalogIds(db.catalogs)
  {
    var r := Rename(db, id, name);
    if Truthy(name) && FindCatalog(db.catalogs, id).Some? {
      var i := FindCatalog(db.catalogs, id).value;
      assert forall j :: 0 <= j < |r.catalogs| ==> r.catalogs[j].id == db.catalogs[j].id;
      forall x | x in CatalogIds(db.catalogs) ensures x in CatalogIds(r.catalogs) {
        var j :| 0 <= j < |db.catalogs| && db.catalogs[j].id == x;
        assert r.catalogs[j] in r.catalogs;
      }
    }
  }

  lemma {:induction false} ReplaceLinksValid(db: Db, id: string, items: seq<Item>)
    requires Valid(db) && id in CatalogIds(db.catalogs)
    ensures Valid(ReplaceLinks(db, id, items))
    ensures forall c ::
      LinksOf(ReplaceLinks(db, id, items).links, c) == (if c == id then OrderedLinks(db.media, id, items, db.clock) else LinksOf(db.links, c))
  {
    var r := ReplaceLinks(db, id, items);
    var newLinks := OrderedLinks(db.media, id, items, db.clock);
    forall c ensures LinksOf(r.links, c) == if c == id then newLinks else LinksOf(db.links, c) {
      LinksOfAppend(LinksNotOf(db.links, id), newLinks, c);
      LinksOfNotOf(db.links, id, c);
      LinksOfUniform(newLinks, id, c);
    }
  }

  /** Every update leaves a valid store valid. */
  lemma {:induction false} UpdateValid(db: Db, userId: string, id: string, name: Option<string>, items: Option<seq<Item>>)
    requires Valid(db)
    ensures Valid(Update(db, userId, id, name, items))
  {
    if Owns(db, userId, id) {
      RenameValid(db, id, name);
      var renamed := Rename(db, id, name);
      assert db.catalogs[FindCatalog(db.catalogs, id).value] in db.catalogs;
      if items.Some? {
        UpsertAllValid(renamed, items.value, true);
        ReplaceLinksValid(UpsertAll(renamed, items.value, true), id, items.value);
      }
    }
  }

  /**
   * An update by the owner overwrites the name only when the given name is truthy,
   * touches no other catalog, and leaves links and media alone when no items are sent.
   */
  lemma {:induction false} UpdateCatalogRow(db: Db, userId: string, id: string, name: Option<string>, items: Option<seq<Item>>)
    requires Owns(db, userId, id)
    ensures var r := Update(db, userId, id, name, items);
      var i := FindCatalog(db.catalogs, id).value;
      && r.catalogs == db.catalogs[i := db.catalogs[i].(name := if Truthy(name) then name.value else db.catalogs[i].name)]
      && (items.None? ==> r.links == db.links && r.media == db.media)
      && Owns(r, userId, id)
  {
    var r := Update(db, userId, id, name, items);
    FindCatalogSameIds(db.catalogs, r.catalogs, id);
  }

  lemma {:induction false} FindCatalogSameIds(a: seq<Catalog>, b: seq<Catalog>, id: string)
    requires |a| == |b| && forall j :: 0 <= j < |a| ==> a[j].id == b[j].id && a[j].userId == b[j].userId
    ensures FindCatalog(a, id) == FindCatalog(b, id)
  {
    if a != [] {
      FindCatalogSameIds(a[1..], b[1..], id);
    }
  }

  /**
   * An update with items stores every input key once, with the title and poster
   * of its last occurrence in the input, and leaves every other key's row alone.
   */
  lemma {:induction false} UpdateStoresItems(db: Db, userId: string, id: string, name: Option<string>, items: seq<Item>)
    requires Valid(db) && Owns(db, userId, id)
    ensures var r := Update(db, userId, id, name, Some(items));
      && Valid(r)
      && (forall k :: LastWith(items, k).Some? ==>
            Lookup(r.media, k).Some?
            && Lookup(r.media, k).value.title == LastWith(items, k).value.title
            && Lookup(r.media, k).value.poster == LastWith(items, k).value.poster)
      && (forall k :: LastWith(items, k).None? ==> Lookup(r.media, k) == Lookup(db.media, k))
  {
    RenameValid(db, id, name);
    UpsertAllStores(Rename(db, id, name), items);
    UpdateValid(db, userId, id, name, Some(items));
  }

  /**
   * An update with items replaces the catalog's links wholesale: one link per input
   * item, created at increasing times in input order; every other catalog keeps its links.
   */
  lemma {:induction false} UpdateReplacesLinks(db: Db, userId: string, id: string, name: Option<string>, items: seq<Item>)
    requires Valid(db) && Owns(db, userId, id)
    ensures var r := Update(db, userId, id, name, Some(items));
      && |LinksOf(r.links, id)| == |items|
      && (forall k :: 0 <= k < |items| ==> LinksOf(r.links, id)[k].createdAt == db.clock + k)
      && (forall c :: c != id ==> LinksOf(r.links, c) == LinksOf(db.links, c))
  {
    var renamed := Rename(db, id, name);
    var up := UpsertAll(renamed, items, true);
    RenameValid(db, id, name);
    UpsertAllValid(renamed, items, true);
    assert db.catalogs[FindCatalog(db.catalogs, id).value] in db.catalogs;
    ReplaceLinksValid(up, id, items);
    UpsertAllStores(renamed, items);
    forall k | 0 <= k < |items| ensures FindMedia(up.media, items[k].key()).Some? {
      assert LastWith(items, items[k].key()).Some?;
    }
    OrderedLinksComplete(up.media, id, items, up.clock);
  }

  /** No two items share a natural key. */
  predicate DistinctKeys(items: seq<Item>) {
    forall i, j :: 0 <= i < j < |items| ==> items[i].key() != items[j].key()
  }

  lemma {:induction false} LastWithDistinct(items: seq<Item>, i: nat)
    requires DistinctKeys(items) && i < |items|
    ensures LastWith(items, items[i].key()) == Some(items[i])
  {
    if i < |items| - 1 {
      LastWithDistinct(items[..|items| - 1], i);
    }
  }

  /** After an update with items, row k of the catalog is the stored row for the key of input item k. */
  lemma {:induction false} UpdatedRows(db: Db, userId: string, id: string, name: Option<string>, items: seq<Item>)
    requires Valid(db) && Owns(db, userId, id)
    ensures var r := Update(db, userId, id, name, Some(items));
      && |Rows(r, id)| == |items|
      && forall k :: 0 <= k < |items| ==> Lookup(r.media, items[k].key()) == Some(Rows(r, id)[k].item)
  {
    var renamed := Rename(db, id, name);
    var up := UpsertAll(renamed, items, true);
    var r := Update(db, userId, id, name, Some(items));
    assert r == ReplaceLinks(up, id, items);
    RenameValid(db, id, name);
    UpsertAllValid(renamed, items, true);
    assert db.catalogs[FindCatalog(db.catalogs, id).value] in db.catalogs;
    ReplaceLinksValid(up, id, items);
    UpsertAllStores(renamed, items);
    forall k | 0 <= k < |items| ensures FindMedia(up.media, items[k].key()).Some? {
      assert LastWith(items, items[k].key()).Some?;
    }
    var ls := OrderedLinks(up.media, id, items, up.clock);
    OrderedLinksComplete(up.media, id, items, up.clock);
    assert LinksOf(r.links, id) == ls;
    JoinComplete(r.media, ls);
    forall k | 0 <= k < |items| ensures Lookup(r.media, items[k].key()) == Some(Rows(r, id)[k].item) {
      MediaByIdUnique(up.media, FindMedia(up.media, items[k].key()).value);
    }
  }

  /**
   * After an update with items, the catalog's items, as the GET and PUT responses
   * list them, have the input's keys in input order; when the input has no repeated
   * key they are the input items themselves.
   */
  lemma {:induction false} UpdateKeepsInputOrder(db: Db, userId: string, id: string, name: Option<string>, items: seq<Item>)
    requires Valid(db) && Owns(db, userId, id)
    ensures var r := Update(db, userId, id, name, Some(items));
      && Keys(CatalogItems(r, id)) == Keys(items)
      && (DistinctKeys(items) ==> CatalogItems(r, id) == items)
  {
    var r := Update(db, userId, id, name, Some(items));
    UpdateValid(db, userId, id, name, Some(items));
    UpdatedRows(db, userId, id, name, items);
    forall k | 0 <= k < |items| ensures Rows(r, id)[k].item.key() == items[k].key() {
      LookupKey(r.media, items[k].key());
    }
    if DistinctKeys(items) {
      UpdateStoresItems(db, userId, id, name, items);
      forall k | 0 <= k < |items|
        ensures Rows(r, id)[k].item.title == items[k].title && Rows(r, id)[k].item.poster == items[k].poster
      {
        LastWithDistinct(items, k);
      }
    }
    RowsFollowItems(r, id, items);
  }

  /**
   * Rows that hold, in order, the stored rows for the items' keys list the items'
   * keys in order, and list the items themselves when titles and posters agree too.
   */
  lemma {:induction false} RowsFollowItems(r: Db, id: string, items: seq<Item>)
    requires Valid(r) && |Rows(r, id)| == |items|
    requires forall k :: 0 <= k < |items| ==> Rows(r, id)[k].item.key() == items[k].key()
    ensures Keys(CatalogItems(r, id)) == Keys(items)
    ensures (forall k :: 0 <= k < |items| ==>
               Rows(r, id)[k].item.title == items[k].title && Rows(r, id)[k].item.poster == items[k].poster)
            ==> CatalogItems(r, id) == items
  {
    ValidRowsOrdered(r, id);
    ProjectMatches(Rows(r, id), items);
  }

  /** Projecting rows whose media items match the items field by field gives those items. */
  lemma {:induction false} ProjectMatches(rows: seq<Row>, items: seq<Item>)
    requires |rows| == |items|
    requires forall k :: 0 <= k < |items| ==> rows[k].item.key() == items[k].key()
    ensures Keys(Project(rows)) == Keys(items)
    ensures (forall k :: 0 <= k < |items| ==> rows[k].item.title == items[k].title && rows[k].item.poster == items[k].poster)
            ==> Project(rows) == items
  {
    var out := Project(rows);
    assert Keys(out) == Keys(items);
  }

  /** The metas the listing gives for a list of items of the requested type, in order. */
  function ItemMetas(items: seq<Item>, kind: string): seq<Meta> {
    if items == [] then []
    else
      (if items[0].kind == kind then [ItemMeta(items[0])] else []) + ItemMetas(items[1..], kind)
  }

  lemma {:induction false} MetasOfProjection(rows: seq<Row>, kind: string)
    ensures Metas(OfKind(rows, kind)) == ItemMetas(Project(rows), kind)
  {
    if rows != [] {
      MetasOfProjection(rows[1..], kind);
      assert Project(rows)[1..] == Project(rows[1..]);
      var head := if rows[0].item.kind == kind then [rows[0]] else [];
      MetasAppend(head, OfKind(rows[1..], kind));
    }
  }

  lemma {:induction false} MetasAppend(a: seq<Row>, b: seq<Row>)
    ensures Metas(a + b) == Metas(a) + Metas(b)
  {
  }

  /** A catalog whose listed items are known gives the metas of those items of the requested type. */
  lemma {:induction false} ListingOfItems(db: Db, userId: string, id: string, kind: string)
    requires Valid(db) && Owns(db, userId, id)
    requires !exists j :: OccursAt(id, ".json", j)
    ensures CatalogListing(db, userId, kind, FeedId(id)) == ItemMetas(CatalogItems(db, id), kind)
  {
    ListingFollowsRowOrder(db, userId, kind, id);
    ValidRowsOrdered(db, id);
    MetasOfProjection(Rows(db, id), kind);
  }

  /**
   * Replacing a catalog's items with a list without repeated keys, then fetching its
   * feed listing for one type, gives that type's items in exactly the submitted order.
   */
  lemma {:induction false} ListingAfterUpdate(db: Db, userId: string, id: string, name: Option<string>, items: seq<Item>, kind: string)
    requires Valid(db) && Owns(db, userId, id) && DistinctKeys(items)
    requires !exists j :: OccursAt(id, ".json", j)
    ensures CatalogListing(Update(db, userId, id, name, Some(items)), userId, kind, FeedId(id)) == ItemMetas(items, kind)
  {
    var r := Update(db, userId, id, name, Some(items));
    UpdateValid(db, userId, id, name, Some(items));
    UpdateKeepsInputOrder(db, userId, id, name, items);
    UpdateCatalogRow(db, userId, id, name, Some(items));
    ListingOfItems(r, userId, id, kind);
  }

  // ---------------------------------------------------------------- delete

  function CatalogsExcept(cats: seq<Catalog>, id: string): (r: seq<Catalog>)
    ensures forall c :: c in r <==> c in cats && c.id != id
  {
    if cats == [] then []
    else
      assert cats == [cats[0]] + cats[1..];
      (if cats[0].id != id then [cats[0]] else []) + CatalogsExcept(cats[1..], id)
  }

  /** `DELETE /:id`: the owner's catalog goes, and its links with it. */
  function Delete(db: Db, userId: string, id: string): Db {
    if !Owns(db, userId, id) then db
    else db.(catalogs := CatalogsExcept(db.catalogs, id), links := LinksNotOf(db.links, id))
  }

  /**
   * Deleting an owned catalog removes it and its links and keeps every other
   * catalog and every other catalog's links.
   */
  lemma {:induction false} DeleteEffect(db: Db, userId: string, id: string)
    requires Owns(db, userId, id)
    ensures var r := Delete(db, userId, id);
      && FindCatalog(r.catalogs, id).None?
      && (forall c :: c in db.catalogs && c.id != id ==> c in r.catalogs)
      && LinksOf(r.links, id) == []
      && (forall c :: c != id ==> LinksOf(r.links, c) == LinksOf(db.links, c))
  {
    var r := Delete(db, userId, id);
    forall c ensures LinksOf(r.links, c) == if c == id then [] else LinksOf(db.links, c) {
      LinksOfNotOf(db.links, id, c);
    }
    forall i | 0 <= i < |r.catalogs| ensures r.catalogs[i].id != id {
      assert r.catalogs[i] in r.catalogs;
    }
  }

  /** Deleting keeps the store valid. */
  lemma {:induction false} DeleteValid(db: Db, userId: string, id: string)
    requires Valid(db)
    ensures Valid(Delete(db, userId, id))
  {
    if Owns(db, userId, id) {
      var r := Delete(db, userId, id);
      DeleteEffect(db, userId, id);
      CatalogsExceptDistinct(db.catalogs, id);
      assert r.media == db.media && r.nextMediaId == db.nextMediaId && r.clock == db.clock;
      forall l | l in r.links
        ensures l.catalogId in CatalogIds(r.catalogs) && l.mediaId in MediaIds(r.media) && l.createdAt < r.clock
      {
        assert l in db.links;
        var c :| c in db.catalogs && c.id == l.catalogId;
        assert c in r.catalogs;
      }
      forall c ensures Increasing(LinksOf(r.links, c)) {
        if c != id {
          assert LinksOf(r.links, c) == LinksOf(db.links, c);
        }
      }
    }
  }

  predicate UniqueIds(cats: seq<Catalog>) {
    forall i, j :: 0 <= i < j < |cats| ==> cats[i].id != cats[j].id
  }

  lemma {:induction false} CatalogsExceptDistinct(cats: seq<Catalog>, id: string)
    requires UniqueIds(cats)
    ensures UniqueIds(CatalogsExcept(cats, id))
  {
    if cats != [] {
      var tail := cats[1..];
      UniqueSplit(cats);
      CatalogsExceptDistinct(tail, id);
      var rest := CatalogsExcept(tail, id);
      if cats[0].id != id {
        UniqueCons(cats[0], rest);
        assert CatalogsExcept(cats, id) == [cats[0]] + rest;
      } else {
        assert CatalogsExcept(cats, id) == rest;
      }
    }
  }

  /** A list with unique ids is a head whose id is not in its tail, and a tail with unique ids. */
  lemma {:induction false} UniqueSplit(cats: seq<Catalog>)
    requires cats != [] && UniqueIds(cats)
    ensures UniqueIds(cats[1..])
    ensures forall c :: c in cats[1..] ==> c.id != cats[0].id
  {
    var tail := cats[1..];
    forall i, j | 0 <= i < j < |tail| ensures tail[i].id != tail[j].id {
      assert tail[i] == cats[i + 1] && tail[j] == cats[j + 1];
    }
    forall c | c in tail ensures c.id != cats[0].id {
      var k :| 0 <= k < |tail| && tail[k] == c;
      assert cats[k + 1] == c;
    }
  }

  /** Putting a catalog with a new id in front keeps ids unique. */
  lemma {:induction false} UniqueCons(x: Catalog, rest: seq<Catalog>)
    requires UniqueIds(rest) && forall c :: c in rest ==> c.id != x.id
    ensures UniqueIds([x] + rest)
  {
    var r := [x] + rest;
    forall i, j | 0 <= i < j < |r| ensures r[i].id != r[j].id {
      assert r[j] == rest[j - 1];
      if i == 0 {
        assert rest[j - 1] in rest;
      } else {
        assert r[i] == rest[i - 1];
      }
    }
  }
}
