/**
 * Backup export and import. Export writes every catalog of the caller with its
 * items in `createdAt` order; import creates a new catalog per backup entry and
 * links its items in order, creating media rows that are missing but never
 * overwriting one that exists.
 */
module Backup {
  import opened Wrappers
  import opened Store
  import opened Catalogs

  const VERSION := "1.0"

  datatype BackupCatalog = BackupCatalog(name: string, kind: string, items: seq<Item>)

  datatype Backup = Backup(version: string, catalogs: seq<BackupCatalog>)

  // ---------------------------------------------------------------- export

  /** `GET /export`: the caller's catalogs with the same names, types and items the catalog list shows. */
  function Export(db: Db, userId: string): (r: Backup)
    ensures r.version == VERSION
    ensures var views := ListCatalogs(db, userId);
      && |r.catalogs| == |views|
      && forall i :: 0 <= i < |views| ==>
           r.catalogs[i] == BackupCatalog(views[i].name, views[i].kind, views[i].items)
  {
    var cats := CatalogsOf(db.catalogs, userId);
    Backup(VERSION, seq(|cats|, i requires 0 <= i < |cats| =>
      BackupCatalog(cats[i].name, cats[i].kind, CatalogItems(db, cats[i].id))))
  }

  // ---------------------------------------------------------------- import

  /** The id of the row `upsert` returns: the existing row for the key, or the one it creates. */
  function UpsertedId(db: Db, item: Item): nat {
    match FindMedia(db.media, item.key())
    case Some(i) => db.media[i].id
    case None => db.nextMediaId
  }

  /**
   * One item of an imported catalog: get-or-create its media row, then link it
   * to the catalog; each link is created one tick after the previous one.
   */
  function ImportItem(db: Db, catalogId: string, item: Item): (r: Db)
    ensures r.users == db.users && r.catalogs == db.catalogs
  {
    var up := Upsert(db, item, false);
    up.(links := up.links + [Link(catalogId, UpsertedId(db, item), up.clock)], clock := up.clock + 1)
  }

  /** The items of one imported catalog, in input order. */
  function ImportItems(db: Db, catalogId: string, items: seq<Item>): (r: Db)
    ensures r.users == db.users && r.catalogs == db.catalogs
  {
    if items == [] then db
    else ImportItem(ImportItems(db, catalogId, items[..|items| - 1]), catalogId, items[|items| - 1])
  }

  /** One backup entry: a new catalog of the caller under a fresh id, then its items. */
  function ImportCatalog(db: Db, userId: string, entry: BackupCatalog, catalogId: string): Db {
    ImportItems(AddCatalog(db, Catalog(catalogId, entry.name, entry.kind, userId)), catalogId, entry.items)
  }

  /** Every backup entry in order; `ids` are the ids the database generates for the new catalogs. */
  function ImportAll(db: Db, userId: string, entries: seq<BackupCatalog>, ids: seq<string>): Db
    requires |ids| == |entries|
  {
    if entries == [] then db
    else ImportCatalog(ImportAll(db, userId, entries[..|entries| - 1], ids[..|ids| - 1]),
                       userId, entries[|entries| - 1], ids[|ids| - 1])
  }

  /**
   * `POST /import`: a body without a catalogs array is a bad request; otherwise
   * every entry is imported and the response counts the entries.
   */
  function Import(db: Db, userId: string, input: Option<seq<BackupCatalog>>, ids: seq<string>): (r: Result<(Db, nat), Error>)
    requires input.Some? ==> |ids| == |input.value|
    ensures r.Err? <==> input.None?
    ensures r.Err? ==> r.error == BadRequest
    ensures r.Ok? ==> r.value.1 == |input.value|
  {
    match input
    case None => Err(BadRequest)
    case Some(entries) => Ok((ImportAll(db, userId, entries, ids), |entries|))
  }

  /** Catalog ids the database can hand out: distinct and not in use. */
  predicate FreshIds(db: Db, ids: seq<string>) {
    && (forall i, j :: 0 <= i < j < |ids| ==> ids[i] != ids[j])
    && (forall i :: 0 <= i < |ids| ==> ids[i] !in CatalogIds(db.catalogs))
  }

  // ---------------------------------------------------------------- import: one item

  lemma {:induction false} IncreasingSnoc(t: seq<Link>, l: Link)
    requires Increasing(t)
    requires forall x :: x in t ==> x.createdAt < l.createdAt
    ensures Increasing(t + [l])
  {
    forall i, j | 0 <= i < j < |t + [l]| ensures (t + [l])[i].createdAt < (t + [l])[j].createdAt {
      assert (t + [l])[i] == t[i];
      if j < |t| {
        assert (t + [l])[j] == t[j];
      }
    }
  }

  /** The row the upsert returned holds the item's key, and every row that existed is untouched. */
  lemma {:induction false} UpsertedRow(db: Db, item: Item)
    requires Valid(db)
    ensures var r := Upsert(db, item, false);
      && MediaById(r.media, UpsertedId(db, item)).Some?
      && MediaById(r.media, UpsertedId(db, item)).value.key() == item.key()
  {
    var r := Upsert(db, item, false);
    UpsertValid(db, item, false);
    match FindMedia(db.media, item.key())
    case Some(i) =>
      MediaByIdUnique(db.media, i);
    case None =>
      MediaByIdUnique(r.media, |db.media|);
  }

  /** Importing one item appends its link to the catalog's links and to no other catalog's. */
  lemma {:induction false} ImportItemLinks(db: Db, catalogId: string, item: Item)
    ensures var r := ImportItem(db, catalogId, item);
      forall c :: LinksOf(r.links, c) ==
        LinksOf(db.links, c) + (if c == catalogId then [Link(catalogId, UpsertedId(db, item), db.clock)] else [])
  {
    var l := Link(catalogId, UpsertedId(db, item), db.clock);
    forall c ensures LinksOf(db.links + [l], c) == LinksOf(db.links, c) + (if c == catalogId then [l] else []) {
      LinksOfAppend(db.links, [l], c);
    }
  }

  /**
   * Importing one item links a row with the item's key and leaves every existing
   * media row, and so every stored key, as it was.
   */
  lemma {:induction false} ImportItemRows(db: Db, catalogId: string, item: Item)
    requires Valid(db)
    ensures var r := ImportItem(db, catalogId, item);
      && MediaById(r.media, UpsertedId(db, item)).Some?
      && MediaById(r.media, UpsertedId(db, item)).value.key() == item.key()
      && (forall id :: MediaById(db.media, id).Some? ==> MediaById(r.media, id) == MediaById(db.media, id))
      && (forall k :: Lookup(db.media, k).Some? ==> Lookup(r.media, k) == Lookup(db.media, k))
  {
    UpsertEffect(db, item, false);
    UpsertedRow(db, item);
    forall id | MediaById(db.media, id).Some?
      ensures MediaById(Upsert(db, item, false).media, id) == MediaById(db.media, id)
    {
      UpsertKeepsRows(db, item, id);
    }
  }

  /** Appending a link to existing rows at the current time, then ticking the clock, keeps the store valid. */
  lemma {:induction false} AppendLinkValid(db: Db, l: Link)
    requires Valid(db)
    requires l.catalogId in CatalogIds(db.catalogs) && l.mediaId in MediaIds(db.media) && l.createdAt == db.clock
    ensures Valid(db.(links := db.links + [l], clock := db.clock + 1))
  {
    var r := db.(links := db.links + [l], clock := db.clock + 1);
    assert forall x :: x in r.links ==> x in db.links || x == l;
    forall c ensures Increasing(LinksOf(r.links, c)) {
      AppendedLinksIncreasing(db.links, l, c);
    }
  }

  lemma {:induction false} AppendedLinksIncreasing(links: seq<Link>, l: Link, c: string)
    requires Increasing(LinksOf(links, c))
    requires forall x :: x in links ==> x.createdAt < l.createdAt
    ensures Increasing(LinksOf(links + [l], c))
  {
    LinksOfAppend(links, [l], c);
    if c == l.catalogId {
      IncreasingSnoc(LinksOf(links, c), l);
    } else {
      assert LinksOf([l], c) == [];
      assert LinksOf(links, c) + [] == LinksOf(links, c);
    }
  }

  /** Importing one item into an existing catalog keeps the store valid. */
  lemma {:induction false} ImportItemValid(db: Db, catalogId: string, item: Item)
    requires Valid(db) && catalogId in CatalogIds(db.catalogs)
    ensures Valid(ImportItem(db, catalogId, item))
  {
    var up := Upsert(db, item, false);
    UpsertValid(db, item, false);
    UpsertedRow(db, item);
    AppendLinkValid(up, Link(catalogId, UpsertedId(db, item), up.clock));
  }

  // ---------------------------------------------------------------- import: one catalog

  /** Each of `ls` resolves in `media` to a row whose key is the key of the matching item. */
  ghost predicate ResolvesTo(media: seq<MediaItem>, ls: seq<Link>, items: seq<Item>) {
    && |ls| == |items|
    && forall k :: 0 <= k < |ls| ==>
         MediaById(media, ls[k].mediaId).Some? && MediaById(media, ls[k].mediaId).value.key() == items[k].key()
  }

  /** Importing a list of items into an existing catalog keeps the store valid. */
  lemma {:induction false} ImportItemsValid(db: Db, catalogId: string, items: seq<Item>)
    requires Valid(db) && catalogId in CatalogIds(db.catalogs)
    ensures Valid(ImportItems(db, catalogId, items))
  {
    if items != [] {
      var prefix := items[..|items| - 1];
      ImportItemsValid(db, catalogId, prefix);
      ImportItemValid(ImportItems(db, catalogId, prefix), catalogId, items[|items| - 1]);
    }
  }

  /**
   * Importing a list of items into an existing catalog leaves every other
   * catalog's links alone and never changes a stored media row.
   */
  lemma {:induction false} ImportItemsFrame(db: Db, catalogId: string, items: seq<Item>)
    requires Valid(db) && catalogId in CatalogIds(db.catalogs)
    ensures var r := ImportItems(db, catalogId, items);
      && (forall c :: c != catalogId ==> LinksOf(r.links, c) == LinksOf(db.links, c))
      && (forall id :: MediaById(db.media, id).Some? ==> MediaById(r.media, id) == MediaById(db.media, id))
      && (forall k :: Lookup(db.media, k).Some? ==> Lookup(r.media, k) == Lookup(db.media, k))
  {
    if items != [] {
      var prefix := items[..|items| - 1];
      var mid := ImportItems(db, catalogId, prefix);
      ImportItemsFrame(db, catalogId, prefix);
      ImportItemsValid(db, catalogId, prefix);
      ImportItemLinks(mid, catalogId, items[|items| - 1]);
      ImportItemRows(mid, catalogId, items[|items| - 1]);
    }
  }

  /** Importing the last item extends a catalog's resolved links by a link for that item. */
  lemma {:induction false} ResolveStep(mid: Db, catalogId: string, items: seq<Item>)
    requires items != []
    requires Valid(mid) && ResolvesTo(mid.media, LinksOf(mid.links, catalogId), items[..|items| - 1])
    ensures var r := ImportItem(mid, catalogId, items[|items| - 1]);
      ResolvesTo(r.media, LinksOf(r.links, catalogId), items)
  {
    var item := items[|items| - 1];
    var r := ImportItem(mid, catalogId, item);
    ImportItemLinks(mid, catalogId, item);
    ImportItemRows(mid, catalogId, item);
    var before := LinksOf(mid.links, catalogId);
    var after := LinksOf(r.links, catalogId);
    assert after == before + [Link(catalogId, UpsertedId(mid, item), mid.clock)];
    forall k | 0 <= k < |after|
      ensures MediaById(r.media, after[k].mediaId).Some?
      ensures MediaById(r.media, after[k].mediaId).value.key() == items[k].key()
    {
      if k < |before| {
        assert after[k] == before[k] && items[k] == items[..|items| - 1][k];
      }
    }
  }

  /**
   * Importing a list of items into a catalog without links gives it one link per
   * item, in input order, each resolving to a row with that item's key.
   */
  lemma {:induction false} ImportItemsResolve(db: Db, catalogId: string, items: seq<Item>)
    requires Valid(db) && catalogId in CatalogIds(db.catalogs) && LinksOf(db.links, catalogId) == []
    ensures var r := ImportItems(db, catalogId, items);
      ResolvesTo(r.media, LinksOf(r.links, catalogId), items)
  {
    if items != [] {
      var prefix := items[..|items| - 1];
      ImportItemsResolve(db, catalogId, prefix);
      ImportItemsValid(db, catalogId, prefix);
      ResolveStep(ImportItems(db, catalogId, prefix), catalogId, items);
    }
  }

  /**
   * Importing a list of items into a catalog without links gives it one link per
   * item, in input order, each resolving to a row with that item's key; nothing
   * else changes except that missing media rows are created.
   */
  lemma {:induction false} ImportItemsEffect(db: Db, catalogId: string, items: seq<Item>)
    requires Valid(db) && catalogId in CatalogIds(db.catalogs) && LinksOf(db.links, catalogId) == []
    ensures var r := ImportItems(db, catalogId, items);
      && Valid(r)
      && ResolvesTo(r.media, LinksOf(r.links, catalogId), items)
      && (forall c :: c != catalogId ==> LinksOf(r.links, c) == LinksOf(db.links, c))
      && (forall id :: MediaById(db.media, id).Some? ==> MediaById(r.media, id) == MediaById(db.media, id))
      && (forall k :: Lookup(db.media, k).Some? ==> Lookup(r.media, k) == Lookup(db.media, k))
  {
    ImportItemsValid(db, catalogId, items);
    ImportItemsFrame(db, catalogId, items);
    ImportItemsResolve(db, catalogId, items);
  }

  /** Two media tables that resolve every link alike give the same join. */
  lemma {:induction false} JoinStable(m1: seq<MediaItem>, m2: seq<MediaItem>, ls: seq<Link>)
    requires forall l :: l in ls ==> MediaById(m1, l.mediaId) == MediaById(m2, l.mediaId)
    ensures Join(m1, ls) == Join(m2, ls)
  {
    if ls != [] {
      JoinStable(m1, m2, ls[1..]);
    }
  }

  /** In a valid store, links that resolve to the items' keys list the items' keys in order. */
  lemma {:induction false} ResolvedKeys(db: Db, catalogId: string, items: seq<Item>)
    requires Valid(db) && ResolvesTo(db.media, LinksOf(db.links, catalogId), items)
    ensures Keys(CatalogItems(db, catalogId)) == Keys(items)
  {
    var ls := LinksOf(db.links, catalogId);
    ValidRowsOrdered(db, catalogId);
    JoinComplete(db.media, ls);
    var out := CatalogItems(db, catalogId);
    forall k | 0 <= k < |items| ensures out[k].key() == items[k].key() {
    }
  }

  /** Catalogs whose links and whose media rows are untouched list the same items. */
  lemma {:induction false} ItemsStable(db: Db, r: Db, c: string)
    requires Valid(db)
    requires LinksOf(r.links, c) == LinksOf(db.links, c)
    requires forall id :: MediaById(db.media, id).Some? ==> MediaById(r.media, id) == MediaById(db.media, id)
    ensures CatalogItems(r, c) == CatalogItems(db, c)
  {
    var ls := LinksOf(db.links, c);
    forall l | l in ls ensures MediaById(db.media, l.mediaId) == MediaById(r.media, l.mediaId) {
      assert l.mediaId in MediaIds(db.media);
    }
    JoinStable(db.media, r.media, ls);
  }

  /**
   * Importing one backup entry under a fresh id adds exactly that catalog, owned by
   * the caller, listing the entry's item keys in order, and changes no other
   * catalog's items and no stored media row.
   */
  lemma {:induction false} ImportCatalogEffect(db: Db, userId: string, entry: BackupCatalog, catalogId: string)
    requires Valid(db) && catalogId !in CatalogIds(db.catalogs)
    ensures var r := ImportCatalog(db, userId, entry, catalogId);
      && Valid(r)
      && r.users == db.users
      && r.catalogs == db.catalogs + [Catalog(catalogId, entry.name, entry.kind, userId)]
      && Keys(CatalogItems(r, catalogId)) == Keys(entry.items)
      && (forall c :: c != catalogId ==> CatalogItems(r, c) == CatalogItems(db, c))
      && (forall k :: Lookup(db.media, k).Some? ==> Lookup(r.media, k) == Lookup(db.media, k))
  {
    ImportCatalogShape(db, userId, entry, catalogId);
    ImportCatalogItems(db, userId, entry, catalogId);
    forall c | c != catalogId ensures CatalogItems(ImportCatalog(db, userId, entry, catalogId), c) == CatalogItems(db, c) {
      ImportCatalogOther(db, userId, entry, catalogId, c);
    }
  }

  /** The store-wide half of `ImportCatalogEffect`: validity, the catalog table and the stored media rows. */
  lemma {:induction false} ImportCatalogShape(db: Db, userId: string, entry: BackupCatalog, catalogId: string)
    requires Valid(db) && catalogId !in CatalogIds(db.catalogs)
    ensures var r := ImportCatalog(db, userId, entry, catalogId);
      && Valid(r)
      && r.users == db.users
      && r.catalogs == db.catalogs + [Catalog(catalogId, entry.name, entry.kind, userId)]
      && (forall k :: Lookup(db.media, k).Some? ==> Lookup(r.media, k) == Lookup(db.media, k))
  {
    var cat := Catalog(catalogId, entry.name, entry.kind, userId);
    var added := AddCatalog(db, cat);
    AddCatalogValid(db, cat);
    assert catalogId in CatalogIds(added.catalogs) by {
      assert added.catalogs[|db.catalogs|] == cat;
    }
    ImportItemsValid(added, catalogId, entry.items);
    ImportItemsFrame(added, catalogId, entry.items);
  }

  /** The new catalog's half of `ImportCatalogEffect`. */
  lemma {:induction false} ImportCatalogItems(db: Db, userId: string, entry: BackupCatalog, catalogId: string)
    requires Valid(db) && catalogId !in CatalogIds(db.catalogs)
    ensures Keys(CatalogItems(ImportCatalog(db, userId, entry, catalogId), catalogId)) == Keys(entry.items)
  {
    var cat := Catalog(catalogId, entry.name, entry.kind, userId);
    var added := AddCatalog(db, cat);
    AddCatalogValid(db, cat);
    assert catalogId in CatalogIds(added.catalogs) by {
      assert added.catalogs[|db.catalogs|] == cat;
    }
    ImportItemsEffect(added, catalogId, entry.items);
    ResolvedKeys(ImportCatalog(db, userId, entry, catalogId), catalogId, entry.items);
  }

  /** The other catalogs' half of `ImportCatalogEffect`, for one catalog `c`. */
  lemma {:induction false} ImportCatalogOther(db: Db, userId: string, entry: BackupCatalog, catalogId: string, c: string)
    requires Valid(db) && catalogId !in CatalogIds(db.catalogs) && c != catalogId
    ensures CatalogItems(ImportCatalog(db, userId, entry, catalogId), c) == CatalogItems(db, c)
  {
    var cat := Catalog(catalogId, entry.name, entry.kind, userId);
    var added := AddCatalog(db, cat);
    AddCatalogValid(db, cat);
    assert catalogId in CatalogIds(added.catalogs) by {
      assert added.catalogs[|db.catalogs|] == cat;
    }
    ImportItemsFrame(added, catalogId, entry.items);
    ItemsStable(db, ImportCatalog(db, userId, entry, catalogId), c);
  }

  // ---------------------------------------------------------------- import: all entries

  /** The catalogs an import creates, in input order. */
  function Created(userId: string, entries: seq<BackupCatalog>, ids: seq<string>): (r: seq<Catalog>)
    requires |ids| == |entries|
    ensures |r| == |entries|
    ensures forall k :: 0 <= k < |r| ==> r[k] == Catalog(ids[k], entries[k].name, entries[k].kind, userId)
  {
    seq(|entries|, k requires 0 <= k < |entries| => Catalog(ids[k], entries[k].name, entries[k].kind, userId))
  }

  /**
   * Importing a backup under fresh ids keeps the store valid, appends one catalog
   * per entry, owned by the caller and in input order, and never overwrites a
   * stored media row.
   */
  lemma {:induction false} ImportAllShape(db: Db, userId: string, entries: seq<BackupCatalog>, ids: seq<string>)
    requires Valid(db) && |ids| == |entries| && FreshIds(db, ids)
    ensures var r := ImportAll(db, userId, entries, ids);
      && Valid(r)
      && r.users == db.users
      && r.catalogs == db.catalogs + Created(userId, entries, ids)
      && (forall k :: Lookup(db.media, k).Some? ==> Lookup(r.media, k) == Lookup(db.media, k))
  {
    if entries != [] {
      var n := |entries| - 1;
      var mid := ImportAll(db, userId, entries[..n], ids[..n]);
      assert ImportAll(db, userId, entries, ids) == ImportCatalog(mid, userId, entries[n], ids[n]);
      ImportAllShape(db, userId, entries[..n], ids[..n]);
      CreatedSnoc(userId, entries, ids);
      FreshAfterPrefix(db, userId, entries, ids);
      ImportCatalogShape(mid, userId, entries[n], ids[n]);
    }
  }

  /** After importing a backup under fresh ids, a catalog the import did not create lists the items it listed before. */
  lemma {:induction false} ImportAllKeepsOthers(db: Db, userId: string, entries: seq<BackupCatalog>, ids: seq<string>, c: string)
    requires Valid(db) && |ids| == |entries| && FreshIds(db, ids) && c !in ids
    ensures CatalogItems(ImportAll(db, userId, entries, ids), c) == CatalogItems(db, c)
  {
    if entries != [] {
      var n := |entries| - 1;
      assert ids[n] in ids;
      assert c !in ids[..n];
      ImportAllKeepsOthers(db, userId, entries[..n], ids[..n], c);
      ImportAllPrefix(db, userId, entries, ids);
      ImportCatalogOther(ImportAll(db, userId, entries[..n], ids[..n]), userId, entries[n], ids[n], c);
    }
  }

  /** After importing a backup under fresh ids, the catalog created for entry `k` lists the keys of its items in order. */
  lemma {:induction false} ImportAllKeys(db: Db, userId: string, entries: seq<BackupCatalog>, ids: seq<string>, k: nat)
    requires Valid(db) && |ids| == |entries| && FreshIds(db, ids) && k < |entries|
    ensures Keys(CatalogItems(ImportAll(db, userId, entries, ids), ids[k])) == Keys(entries[k].items)
  {
    var n := |entries| - 1;
    var mid := ImportAll(db, userId, entries[..n], ids[..n]);
    var r := ImportAll(db, userId, entries, ids);
    assert r == ImportCatalog(mid, userId, entries[n], ids[n]);
    ImportAllPrefix(db, userId, entries, ids);
    if k == n {
      ImportCatalogItems(mid, userId, entries[n], ids[n]);
    } else {
      FreshPrefix(db, ids, n);
      ImportAllKeys(db, userId, entries[..n], ids[..n], k);
      assert ids[..n][k] == ids[k] && entries[..n][k] == entries[k];
      assert ids[k] != ids[n];
      ImportCatalogOther(mid, userId, entries[n], ids[n], ids[k]);
    }
  }

  /** Before the last entry is imported, the store is valid and the last id is still free. */
  lemma {:induction false} ImportAllPrefix(db: Db, userId: string, entries: seq<BackupCatalog>, ids: seq<string>)
    requires Valid(db) && |ids| == |entries| > 0 && FreshIds(db, ids)
    ensures var n := |entries| - 1;
      var mid := ImportAll(db, userId, entries[..n], ids[..n]);
      Valid(mid) && ids[n] !in CatalogIds(mid.catalogs)
  {
    var n := |entries| - 1;
    ImportAllShape(db, userId, entries[..n], ids[..n]);
    FreshAfterPrefix(db, userId, entries, ids);
  }

  /** Importing one entry more than a prefix imports that entry after the prefix. */
  lemma {:induction false} ImportAllStep(db: Db, userId: string, entries: seq<BackupCatalog>, ids: seq<string>, k: nat)
    requires |ids| == |entries| && k < |entries|
    ensures ImportAll(db, userId, entries[..k + 1], ids[..k + 1])
         == ImportCatalog(ImportAll(db, userId, entries[..k], ids[..k]), userId, entries[k], ids[k])
  {
    assert entries[..k + 1][..k] == entries[..k];
    assert ids[..k + 1][..k] == ids[..k];
  }

  /** The ids of a prefix of the entries are fresh too. */
  lemma {:induction false} FreshPrefix(db: Db, ids: seq<string>, n: nat)
    requires FreshIds(db, ids) && n <= |ids|
    ensures FreshIds(db, ids[..n])
  {
  }

  lemma {:induction false} CreatedSnoc(userId: string, entries: seq<BackupCatalog>, ids: seq<string>)
    requires |ids| == |entries| > 0
    ensures var n := |entries| - 1;
      Created(userId, entries, ids) == Created(userId, entries[..n], ids[..n]) + [Catalog(ids[n], entries[n].name, entries[n].kind, userId)]
  {
  }

  /** The id for the last entry is still free after the earlier entries are imported. */
  lemma {:induction false} FreshAfterPrefix(db: Db, userId: string, entries: seq<BackupCatalog>, ids: seq<string>)
    requires |ids| == |entries| > 0 && FreshIds(db, ids)
    ensures var n := |entries| - 1;
      ids[n] !in CatalogIds(db.catalogs + Created(userId, entries[..n], ids[..n]))
  {
  }

  lemma {:induction false} CatalogsOfOwned(b: seq<Catalog>, userId: string)
    requires forall c :: c in b ==> c.userId == userId
    ensures CatalogsOf(b, userId) == b
  {
    if b != [] {
      CatalogsOfOwned(b[1..], userId);
      assert b == [b[0]] + b[1..];
    }
  }

  /**
   * Importing a backup for a caller who has no catalogs, then exporting, gives back
   * one entry per imported entry with the same name, type and item keys in order.
   */
  lemma {:induction false} ImportThenExport(db: Db, userId: string, entries: seq<BackupCatalog>, ids: seq<string>)
    requires Valid(db) && |ids| == |entries| && FreshIds(db, ids)
    requires CatalogsOf(db.catalogs, userId) == []
    ensures var e := Export(ImportAll(db, userId, entries, ids), userId);
      && |e.catalogs| == |entries|
      && forall k :: 0 <= k < |entries| ==>
           e.catalogs[k].name == entries[k].name
           && e.catalogs[k].kind == entries[k].kind
           && Keys(e.catalogs[k].items) == Keys(entries[k].items)
  {
    var r := ImportAll(db, userId, entries, ids);
    var created := Created(userId, entries, ids);
    ImportAllShape(db, userId, entries, ids);
    CallerCatalogsCreated(db.catalogs, userId, entries, ids);
    var e := Export(r, userId);
    var views := ListCatalogs(r, userId);
    forall k | 0 <= k < |entries|
      ensures e.catalogs[k].name == entries[k].name
      ensures e.catalogs[k].kind == entries[k].kind
      ensures Keys(e.catalogs[k].items) == Keys(entries[k].items)
    {
      assert views[k].id == created[k].id == ids[k];
      ImportAllKeys(db, userId, entries, ids, k);
    }
  }

  /** For a caller with no catalogs, the caller's catalogs after an import are exactly the created ones. */
  lemma {:induction false} CallerCatalogsCreated(cats: seq<Catalog>, userId: string, entries: seq<BackupCatalog>, ids: seq<string>)
    requires |ids| == |entries| && CatalogsOf(cats, userId) == []
    ensures CatalogsOf(cats + Created(userId, entries, ids), userId) == Created(userId, entries, ids)
  {
    var created := Created(userId, entries, ids);
    CatalogsOfAppend(cats, created, userId);
    forall c | c in created ensures c.userId == userId {
      var k :| 0 <= k < |created| && created[k] == c;
    }
    CatalogsOfOwned(created, userId);
  }

  /**
   * Exporting one user's catalogs and importing the file for a user who has none
   * reproduces, on re-export, the names, types and item keys in order.
   */
  lemma {:induction false} ExportImportRoundTrip(source: Db, owner: Db, from: string, to: string, ids: seq<string>)
    requires Valid(owner) && CatalogsOf(owner.catalogs, to) == []
    requires |ids| == |Export(source, from).catalogs| && FreshIds(owner, ids)
    ensures var b := Export(source, from);
      var e := Export(ImportAll(owner, to, b.catalogs, ids), to);
      && |e.catalogs| == |b.catalogs|
      && forall k :: 0 <= k < |b.catalogs| ==>
           e.catalogs[k].name == b.catalogs[k].name
           && e.catalogs[k].kind == b.catalogs[k].kind
           && Keys(e.catalogs[k].items) == Keys(b.catalogs[k].items)
  {
    ImportThenExport(owner, to, Export(source, from).catalogs, ids);
  }
}
