/**
 * The database as the mutating route handlers use it: one object whose tables
 * the handlers update in place, row by row. Each handler is proved to leave
 * the tables exactly as the matching transition of the store describes, so
 * the properties proved about those transitions hold of the handlers.
 */
module Server {
  import opened Wrappers
  import opened Store
  import opened Catalogs
  import opened Backup

  class Database {
    var users: set<string>
    var catalogs: seq<Catalog>
    var media: seq<MediaItem>
    var nextMediaId: nat
    var links: seq<Link>
    var clock: int

    /** The tables as a value. */
    function State(): Db
      reads this
    {
      Db(users, catalogs, media, nextMediaId, links, clock)
    }

    ghost predicate Valid()
      reads this
    {
      Store.Valid(State())
    }

    /** An empty database for the registered users, with the clock at `now`. */
    constructor(registered: set<string>, now: int)
      ensures State() == Db(registered, [], [], 0, [], now)
      ensures Valid()
    {
      users := registered;
      catalogs := [];
      media := [];
      nextMediaId := 0;
      links := [];
      clock := now;
    }

    /** `mediaItem.upsert` on the item's natural key; returns the id of the row it returns. */
    method UpsertMedia(item: Item, overwrite: bool) returns (id: nat)
      modifies this
      ensures State() == Upsert(old(State()), item, overwrite)
      ensures id == UpsertedId(old(State()), item)
    {
      var found := FindMedia(media, item.key());
      match found
      case Some(i) =>
        id := media[i].id;
        if overwrite {
          media := media[i := media[i].(title := item.title, poster := item.poster)];
        }
      case None =>
        id := nextMediaId;
        media := media + [MediaItem(nextMediaId, item.tmdbId, item.kind, item.title, item.poster)];
        nextMediaId := nextMediaId + 1;
    }

    /** `POST /`: creates a catalog of the caller under the fresh id the database generates. */
    method CreateCatalog(userId: string, name: string, kind: Option<string>, newId: string) returns (c: Catalog)
      requires Valid() && newId !in CatalogIds(catalogs)
      modifies this
      ensures Valid()
      ensures c == NewCatalog(newId, name, kind, userId)
      ensures State() == AddCatalog(old(State()), c)
    {
      c := NewCatalog(newId, name, kind, userId);
      AddCatalogValid(State(), c);
      catalogs := catalogs + [c];
    }

    /**
     * `PUT /:id`: 404 unless the caller owns the catalog; otherwise rename when a
     * name is given, and when items are given upsert each one, then replace the
     * catalog's links in one step. Responds with the catalog and its items.
     */
    method UpdateCatalog(userId: string, id: string, name: Option<string>, items: Option<seq<Item>>)
      returns (r: Result<CatalogView, Error>)
      requires Valid()
      modifies this
      ensures Valid()
      ensures State() == Update(old(State()), userId, id, name, items)
      ensures r.Err? <==> !Owns(old(State()), userId, id)
      ensures r.Err? ==> r.error == NotFound && State() == old(State())
      ensures r.Ok? ==> r.value.id == id && r.value.userId == userId && r.value.items == CatalogItems(State(), id)
      ensures r.Ok? && Truthy(name) ==> r.value.name == name.value
    {
      var found := FindCatalog(catalogs, id);
      if found.None? || catalogs[found.value].userId != userId {
        return Err(NotFound);
      }
      var i := found.value;
      UpdateValid(State(), userId, id, name, items);
      if Truthy(name) {
        catalogs := catalogs[i := catalogs[i].(name := name.value)];
      }
      assert State() == Rename(old(State()), id, name);
      if items.Some? {
        SaveItems(id, items.value);
      }
      UpdateCatalogRow(old(State()), userId, id, name, items);
      r := Ok(CatalogView(id, catalogs[i].name, catalogs[i].kind, catalogs[i].userId, CatalogItems(State(), id)));
    }

    /** The items half of `PUT /:id`: upsert every item in order, then replace the catalog's links in one step. */
    method SaveItems(id: string, input: seq<Item>)
      modifies this
      ensures State() == ReplaceLinks(UpsertAll(old(State()), input, true), id, input)
    {
      var k := 0;
      while k < |input|
        invariant 0 <= k <= |input|
        invariant State() == UpsertAll(old(State()), input[..k], true)
      {
        assert input[..k + 1][..k] == input[..k];
        var _ := UpsertMedia(input[k], true);
        k := k + 1;
      }
      assert input[..|input|] == input;
      var now := clock;
      var ordered := OrderedLinks(media, id, input, now);
      links := LinksNotOf(links, id) + ordered;
      clock := now + |input|;
    }

    /** `DELETE /:id`: 404 unless the caller owns the catalog; otherwise the catalog and its links go. */
    method DeleteCatalog(userId: string, id: string) returns (r: Result<(), Error>)
      requires Valid()
      modifies this
      ensures Valid()
      ensures State() == Delete(old(State()), userId, id)
      ensures r.Err? <==> !Owns(old(State()), userId, id)
      ensures r.Err? ==> r.error == NotFound && State() == old(State())
    {
      var found := FindCatalog(catalogs, id);
      if found.None? || catalogs[found.value].userId != userId {
        return Err(NotFound);
      }
      DeleteValid(State(), userId, id);
      catalogs := CatalogsExcept(catalogs, id);
      links := LinksNotOf(links, id);
      r := Ok(());
    }

    /**
     * `POST /import`: 400 without a catalogs array; otherwise, for each entry, a new
     * catalog of the caller, then for each of its items a get-or-create of the media
     * row and a link created one tick after the previous one. Responds with the
     * number of entries.
     */
    method ImportBackup(userId: string, input: Option<seq<BackupCatalog>>, newIds: seq<string>)
      returns (r: Result<nat, Error>)
      requires Valid()
      requires input.Some? ==> |newIds| == |input.value| && FreshIds(State(), newIds)
      modifies this
      ensures Valid()
      ensures input.None? ==> r == Err(BadRequest) && State() == old(State())
      ensures input.Some? ==> r == Ok(|input.value|) && State() == ImportAll(old(State()), userId, input.value, newIds)
    {
      if input.None? {
        return Err(BadRequest);
      }
      var entries := input.value;
      var k := 0;
      while k < |entries|
        invariant 0 <= k <= |entries|
        invariant State() == ImportAll(old(State()), userId, entries[..k], newIds[..k])
      {
        ImportAllStep(old(State()), userId, entries, newIds, k);
        ImportEntry(userId, entries[k], newIds[k]);
        k := k + 1;
      }
      assert entries[..|entries|] == entries;
      assert newIds[..|newIds|] == newIds;
      ImportAllShape(old(State()), userId, entries, newIds);
      r := Ok(|entries|);
    }

    /** One backup entry: a new catalog of the caller, then each item's media row and link, one tick apart. */
    method ImportEntry(userId: string, entry: BackupCatalog, catalogId: string)
      modifies this
      ensures State() == ImportCatalog(old(State()), userId, entry, catalogId)
    {
      catalogs := catalogs + [Catalog(catalogId, entry.name, entry.kind, userId)];
      ghost var created := State();
      var j := 0;
      while j < |entry.items|
        invariant 0 <= j <= |entry.items|
        invariant State() == ImportItems(created, catalogId, entry.items[..j])
      {
        assert entry.items[..j + 1][..j] == entry.items[..j];
        assert ImportItems(created, catalogId, entry.items[..j + 1])
            == ImportItem(ImportItems(created, catalogId, entry.items[..j]), catalogId, entry.items[j]);
        ImportOne(catalogId, entry.items[j]);
        j := j + 1;
      }
      assert entry.items[..|entry.items|] == entry.items;
    }

    /** One backup item: get or create its media row, then link it at the current time and let the clock tick. */
    method ImportOne(catalogId: string, item: Item)
      modifies this
      ensures State() == ImportItem(old(State()), catalogId, item)
    {
      var mediaId := UpsertMedia(item, false);
      links := links + [Link(catalogId, mediaId, clock)];
      // the 10 ms pause between items
      clock := clock + 1;
    }
  }
}
