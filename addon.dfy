/**
 * The addon feed: the manifest that lists a user's catalogs and the listing
 * of one catalog's items for one media type. Both are read-only projections
 * of the store.
 */
module Addon {
  import opened Wrappers
  import opened Strings
  import opened Store

  const POSTER_BASE := "https://image.tmdb.org/t/p/w500"

  datatype Extra = Extra(name: string, isRequired: bool)

  datatype ManifestCatalog = ManifestCatalog(kind: string, id: string, name: string, extra: seq<Extra>)

  datatype Manifest = Manifest(
    id: string,
    version: string,
    name: string,
    description: string,
    resources: seq<string>,
    types: seq<string>,
    catalogs: seq<ManifestCatalog>)

  /** One entry of a listing's `metas`. */
  datatype Meta = Meta(id: string, kind: string, name: string, poster: Option<string>)

  /** The feed id under which a catalog is published. */
  function FeedId(catalogId: string): string {
    "cat_" + catalogId
  }

  /** One manifest entry per catalog, all of the given type, in catalog order. */
  function Entries(cats: seq<Catalog>, kind: string): (r: seq<ManifestCatalog>)
    ensures |r| == |cats|
  {
    seq(|cats|, i requires 0 <= i < |cats| =>
      ManifestCatalog(kind, FeedId(cats[i].id), cats[i].name, [Extra("search", false)]))
  }

  /**
   * The manifest's catalog entries list every catalog twice: first all of them as
   * `movie` entries, then all of them as `series` entries, each half in catalog order.
   */
  function ManifestCatalogs(cats: seq<Catalog>): (r: seq<ManifestCatalog>)
    ensures |r| == 2 * |cats|
    ensures forall i :: 0 <= i < |cats| ==>
      r[i] == ManifestCatalog(MOVIE, FeedId(cats[i].id), cats[i].name, [Extra("search", false)])
    ensures forall i :: |cats| <= i < 2 * |cats| ==>
      r[i] == ManifestCatalog(SERIES, FeedId(cats[i - |cats|].id), cats[i - |cats|].name, [Extra("search", false)])
  {
    var movies := Entries(cats, MOVIE);
    var series := Entries(cats, SERIES);
    assert forall i :: |cats| <= i < 2 * |cats| ==> (movies + series)[i] == series[i - |cats|];
    movies + series
  }

  /** `GET /:userId/manifest.json`. */
  function BuildManifest(db: Db, userId: string): (r: Result<Manifest, Error>)
    ensures r.Err? <==> userId !in db.users
    ensures r.Err? ==> r.error == NotFound
    ensures r.Ok? ==> r.value.id == "com.customcatalogs." + userId && r.value.types == [MOVIE, SERIES]
    ensures r.Ok? ==> r.value.catalogs == ManifestCatalogs(CatalogsOf(db.catalogs, userId))
  {
    if userId !in db.users then Err(NotFound)
    else
      Ok(Manifest(
        "com.customcatalogs." + userId,
        "1.0.0",
        "Custom Catalogs",
        "Your personal custom catalogs",
        ["catalog"],
        [MOVIE, SERIES],
        ManifestCatalogs(CatalogsOf(db.catalogs, userId))))
  }

  /** `id.replace('cat_', '').replace('.json', '')`. */
  function ParseFeedId(id: string): string {
    ReplaceFirst(ReplaceFirst(id, "cat_", ""), ".json", "")
  }

  /** The listing handler recovers a catalog id from its feed id exactly when the id does not contain ".json". */
  lemma {:induction false} FeedIdRoundTrip(catalogId: string)
    ensures ParseFeedId(FeedId(catalogId)) == catalogId <==> !exists j :: OccursAt(catalogId, ".json", j)
  {
    ReplaceLeadingPattern("cat_", catalogId);
  }

  /** The meta the listing sends for an item: `tmdb:` + its TMDB id, and the poster on the image host. */
  function ItemMeta(it: Item): Meta {
    Meta("tmdb:" + it.tmdbId, it.kind, it.title, if Truthy(it.poster) then Some(POSTER_BASE + it.poster.value) else None)
  }

  /** The meta of a stored media row: that of its `{tmdbId, type, title, poster}` record. */
  function MetaOf(m: MediaItem): Meta {
    ItemMeta(Item(m.tmdbId, m.kind, m.title, m.poster))
  }

  function Metas(rows: seq<Row>): (r: seq<Meta>)
    ensures |r| == |rows| && forall i :: 0 <= i < |rows| ==> r[i] == MetaOf(rows[i].item)
  {
    if rows == [] then [] else [MetaOf(rows[0].item)] + Metas(rows[1..])
  }

  /** `.filter(i => i.mediaItem.type === type)`: exactly the rows of that type, in order. */
  function OfKind(rows: seq<Row>, kind: string): (r: seq<Row>)
    ensures |r| <= |rows|
    ensures forall row :: row in r <==> row in rows && row.item.kind == kind
  {
    if rows == [] then []
    else
      assert rows == [rows[0]] + rows[1..];
      (if rows[0].item.kind == kind then [rows[0]] else []) + OfKind(rows[1..], kind)
  }

  /**
   * Filtering distributes over concatenation: the kept rows stay in their order,
   * each as often as it occurs, and a single row is kept exactly when it has the type.
   */
  lemma {:induction false} OfKindAppend(a: seq<Row>, b: seq<Row>, kind: string)
    ensures OfKind(a + b, kind) == OfKind(a, kind) + OfKind(b, kind)
    ensures |a| == 1 ==> OfKind(a, kind) == if a[0].item.kind == kind then a else []
  {
    if a != [] {
      assert (a + b)[1..] == a[1..] + b;
      OfKindAppend(a[1..], b, kind);
    } else {
      assert a + b == b;
    }
  }

  lemma {:induction false} OfKindSorted(rows: seq<Row>, kind: string)
    requires SortedRows(rows)
    ensures SortedRows(OfKind(rows, kind))
  {
    if rows != [] {
      OfKindSorted(rows[1..], kind);
      if rows[0].item.kind == kind {
        SortedCons(rows[0], OfKind(rows[1..], kind));
      }
    }
  }

  /**
   * `GET /:userId/catalog/:type/:id.json`: a catalog that is missing or owned by
   * someone else gives no metas; otherwise the metas of its rows of the requested
   * type, in `createdAt` order.
   */
  function CatalogListing(db: Db, userId: string, kind: string, feedId: string): (r: seq<Meta>)
    ensures !Owns(db, userId, ParseFeedId(feedId)) ==> r == []
    ensures forall m :: m in r ==> m.kind == kind
  {
    var id := ParseFeedId(feedId);
    if !Owns(db, userId, id) then []
    else
      var rows := SortRows(OfKind(OrderedRows(db, id), kind));
      var r := Metas(rows);
      assert forall i :: 0 <= i < |r| ==> r[i].kind == kind by {
        forall i | 0 <= i < |r| ensures r[i].kind == kind {
          assert rows[i] in multiset(rows);
        }
      }
      r
  }

  /**
   * In a valid store, the listing of a catalog published under its feed id holds
   * one meta per link of the requested type, in the catalog's row order.
   */
  lemma {:induction false} ListingFollowsRowOrder(db: Db, userId: string, kind: string, catalogId: string)
    requires Valid(db) && Owns(db, userId, catalogId)
    requires !exists j :: OccursAt(catalogId, ".json", j)
    ensures CatalogListing(db, userId, kind, FeedId(catalogId)) == Metas(OfKind(Rows(db, catalogId), kind))
  {
    FeedIdRoundTrip(catalogId);
    ValidRowsOrdered(db, catalogId);
    OfKindSorted(OrderedRows(db, catalogId), kind);
    SortSorted(OfKind(OrderedRows(db, catalogId), kind));
  }
}
