/**
 * The database the routes share, as values: users, catalogs, media items
 * and the catalog-item links, each table a sequence in row order, plus the
 * logical clock that stands for `Date.now()` and for the database's
 * `now()` default on a link's `createdAt`.
 *
 * This module holds the lookups the routes make (`findUnique`, `findFirst`,
 * `findMany` with `include: { mediaItem: true }` and `orderBy: { createdAt:
 * 'asc' }`), the media upsert keyed by the natural key `(tmdbId, type)`, and
 * the store invariant every operation preserves.
 */
module Store {
  import opened Wrappers

  const MOVIE := "movie"
  const SERIES := "series"

  /** The natural key of a media item: the unique index `tmdbId_type`. */
  datatype Key = Key(tmdbId: string, kind: string)

  datatype MediaItem = MediaItem(id: nat, tmdbId: string, kind: string, title: string, poster: Option<string>) {
    function key(): Key { Key(tmdbId, kind) }
  }

  datatype Catalog = Catalog(id: string, name: string, kind: string, userId: string)

  /** A catalog item: membership of a media item in a catalog, ordered by `createdAt`. */
  datatype Link = Link(catalogId: string, mediaId: nat, createdAt: int)

  /** A link with its media item included. */
  datatype Row = Row(link: Link, item: MediaItem)

  /** The `{ tmdbId, type, title, poster }` record the routes send and receive. */
  datatype Item = Item(tmdbId: string, kind: string, title: string, poster: Option<string>) {
    function key(): Key { Key(tmdbId, kind) }
  }

  datatype Db = Db(
    users: set<string>,
    catalogs: seq<Catalog>,
    media: seq<MediaItem>,
    nextMediaId: nat,
    links: seq<Link>,
    clock: int)

  function CatalogIds(cats: seq<Catalog>): set<string> {
    set c | c in cats :: c.id
  }

  function MediaIds(media: seq<MediaItem>): set<nat> {
    set m | m in media :: m.id
  }

  predicate Increasing(links: seq<Link>) {
    forall i, j :: 0 <= i < j < |links| ==> links[i].createdAt < links[j].createdAt
  }

  /**
   * The store invariant: catalog ids and media ids are unique, the natural key
   * of media items is unique, every link refers to an existing catalog and media
   * item and lies before the clock, and within each catalog the links in row
   * order have strictly increasing creation times.
   */
  ghost predicate Valid(db: Db) {
    && (forall i, j :: 0 <= i < j < |db.catalogs| ==> db.catalogs[i].id != db.catalogs[j].id)
    && (forall i, j :: 0 <= i < j < |db.media| ==> db.media[i].key() != db.media[j].key())
    && (forall i, j :: 0 <= i < j < |db.media| ==> db.media[i].id != db.media[j].id)
    && (forall m :: m in db.media ==> m.id < db.nextMediaId)
    && (forall l :: l in db.links ==>
          l.catalogId in CatalogIds(db.catalogs) && l.mediaId in MediaIds(db.media) && l.createdAt < db.clock)
    && (forall c :: Increasing(LinksOf(db.links, c)))
  }

  // ---------------------------------------------------------------- lookups

  /** `catalog.findUnique({ where: { id } })`, as a row index. */
  function FindCatalog(cats: seq<Catalog>, id: string): (r: Option<nat>)
    ensures r.Some? ==> r.value < |cats| && cats[r.value].id == id
    ensures r.None? ==> forall i :: 0 <= i < |cats| ==> cats[i].id != id
  {
    if cats == [] then None
    else if cats[0].id == id then Some(0)
    else match FindCatalog(cats[1..], id)
      case None => None
      case Some(i) => Some(i + 1)
  }

  /** `catalog.findFirst({ where: { id, userId } })` found a row. */
  predicate Owns(db: Db, userId: string, id: string) {
    match FindCatalog(db.catalogs, id)
    case None => false
    case Some(i) => db.catalogs[i].userId == userId
  }

  /** `mediaItem.findUnique({ where: { tmdbId_type } })`, as a row index. */
  function FindMedia(media: seq<MediaItem>, k: Key): (r: Option<nat>)
    ensures r.Some? ==> r.value < |media| && media[r.value].key() == k
    ensures r.None? ==> forall i :: 0 <= i < |media| ==> media[i].key() != k
  {
    if media == [] then None
    else if media[0].key() == k then Some(0)
    else match FindMedia(media[1..], k)
      case None => None
      case Some(i) => Some(i + 1)
  }

  function Lookup(media: seq<MediaItem>, k: Key): Option<MediaItem> {
    match FindMedia(media, k)
    case None => None
    case Some(i) => Some(media[i])
  }

  /** A row found by key has that key. */
  lemma {:induction false} LookupKey(media: seq<MediaItem>, k: Key)
    ensures Lookup(media, k).Some? ==> Lookup(media, k).value.key() == k
  {
  }

  /** The media item a link's `mediaItemId` refers to. */
  function MediaById(media: seq<MediaItem>, id: nat): (r: Option<MediaItem>)
    ensures r.Some? ==> r.value in media && r.value.id == id
    ensures r.None? ==> id !in MediaIds(media)
  {
    if media == [] then None
    else if media[0].id == id then Some(media[0])
    else MediaById(media[1..], id)
  }

  /** `catalog.findMany({ where: { userId } })`. */
  function CatalogsOf(cats: seq<Catalog>, userId: string): (r: seq<Catalog>)
    ensures |r| <= |cats|
    ensures forall c :: c in r <==> c in cats && c.userId == userId
  {
    if cats == [] then []
    else
      assert cats == [cats[0]] + cats[1..];
      (if cats[0].userId == userId then [cats[0]] else []) + CatalogsOf(cats[1..], userId)
  }

  /** The caller's catalogs of two tables in a row are those of the first, then those of the second. */
  lemma {:induction false} CatalogsOfAppend(a: seq<Catalog>, b: seq<Catalog>, userId: string)
    ensures CatalogsOf(a + b, userId) == CatalogsOf(a, userId) + CatalogsOf(b, userId)
  {
    if a != [] {
      assert (a + b)[1..] == a[1..] + b;
      CatalogsOfAppend(a[1..], b, userId);
    } else {
      assert a + b == b;
    }
  }

  /** The links of one catalog, in row order. */
  function LinksOf(links: seq<Link>, id: string): (r: seq<Link>)
    ensures forall l :: l in r ==> l in links && l.catalogId == id
  {
    if links == [] then []
    else (if links[0].catalogId == id then [links[0]] else []) + LinksOf(links[1..], id)
  }

  /** The links of every other catalog, in row order: `deleteMany({ where: { catalogId: id } })`. */
  function LinksNotOf(links: seq<Link>, id: string): (r: seq<Link>)
    ensures forall l :: l in r ==> l in links && l.catalogId != id
  {
    if links == [] then []
    else (if links[0].catalogId != id then [links[0]] else []) + LinksNotOf(links[1..], id)
  }

  /** `include: { mediaItem: true }` on a list of links. */
  function Join(media: seq<MediaItem>, links: seq<Link>): (r: seq<Row>)
    ensures forall row :: row in r ==> row.link in links && row.item in media && row.item.id == row.link.mediaId
  {
    if links == [] then []
    else
      (match MediaById(media, links[0].mediaId)
       case None => []
       case Some(m) => [Row(links[0], m)])
      + Join(media, links[1..])
  }

  function Rows(db: Db, catalogId: string): seq<Row> {
    Join(db.media, LinksOf(db.links, catalogId))
  }

  // ---------------------------------------------------------------- ordering

  predicate SortedRows(s: seq<Row>) {
    forall i, j :: 0 <= i < j < |s| ==> s[i].link.createdAt <= s[j].link.createdAt
  }

  /** A row no later than every row of a sorted list can go in front of it. */
  lemma {:induction false} SortedCons(x: Row, t: seq<Row>)
    requires SortedRows(t)
    requires forall y :: y in t ==> x.link.createdAt <= y.link.createdAt
    ensures SortedRows([x] + t)
  {
    forall i, j | 0 <= i < j < |[x] + t|
      ensures ([x] + t)[i].link.createdAt <= ([x] + t)[j].link.createdAt
    {
      if i == 0 {
        assert ([x] + t)[j] == t[j - 1];
      }
    }
  }

  /** Inserts `x` before the first row that is not earlier than it. */
  function InsertRow(x: Row, s: seq<Row>): (r: seq<Row>)
    requires SortedRows(s)
    ensures forall y :: y in r ==> y == x || y in s
    ensures SortedRows(r) && multiset(r) == multiset(s) + multiset{x}
  {
    if s == [] || x.link.createdAt <= s[0].link.createdAt then
      SortedCons(x, s);
      [x] + s
    else
      var rest := InsertRow(x, s[1..]);
      assert s == [s[0]] + s[1..];
      assert forall y :: y in s[1..] ==> s[0].link.createdAt <= y.link.createdAt;
      SortedCons(s[0], rest);
      [s[0]] + rest
  }

  /**
   * A stable sort by link `createdAt`: both `orderBy: { createdAt: 'asc' }` and
   * `.sort((a, b) => new Date(a.createdAt) - new Date(b.createdAt))`.
   */
  function SortRows(s: seq<Row>): (r: seq<Row>)
    ensures SortedRows(r) && multiset(r) == multiset(s)
  {
    if s == [] then []
    else
      assert s == [s[0]] + s[1..];
      InsertRow(s[0], SortRows(s[1..]))
  }

  /** Sorting rows that are already in order changes nothing. */
  lemma {:induction false} SortSorted(s: seq<Row>)
    requires SortedRows(s)
    ensures SortRows(s) == s
  {
    if s != [] {
      SortSorted(s[1..]);
      assert s == [s[0]] + s[1..];
    }
  }

  /** The rows of a catalog in the order the routes fetch them. */
  function OrderedRows(db: Db, catalogId: string): seq<Row> {
    SortRows(Rows(db, catalogId))
  }

  /** The `{ tmdbId, type, title, poster }` projection of rows. */
  function Project(rows: seq<Row>): (r: seq<Item>)
    ensures |r| == |rows|
    ensures forall i :: 0 <= i < |rows| ==>
      r[i] == Item(rows[i].item.tmdbId, rows[i].item.kind, rows[i].item.title, rows[i].item.poster)
  {
    if rows == [] then [] else [Item(rows[0].item.tmdbId, rows[0].item.kind, rows[0].item.title, rows[0].item.poster)] + Project(rows[1..])
  }

  /** A catalog's items as the GET, PUT and export responses list them. */
  function CatalogItems(db: Db, catalogId: string): seq<Item> {
    Project(OrderedRows(db, catalogId))
  }

  function Keys(items: seq<Item>): (r: seq<Key>)
    ensures |r| == |items| && forall i :: 0 <= i < |items| ==> r[i] == items[i].key()
  {
    if items == [] then [] else [items[0].key()] + Keys(items[1..])
  }

  // ---------------------------------------------------------------- upsert

  /**
   * `mediaItem.upsert` on the natural key of `item`: the existing row gets the
   * item's title and poster when `overwrite` holds (an empty `update` otherwise);
   * a missing row is created with the next media id.
   */
  function Upsert(db: Db, item: Item, overwrite: bool): (r: Db)
    ensures r.users == db.users && r.catalogs == db.catalogs && r.links == db.links && r.clock == db.clock
  {
    match FindMedia(db.media, item.key())
    case Some(i) =>
      if overwrite then db.(media := db.media[i := db.media[i].(title := item.title, poster := item.poster)])
      else db
    case None =>
      db.(media := db.media + [MediaItem(db.nextMediaId, item.tmdbId, item.kind, item.title, item.poster)],
          nextMediaId := db.nextMediaId + 1)
  }

  /**
   * After an upsert the key is stored; its title and poster are the item's unless
   * the row existed and the update was empty; no other key's row changes.
   */
  lemma {:induction false} UpsertEffect(db: Db, item: Item, overwrite: bool)
    requires Valid(db)
    ensures var r := Upsert(db, item, overwrite);
      && Lookup(r.media, item.key()).Some?
      && (if Lookup(db.media, item.key()).Some? && !overwrite
          then Lookup(r.media, item.key()) == Lookup(db.media, item.key())
          else (Lookup(r.media, item.key()).value.title == item.title
                && Lookup(r.media, item.key()).value.poster == item.poster))
      && (forall k :: k != item.key() ==> Lookup(r.media, k) == Lookup(db.media, k))
  {
    var r := Upsert(db, item, overwrite);
    var k := item.key();
    match FindMedia(db.media, k)
    case Some(i) =>
      assert r.media[i].key() == k;
      LookupAt(r.media, i);
      forall k' | k' != k ensures Lookup(r.media, k') == Lookup(db.media, k') {
        LookupUnchanged(db.media, r.media, i, k');
      }
    case None =>
      var n := MediaItem(db.nextMediaId, item.tmdbId, item.kind, item.title, item.poster);
      assert r.media[|db.media|] == n;
      LookupAt(r.media, |db.media|);
      forall k' | k' != k ensures Lookup(r.media, k') == Lookup(db.media, k') {
        LookupAppend(db.media, n, k');
      }
  }

  /** A get-or-create upsert (empty `update`) leaves every existing row as it was. */
  lemma {:induction false} UpsertKeepsRows(db: Db, item: Item, id: nat)
    requires MediaById(db.media, id).Some?
    ensures MediaById(Upsert(db, item, false).media, id) == MediaById(db.media, id)
  {
    var r := Upsert(db, item, false);
    if FindMedia(db.media, item.key()).None? {
      MediaByIdAppend(db.media, r.media[|db.media|], id);
      assert r.media == db.media + [r.media[|db.media|]];
    }
  }

  lemma {:induction false} MediaByIdAppend(media: seq<MediaItem>, n: MediaItem, id: nat)
    requires MediaById(media, id).Some?
    ensures MediaById(media + [n], id) == MediaById(media, id)
  {
    if media[0].id != id {
      assert (media + [n])[1..] == media[1..] + [n];
      MediaByIdAppend(media[1..], n, id);
    }
  }

  /** In a store with unique keys, the row at `i` is the one found for its key. */
  lemma {:induction false} LookupAt(media: seq<MediaItem>, i: nat)
    requires i < |media|
    requires forall a, b :: 0 <= a < b < |media| ==> media[a].key() != media[b].key()
    ensures Lookup(media, media[i].key()) == Some(media[i])
  {
  }

  lemma {:induction false} LookupUnchanged(media: seq<MediaItem>, media': seq<MediaItem>, i: nat, k: Key)
    requires i < |media| == |media'|
    requires media'[i].key() == media[i].key() != k
    requires forall j :: 0 <= j < |media| && j != i ==> media'[j] == media[j]
    ensures Lookup(media', k) == Lookup(media, k)
  {
    if i > 0 {
      LookupUnchanged(media[1..], media'[1..], i - 1, k);
    } else if |media| > 1 {
      assert media'[1..] == media[1..];
    }
  }

  lemma {:induction false} LookupAppend(media: seq<MediaItem>, n: MediaItem, k: Key)
    requires n.key() != k
    ensures Lookup(media + [n], k) == Lookup(media, k)
  {
    if media != [] {
      assert (media + [n])[1..] == media[1..] + [n];
      LookupAppend(media[1..], n, k);
    }
  }

  lemma {:induction false} UpsertValid(db: Db, item: Item, overwrite: bool)
    requires Valid(db)
    ensures Valid(Upsert(db, item, overwrite))
  {
    var r := Upsert(db, item, overwrite);
    match FindMedia(db.media, item.key())
    case Some(i) =>
      assert forall j :: 0 <= j < |r.media| ==> r.media[j].id == db.media[j].id && r.media[j].key() == db.media[j].key();
      assert MediaIds(r.media) == MediaIds(db.media) by {
        forall x | x in MediaIds(db.media) ensures x in MediaIds(r.media) {
          var j :| 0 <= j < |db.media| && db.media[j].id == x;
          assert r.media[j] in r.media;
        }
      }
    case None =>
      assert MediaIds(db.media) <= MediaIds(r.media);
  }

  // ---------------------------------------------------------------- link algebra

  lemma {:induction false} LinksOfAppend(a: seq<Link>, b: seq<Link>, c: string)
    ensures LinksOf(a + b, c) == LinksOf(a, c) + LinksOf(b, c)
  {
    if a != [] {
      assert (a + b)[1..] == a[1..] + b;
      LinksOfAppend(a[1..], b, c);
    } else {
      assert a + b == b;
    }
  }

  /** Deleting one catalog's links leaves every other catalog's links as they were. */
  lemma {:induction false} LinksOfNotOf(s: seq<Link>, id: string, c: string)
    ensures LinksOf(LinksNotOf(s, id), c) == if c == id then [] else LinksOf(s, c)
  {
    if s != [] {
      LinksOfNotOf(s[1..], id, c);
      var head := if s[0].catalogId != id then [s[0]] else [];
      LinksOfAppend(head, LinksNotOf(s[1..], id), c);
    }
  }

  lemma {:induction false} LinksOfUniform(s: seq<Link>, id: string, c: string)
    requires forall l :: l in s ==> l.catalogId == id
    ensures LinksOf(s, c) == if c == id then s else []
  {
    if s != [] {
      LinksOfUniform(s[1..], id, c);
      assert s == [s[0]] + s[1..];
    }
  }

  lemma {:induction false} LinksOfNone(s: seq<Link>, c: string)
    requires forall l :: l in s ==> l.catalogId != c
    ensures LinksOf(s, c) == []
  {
    if s != [] {
      LinksOfNone(s[1..], c);
    }
  }

  /** When every link resolves, the join keeps every link, in order. */
  lemma {:induction false} JoinComplete(media: seq<MediaItem>, ls: seq<Link>)
    requires forall l :: l in ls ==> l.mediaId in MediaIds(media)
    ensures |Join(media, ls)| == |ls|
    ensures forall i :: 0 <= i < |ls| ==>
      Join(media, ls)[i] == Row(ls[i], MediaById(media, ls[i].mediaId).value)
  {
    if ls != [] {
      JoinComplete(media, ls[1..]);
      assert ls[0] in ls;
      assert Join(media, ls) == [Row(ls[0], MediaById(media, ls[0].mediaId).value)] + Join(media, ls[1..]);
    }
  }

  /** In a valid store the `createdAt` order of a catalog's rows is their row order. */
  lemma {:induction false} ValidRowsOrdered(db: Db, c: string)
    requires Valid(db)
    ensures OrderedRows(db, c) == Rows(db, c)
    ensures |Rows(db, c)| == |LinksOf(db.links, c)|
  {
    var ls := LinksOf(db.links, c);
    JoinComplete(db.media, ls);
    assert Increasing(ls);
    SortSorted(Rows(db, c));
  }

  /** In a valid store the row for a media id is the one with that id. */
  lemma {:induction false} MediaByIdUnique(media: seq<MediaItem>, i: nat)
    requires i < |media|
    requires forall a, b :: 0 <= a < b < |media| ==> media[a].id != media[b].id
    ensures MediaById(media, media[i].id) == Some(media[i])
  {
    if i > 0 && media[0].id != media[i].id {
      MediaByIdUnique(media[1..], i - 1);
    }
  }
}
