# Custom Catalogs — a Dafny model

Custom Catalogs lets a user keep personal lists ("catalogs") of movies and series taken from
TMDB. It publishes them to a Stremio-style addon as a manifest and per-type listings. It also
exports and imports the lists as a JSON backup. This project models the core of that server in
Dafny 4.11 and proves properties of it.

- **Store** (`store.dfy`). The database is a value `Db` with these parts:
  - the set of users;
  - the catalog, media-item and catalog-item ("link") tables, each a sequence in row order;
  - the next media-item id;
  - a logical clock that stands for `Date.now()` and for the link `createdAt` default.

  The invariant `Valid` says:
  - catalog ids and media ids are unique;
  - the natural key `(tmdbId, type)` is unique;
  - every link refers to an existing catalog and media item and lies before the clock;
  - each catalog's links, in row order, have strictly increasing `createdAt`.

  The module holds the lookups, the stable `createdAt` sort, the projection to
  `{tmdbId, type, title, poster}`, and the media upsert on the natural key.
- **Addon feed** (`addon.dfy`, read-only). The manifest lists every catalog twice, first as
  movie entries and then as series entries. The listing parses a feed id, applies the
  ownership guard, then filters by type, sorts and maps to metas.
- **Catalog routes** (`catalogs.dfy`). These are transitions of the store:
  - list, with the GET projection;
  - create, with the `movie` default type;
  - update: rename when the name is truthy, upsert every item, then replace the catalog's links
    with links created at `now + index`;
  - delete, guarded by ownership.
- **Backup** (`backup.dfy`). Export lists the caller's catalogs with their items. Import
  creates one catalog per entry and does a get-or-create of each item's media row. Each link is
  created one clock tick after the previous one.
- **Database object** (`database.dfy`). `Server.Database` holds the tables as mutable fields.
  - The handlers that change the database are its methods: upsert, create, update, delete and
    import. They update the tables row by row, in loops where the routes loop.
  - Each method is proved to leave exactly the state the matching transition describes. So
    everything proved about the transitions holds of the handlers.
- **TMDB details** (`tmdb.dfy`). Pure extraction from a parsed details response to the
  enrichment record: runtime text, top-10 actors, directors and creators, logo language
  preference, image URLs, last-episode date, and the movie/series dispatch.
- **Item list editor** (`editor.dfy`). `addItem` appends with de-duplication on the TMDB id and
  fills in defaults. `removeItem` filters by TMDB id. Both exist as functions on lists and as
  methods of an `Editor` object whose list they replace.
- **Support.** `wrappers.dfy` holds `Option`/`Result` and JavaScript truthiness.
  `strings.dfy` holds the JavaScript `String(n)`, `join`, `split` and `replace` (first
  occurrence).

## Model

| member | source | states |
|---|---|---|
| Store.FindCatalog | server/src/routes/catalogs.js:65-67 | the index found holds a catalog with that id; when none is found, no catalog has it |
| Store.FindMedia | server/src/routes/catalogs.js:114 | the index found holds a media item with the natural key; when none is found, no item has it |
| Store.MediaById | server/src/routes/catalogs.js:15-17 | the included media item is a row of the table with the link's media id; when none is found, no row has that id |
| Store.CatalogsOf | server/src/routes/catalogs.js:11-12 | a catalog is returned if and only if it is in the table and belongs to the given user |
| Store.CatalogsOfAppend | server/src/routes/catalogs.js:11-12 | the user's catalogs of two tables in a row are those of the first followed by those of the second, so the filter keeps table order and every occurrence |
| Store.LinksOf | server/src/routes/catalogs.js:14-19 | a catalog's items are links of the table that belong to that catalog |
| Store.LinksNotOf | server/src/routes/catalogs.js:126 | after `deleteMany` on a catalog, no remaining link belongs to it, and every remaining link was there before |
| Store.Join | server/src/routes/catalogs.js:15-17 | each joined row pairs a link with the media row whose id the link names |
| Store.InsertRow | server/src/routes/addon.js:80 | inserting into a sorted list keeps it sorted by `createdAt` and adds exactly the one row |
| Store.SortRows | server/src/routes/addon.js:80 | the result is sorted by ascending link `createdAt` and is a permutation of the input |
| Store.SortSorted | server/src/routes/catalogs.js:18 | sorting rows that are already in `createdAt` order changes nothing |
| Store.Project | server/src/routes/catalogs.js:26-31 | one `{tmdbId, type, title, poster}` per row, taken from the row's media item, in row order |
| Store.Upsert | server/src/routes/catalogs.js:81-98 | an upsert touches only the media table and the media id counter: users, catalogs, links and the clock are unchanged |
| Store.UpsertEffect | server/src/routes/catalogs.js:81-98 | after an upsert the key is stored; it has the item's title and poster unless the row existed and the update was empty; no other key's row changes |
| Store.UpsertKeepsRows | server/src/routes/backup.js:75-89 | a get-or-create upsert with an empty `update` leaves every existing media row as it was |
| Store.UpsertValid | server/src/routes/catalogs.js:81-98 | an upsert keeps the store invariant, in particular the uniqueness of `(tmdbId, type)` |
| Store.LinksOfAppend | server/src/routes/catalogs.js:127-129 | the links of a catalog after links are appended are the old ones followed by the appended ones |
| Store.LinksOfNotOf | server/src/routes/catalogs.js:126 | deleting one catalog's links leaves that catalog with none and every other catalog's links as they were |
| Store.ValidRowsOrdered | server/src/routes/catalogs.js:13-20 | in a valid store, `orderBy: { createdAt: 'asc' }` gives a catalog's links in row order, one row per link |
| Strings.NatToString | client/src/pages/EditCatalog.jsx:53 | `String(n)` is a non-empty string of decimal digits in canonical form: `0` for zero, and no leading zero otherwise |
| Strings.ParseNatToString | client/src/pages/EditCatalog.jsx:53 | the decimal text of a number reads back as that number |
| Strings.NatToStringInjective | client/src/pages/EditCatalog.jsx:50 | different numbers give different `String(n)` texts, so de-duplication on the text is de-duplication on the id |
| Strings.SplitJoin | server/src/services/tmdbService.js:23 | splitting a `#`-join gives back the parts, when there is at least one part and no part contains `#` |
| Strings.IndexFrom | server/src/routes/addon.js:61 | the index returned is the first occurrence of the pattern at or after the start; when none is returned, the pattern does not occur |
| Strings.ReplaceFirst | server/src/routes/addon.js:61 | a pattern that does not occur changes nothing; otherwise the first occurrence, and only it, is replaced: the text before it, then the replacement, then the text after it |
| Strings.ReplaceLeadingPattern | server/src/routes/addon.js:61 | replacing a prefix pattern with the empty string removes that prefix |
| Addon.BuildManifest | server/src/routes/addon.js:11-28 | an unknown user gets a 404 and no manifest; otherwise the id is `com.customcatalogs.` + userId, the types are exactly movie and series, and the entries are `ManifestCatalogs` of the user's catalogs |
| Addon.ManifestCatalogs | server/src/routes/addon.js:29-44 | the entries for n catalogs number 2×n: first all catalogs as movie entries, then all as series entries, each half in catalog order, with id `cat_` + catalog id and the catalog name |
| Addon.FeedIdRoundTrip | server/src/routes/addon.js:61 | the listing's id parsing recovers the catalog id from `cat_` + id if and only if the id contains no `.json` |
| Addon.Metas | server/src/routes/addon.js:83-88 | one meta per row, in order, built from the row's media item |
| Addon.OfKind | server/src/routes/addon.js:79 | a row is kept if and only if it is an input row of the requested type; no more rows than the input |
| Addon.OfKindAppend | server/src/routes/addon.js:79 | the filter distributes over concatenation, and one row is kept exactly when it has the type, so the kept rows keep their order and multiplicity |
| Addon.OfKindSorted | server/src/routes/addon.js:78-80 | filtering a `createdAt`-sorted list by type keeps it sorted |
| Addon.CatalogListing | server/src/routes/addon.js:55-96 | a missing catalog, or one owned by someone else, gives no metas; every meta has the requested type |
| Addon.ListingFollowsRowOrder | server/src/routes/addon.js:78-81 | in a valid store the listing is the metas of the catalog's rows of that type, in link order |
| Catalogs.ListCatalogs | server/src/routes/catalogs.js:9-32 | one view per catalog of the caller, in the order `CatalogsOf` gives: view i has catalog i's id, name, type and owner, and that catalog's items |
| Catalogs.ListedItemsFollowRowOrder | server/src/routes/catalogs.js:11-32 | in a valid store each listed catalog's items are its links' media items in link order |
| Catalogs.NewCatalog | server/src/routes/catalogs.js:43-50 | the new catalog has the given name and the caller as owner; its type is the given one when truthy and `movie` otherwise |
| Catalogs.AddCatalogValid | server/src/routes/catalogs.js:44-50 | creating a catalog under a fresh id keeps the store valid; the new catalog belongs to the caller and has no items |
| Catalogs.UpsertAll | server/src/routes/catalogs.js:80-99 | the upsert loop changes only media rows and the media id counter |
| Catalogs.LastWith | server/src/routes/catalogs.js:80-99 | the item found is an input item with the key; when none is found, no input item has it |
| Catalogs.LastWithAt | server/src/routes/catalogs.js:80-99 | the item at the last position that holds a key is the one `LastWith` finds, so the last occurrence decides the stored title and poster |
| Catalogs.UpsertAllValid | server/src/routes/catalogs.js:80-99 | the upsert loop keeps the store valid |
| Catalogs.UpsertAllStores | server/src/routes/catalogs.js:80-99 | after the loop each input key is stored with the title and poster of its last occurrence in the input; other keys keep their rows |
| Catalogs.OrderedLinks | server/src/routes/catalogs.js:112-121 | the new links belong to the catalog, name existing media rows, have `createdAt` in [now, now + n) and strictly increase in input order |
| Catalogs.OrderedLinksComplete | server/src/routes/catalogs.js:113-121 | when every item's row exists there is one link per input item, and link k is created at now + k |
| Catalogs.RenameValid | server/src/routes/catalogs.js:71-76 | renaming keeps the store valid and the set of catalog ids |
| Catalogs.ReplaceLinksValid | server/src/routes/catalogs.js:125-130 | the delete-then-create transaction keeps the store valid; the catalog's links become exactly the new ones, and other catalogs keep theirs |
| Catalogs.UpdateValid | server/src/routes/catalogs.js:59-131 | every PUT, with or without name and items, keeps the store valid |
| Catalogs.UpdateCatalogRow | server/src/routes/catalogs.js:64-78 | for the owner, the name changes only when the given name is truthy and nothing else in the catalog table changes; without items, links and media are untouched; the caller still owns the catalog |
| Catalogs.UpdateStoresItems | server/src/routes/catalogs.js:80-99 | after a PUT with items each input key is stored, with the title and poster of its last occurrence; other keys are unchanged |
| Catalogs.UpdateReplacesLinks | server/src/routes/catalogs.js:112-130 | after a PUT with items the catalog has exactly one link per input item, link k created at now + k (so an empty list clears it); other catalogs' links are untouched |
| Catalogs.UpdatedRows | server/src/routes/catalogs.js:102-130 | after a PUT with items the catalog has one row per input item, and row k is the stored row for item k's key |
| Catalogs.RowsFollowItems | server/src/routes/catalogs.js:133-152 | when a catalog's rows hold, in order, media items with the items' keys, the response lists those keys in order, and lists the items themselves when titles and posters match too |
| Catalogs.ProjectMatches | server/src/routes/catalogs.js:26-31 | projecting rows whose media items match the items in key, and then in title and poster, gives those keys, and then those items |
| Catalogs.UpdateKeepsInputOrder | server/src/routes/catalogs.js:133-152 | the PUT response lists the input's keys in input order; with no repeated key it lists exactly the input items |
| Catalogs.MetasOfProjection | server/src/routes/addon.js:78-88 | the listing's metas depend only on the projected items of the rows |
| Catalogs.ListingOfItems | server/src/routes/addon.js:78-90 | an owned catalog's listing is the metas of its listed items of the requested type, in order |
| Catalogs.ListingAfterUpdate | server/src/routes/catalogs.js:113-130 | after replacing a catalog's items with a list without repeated keys, the addon listing for a type shows that type's items in exactly the submitted order |
| Catalogs.CatalogsExcept | server/src/routes/catalogs.js:172 | exactly the catalogs whose id is not the deleted one remain |
| Catalogs.DeleteEffect | server/src/routes/catalogs.js:163-173 | deleting an owned catalog removes it and its links; every other catalog and its links stay |
| Catalogs.DeleteValid | server/src/routes/catalogs.js:172 | deleting keeps the store valid |
| Backup.Export | server/src/routes/backup.js:9-40 | version `1.0`; one entry per catalog of the caller, with the same name, type and items as the catalog list |
| Backup.ImportItem | server/src/routes/backup.js:73-101 | importing an item never touches users or catalogs |
| Backup.ImportItems | server/src/routes/backup.js:72-102 | importing a catalog's items never touches users or catalogs |
| Backup.Import | server/src/routes/backup.js:51-110 | a body without a catalogs array is a 400 (bad request); otherwise the response count is the number of entries |
| Backup.Created | server/src/routes/backup.js:61-69 | one catalog per entry, with the entry's name and type, the caller as owner and the id generated for it |
| Backup.UpsertedRow | server/src/routes/backup.js:75-89 | the row the upsert returns has the item's natural key |
| Backup.ImportItemLinks | server/src/routes/backup.js:92-97 | importing an item appends one link, at the current time, to its catalog's links and none to any other catalog |
| Backup.ImportItemRows | server/src/routes/backup.js:75-89 | importing an item links a row with the item's key and leaves every existing media row and stored key as it was |
| Backup.AppendLinkValid | server/src/routes/backup.js:92-100 | creating a link at the current time and then letting the clock advance keeps the store valid |
| Backup.ImportItemValid | server/src/routes/backup.js:73-101 | importing an item into an existing catalog keeps the store valid |
| Backup.ImportItemsValid | server/src/routes/backup.js:72-102 | importing a catalog's items keeps the store valid |
| Backup.ImportItemsFrame | server/src/routes/backup.js:72-102 | importing a catalog's items leaves other catalogs' links, and every stored media row, as they were |
| Backup.ResolveStep | server/src/routes/backup.js:75-97 | importing one more item extends the catalog's links by one that names a row with the item's key |
| Backup.ImportItemsResolve | server/src/routes/backup.js:72-102 | importing items into a catalog without links gives it one link per item, in input order, each naming a row with that item's key |
| Backup.ImportItemsEffect | server/src/routes/backup.js:72-102 | importing items into a new catalog gives it one link per item, in input order, each naming a row with that item's key; nothing else changes except new media rows |
| Backup.ResolvedKeys | server/src/routes/backup.js:33-38 | links that name rows with the items' keys list those keys in order |
| Backup.ImportCatalogEffect | server/src/routes/backup.js:61-102 | importing one entry adds exactly one catalog, owned by the caller, whose items have the entry's keys in order; no other catalog's items and no stored media row change |
| Backup.ImportCatalogShape | server/src/routes/backup.js:61-102 | importing one entry under a fresh id keeps the store valid, appends exactly the caller-owned catalog for it, and leaves every stored key with the row it had |
| Backup.ImportCatalogItems | server/src/routes/backup.js:61-102 | the catalog created for an entry lists the entry's item keys in order |
| Backup.ImportCatalogOther | server/src/routes/backup.js:61-102 | importing one entry does not change what any other catalog lists |
| Backup.ImportAllShape | server/src/routes/backup.js:61-103 | a whole import keeps the store valid, appends one caller-owned catalog per entry in input order, leaves existing catalogs alone and never overwrites a stored media row |
| Backup.ImportAllKeepsOthers | server/src/routes/backup.js:61-103 | a catalog the import did not create lists the same items afterwards |
| Backup.ImportAllKeys | server/src/routes/backup.js:72-101 | the catalog created for entry k lists the keys of that entry's items in input order |
| Backup.ImportThenExport | server/src/routes/backup.js:61-103 | importing for a caller with no catalogs and then exporting gives one entry per imported entry, with the same name, type and item keys in order |
| Backup.CallerCatalogsCreated | server/src/routes/backup.js:61-69 | for a caller with no catalogs, the caller's catalogs after the new ones are appended are exactly the new ones, in order |
| Backup.ExportImportRoundTrip | server/src/routes/backup.js:27-40 | exporting one user's catalogs, importing the file for a user with none and re-exporting reproduces names, types and per-catalog `(tmdbId, type)` sequences |
| Server.Database.UpsertMedia | server/src/routes/catalogs.js:81-98 | the in-place upsert leaves the tables as `Store.Upsert` describes and returns the id of the existing or created row |
| Server.Database.CreateCatalog | server/src/routes/catalogs.js:41-56 | creating keeps the database valid and appends the catalog `NewCatalog` describes |
| Server.Database.UpdateCatalog | server/src/routes/catalogs.js:59-160 | a non-owner gets a 404 and nothing changes; otherwise the tables become `Catalogs.Update` of the old ones, the database stays valid, and the response carries the catalog's id, owner, new name and items |
| Server.Database.SaveItems | server/src/routes/catalogs.js:78-131 | the upsert loop followed by the link replacement leaves the state `UpsertAll` then `ReplaceLinks` describes |
| Server.Database.ImportEntry | server/src/routes/backup.js:61-102 | importing one entry in place leaves the tables as `Backup.ImportCatalog` describes |
| Server.Database.ImportOne | server/src/routes/backup.js:75-100 | importing one item in place leaves the tables as `Backup.ImportItem` describes |
| Server.Database.DeleteCatalog | server/src/routes/catalogs.js:163-177 | a non-owner gets a 404 and nothing changes; otherwise the tables become `Catalogs.Delete` of the old ones and stay valid |
| Server.Database.ImportBackup | server/src/routes/backup.js:51-110 | a body without a catalogs array is a 400 and nothing changes; otherwise the nested loops leave `Backup.ImportAll` of the old state, the database stays valid, and the count is the number of entries |
| Tmdb.OrNull | server/src/services/tmdbService.js:40 | `s \|\| null` is present exactly when `s` is a non-empty string, and then it is `s` |
| Tmdb.TopCast | server/src/services/tmdbService.js:23 | exactly ten names when the cast has more than ten, otherwise the whole cast; each is the cast name at the same position |
| Tmdb.DirectorNames | server/src/services/tmdbService.js:26 | a name is included exactly when some crew member with job `Director` has it; no more names than crew members |
| Tmdb.DirectorNamesAppend | server/src/services/tmdbService.js:26 | the names of two crews in a row are those of the first, then those of the second, and one member contributes its name exactly when its job is `Director`, so the names follow crew order |
| Tmdb.ActorsSplit | server/src/services/tmdbService.js:23 | the `actors` text splits on `#` back into the first ten cast names (fewer when the cast is shorter) |
| Tmdb.DirectorsSplit | server/src/services/tmdbService.js:26 | when the crew has a Director, the movie `directors` text splits on `#` back into exactly the Director names, in crew order |
| Tmdb.CreatorsSplit | server/src/services/tmdbService.js:77 | the series `directors` text splits on `#` back into the creators' names |
| Tmdb.FindLang | server/src/services/tmdbService.js:30-31 | the logo found has the requested language; when none is found, no logo has it |
| Tmdb.FindLangAt | server/src/services/tmdbService.js:30-31 | the first logo with the language is the one found |
| Tmdb.PickLogo | server/src/services/tmdbService.js:29-32 | the first Spanish logo's path when it is non-empty; else the first English logo's; else the first logo's; else none. A chosen path is non-empty and belongs to some logo, and missing images give none |
| Tmdb.PickLogoSpanish | server/src/services/tmdbService.js:30 | the first Spanish logo wins when it has a path |
| Tmdb.PickLogoEnglish | server/src/services/tmdbService.js:30-31 | when the first Spanish logo has no path, a later Spanish logo is not looked at and the first English logo with a path wins |
| Tmdb.OriginalUrl | server/src/services/tmdbService.js:44-45 | a URL exists exactly when the path is a non-empty string, and it is the original-size prefix followed by the path |
| Tmdb.JsRem | server/src/services/tmdbService.js:35 | the JavaScript remainder: the dividend is the quotient truncated toward zero times the divisor plus the remainder, which has the sign of the dividend and is smaller in size than the divisor |
| Tmdb.MovieRuntime | server/src/services/tmdbService.js:35 | the runtime text is present exactly when the runtime is present and non-zero |
| Tmdb.MovieRuntimeSplitsHours | server/src/services/tmdbService.js:35 | a positive runtime r renders as `<h>h <m>min` with m < 60 and h·60 + m = r |
| Tmdb.SeriesRuntime | server/src/services/tmdbService.js:89 | the text is present exactly when the first episode runtime is present and non-zero, and it ends in `min` |
| Tmdb.SeriesRuntimeReadsBack | server/src/services/tmdbService.js:89 | a positive first episode runtime renders as its canonical decimal text followed by `min`, and the digits before `min` read back as that runtime |
| Tmdb.LastEpisodeDate | server/src/services/tmdbService.js:86 | the last aired episode's date when it is a non-empty string, else the show's last air date, else null |
| Tmdb.MovieDetails | server/src/services/tmdbService.js:9-55 | a failed fetch gives null; otherwise `lastEpisodeDate` is null and every other field is the value of its extractor: `OrNull` of the overview, release date and IMDb id, `MovieRuntime`, `OriginalUrl` of the backdrop and of `PickLogo`, `Actors` and `MovieDirectors` |
| Tmdb.SeriesDetails | server/src/services/tmdbService.js:60-109 | a failed fetch gives null; otherwise every field is the value of its extractor: `SeriesRuntime`, `OrNull` of `first_air_date`, `OriginalUrl` of the backdrop and of `PickLogo`, `Actors`, `SeriesDirectors` of the creators and `LastEpisodeDate` |
| Tmdb.MediaDetails | server/src/services/tmdbService.js:114-121 | `movie` goes to the movie extractor and `series` to the series extractor; any other type gives null |
| EditCatalog.NewItem | client/src/pages/EditCatalog.jsx:52-57 | the new item's TMDB id is `String(id)`; its type is the media type or `movie`; its title is the result's title, else its name, else `Unknown Title`; its poster is the poster path when that is non-empty, else none |
| EditCatalog.Added | client/src/pages/EditCatalog.jsx:47-59 | a result without an id, or whose id is already listed (whatever its type), leaves the list unchanged; otherwise the list grows by one at the end and keeps every earlier item |
| EditCatalog.Removed | client/src/pages/EditCatalog.jsx:61-64 | exactly the items with a different TMDB id remain |
| EditCatalog.AddIdempotent | client/src/pages/EditCatalog.jsx:50 | adding the same result twice is the same as adding it once |
| EditCatalog.AddKeepsDistinct | client/src/pages/EditCatalog.jsx:50-58 | pairwise distinct TMDB ids stay pairwise distinct after adding |
| EditCatalog.RemoveUndoesAdd | client/src/pages/EditCatalog.jsx:58-63 | removing the id of a result just added gives back the earlier list |
| EditCatalog.RemovedAppend | client/src/pages/EditCatalog.jsx:63 | removing distributes over concatenation, so the kept items stay in their original order |
| EditCatalog.RemovedAbsent | client/src/pages/EditCatalog.jsx:63 | removing an id no item has changes nothing |
| EditCatalog.RemoveIdempotent | client/src/pages/EditCatalog.jsx:63 | removing twice is removing once |
| EditCatalog.Editor.AddItem | client/src/pages/EditCatalog.jsx:47-59 | the editor's list becomes `Added` of the old list |
| EditCatalog.Editor.RemoveItem | client/src/pages/EditCatalog.jsx:61-64 | the editor's list becomes `Removed` of the old list |

## Left out

- HTTP, Express routing, status codes beyond 400 and 404, JSON parsing and the
  `authenticateToken` middleware are not modelled. The caller's user id is a parameter. The 500
  responses for database or network failures are not modelled.
- The database schema is not part of this model. It is assumed that:
  - deleting a catalog also deletes its links (a cascade on the link's catalog reference);
  - the link table has no uniqueness constraint, so an item may be linked twice.
- `catalog.findMany` without `orderBy` (`server/src/routes/catalogs.js:11`,
  `server/src/routes/addon.js:17`, `server/src/routes/backup.js:14`) promises no order. The model
  returns the catalogs in table (insertion) order. The manifest's catalog order, and the
  entry-by-entry correspondence in `Backup.ImportThenExport` and `Backup.ExportImportRoundTrip`,
  rest on that assumption about the database.
- `Date.now()` and the link `createdAt` default are a logical clock.
  - A PUT takes `now` from the clock and moves it to `now + n`, so later links are later.
  - The 10 ms pause between imported items is one clock tick.
  - Real time, and two requests within the same millisecond, are not modelled.
- The catalog id generator is a parameter. The new ids are required to be distinct and unused.
- `$transaction` is one atomic state update. Concurrent requests are not modelled.
- `String(item.tmdbId)` in the PUT handler: items arrive with string TMDB ids, so a numeric id
  converted on the server is not modelled.
- `undefined` title or poster in a PUT upsert's `update` (which Prisma skips) is not modelled.
  Every item carries a title and an optional poster.
- An import entry without `items` is an entry with an empty item list. An entry without `type`
  (which the database would refuse) is not modelled.
- `exportDate`, the `Content-Disposition` header and `Date.now()` in the backup file name are
  left out.
- TMDB details:
  - the axios fetch is not modelled; the parsed response is an input, and `None` is a failed
    fetch;
  - `vote_average`, `imdbRating` (`toFixed(1)`) and `rating` are floating point and are left
    out;
  - genres stay a sequence of names, and `JSON.stringify` is left out;
  - runtimes are integers.
- `Array.isArray` guards in the editor are not modelled: the list is always a list.
- `server/src/routes/tmdb.js` (a proxy to TMDB search), `server/src/index.js` (wiring, where
  the backup router is not mounted), and the UI files (`App.jsx`, `Dashboard.jsx`,
  `Login.jsx`, `Register.jsx`, `Install.jsx`, `AuthContext.jsx`) are not part of this model.
  Neither are the editor's fetch, search and save handlers.
- Backup.ImportThenExport: states names, types and item keys. Items whose key was already
  stored come back with the stored title and poster, because import never overwrites. The
  titles of newly created rows are not stated.
- Backup.ExportImportRoundTrip: same scope as `Backup.ImportThenExport`.
