/**
 * The catalog editor's item list: adding a search result and removing an item
 * by TMDB id. The list is the editor's state, which both operations replace.
 */
module EditCatalog {
  import opened Wrappers
  import opened Strings
  import opened Store

  const UNKNOWN_TITLE := "Unknown Title"

  /** The fields of a TMDB search result that the editor reads. */
  datatype SearchResult = SearchResult(
    id: Option<int>,
    mediaType: Option<string>,
    title: Option<string>,
    name: Option<string>,
    posterPath: Option<string>)

  /** `item && item.id`: a result with a non-zero id. */
  predicate HasId(result: Option<SearchResult>) {
    result.Some? && result.value.id.Some? && result.value.id.value != 0
  }

  /** `String(item.id)`. */
  function TmdbIdOf(result: SearchResult): string
    requires result.id.Some?
  {
    IntToString(result.id.value)
  }

  /** `items.find(i => i.tmdbId === t)` found something. */
  predicate Contains(items: seq<Item>, t: string) {
    exists i :: 0 <= i < |items| && items[i].tmdbId == t
  }

  /** The item built from a search result: type defaults to `movie`, the title to the name and then to a placeholder. */
  function NewItem(result: SearchResult): (it: Item)
    requires result.id.Some?
    ensures it.tmdbId == TmdbIdOf(result)
    ensures it.kind == (if Truthy(result.mediaType) then result.mediaType.value else MOVIE)
    ensures it.title != ""
    ensures Truthy(result.title) ==> it.title == result.title.value
    ensures !Truthy(result.title) && Truthy(result.name) ==> it.title == result.name.value
    ensures !Truthy(result.title) && !Truthy(result.name) ==> it.title == UNKNOWN_TITLE
    ensures it.poster.Some? <==> Truthy(result.posterPath)
    ensures it.poster.Some? ==> it.poster == result.posterPath
  {
    Item(
      TmdbIdOf(result),
      if Truthy(result.mediaType) then result.mediaType.value else MOVIE,
      if Truthy(result.title) then result.title.value
      else if Truthy(result.name) then result.name.value
      else UNKNOWN_TITLE,
      if Truthy(result.posterPath) then result.posterPath else None)
  }

  /** `addItem`: the list after adding a search result. */
  function Added(items: seq<Item>, result: Option<SearchResult>): (r: seq<Item>)
    ensures !HasId(result) ==> r == items
    ensures HasId(result) && Contains(items, TmdbIdOf(result.value)) ==> r == items
    ensures HasId(result) && !Contains(items, TmdbIdOf(result.value)) ==>
      |r| == |items| + 1 && r[..|items|] == items && r[|items|] == NewItem(result.value)
  {
    if !HasId(result) then items
    else if Contains(items, TmdbIdOf(result.value)) then items
    else items + [NewItem(result.value)]
  }

  /** `removeItem`: every item with the TMDB id goes, the rest keep their order. */
  function Removed(items: seq<Item>, t: string): (r: seq<Item>)
    ensures |r| <= |items|
    ensures forall x :: x in r <==> x in items && x.tmdbId != t
  {
    if items == [] then []
    else
      assert items == [items[0]] + items[1..];
      (if items[0].tmdbId != t then [items[0]] else []) + Removed(items[1..], t)
  }

  /** No two items share a TMDB id. */
  predicate DistinctTmdbIds(items: seq<Item>) {
    forall i, j :: 0 <= i < j < |items| ==> items[i].tmdbId != items[j].tmdbId
  }

  /** Adding the same search result twice adds it once. */
  lemma {:induction false} AddIdempotent(items: seq<Item>, result: Option<SearchResult>)
    ensures Added(Added(items, result), result) == Added(items, result)
  {
    if HasId(result) && !Contains(items, TmdbIdOf(result.value)) {
      var r := Added(items, result);
      assert r[|items|].tmdbId == TmdbIdOf(result.value);
    }
  }

  /** Adding keeps TMDB ids pairwise distinct. */
  lemma {:induction false} AddKeepsDistinct(items: seq<Item>, result: Option<SearchResult>)
    requires DistinctTmdbIds(items)
    ensures DistinctTmdbIds(Added(items, result))
  {
    var r := Added(items, result);
    if HasId(result) && !Contains(items, TmdbIdOf(result.value)) {
      forall i, j | 0 <= i < j < |r| ensures r[i].tmdbId != r[j].tmdbId {
        assert r[i] == items[i];
        if j < |items| {
          assert r[j] == items[j];
        }
      }
    }
  }

  /** Removing the TMDB id of a result just added gives back the list it was added to. */
  lemma {:induction false} RemoveUndoesAdd(items: seq<Item>, result: Option<SearchResult>)
    requires HasId(result) && !Contains(items, TmdbIdOf(result.value))
    ensures Removed(Added(items, result), TmdbIdOf(result.value)) == items
  {
    var t := TmdbIdOf(result.value);
    RemovedAppend(items, [NewItem(result.value)], t);
    RemovedAbsent(items, t);
  }

  /** Removing distributes over concatenation: the kept items stay in their order. */
  lemma {:induction false} RemovedAppend(a: seq<Item>, b: seq<Item>, t: string)
    ensures Removed(a + b, t) == Removed(a, t) + Removed(b, t)
  {
    if a == [] {
      assert a + b == b;
    } else {
      assert (a + b)[1..] == a[1..] + b;
      RemovedAppend(a[1..], b, t);
    }
  }

  /** Removing an id no item has changes nothing. */
  lemma {:induction false} RemovedAbsent(items: seq<Item>, t: string)
    requires !Contains(items, t)
    ensures Removed(items, t) == items
  {
    if items != [] {
      assert !Contains(items[1..], t) by {
        forall i | 0 <= i < |items[1..]| ensures items[1..][i].tmdbId != t {
          assert items[1..][i] == items[i + 1];
        }
      }
      RemovedAbsent(items[1..], t);
      assert items == [items[0]] + items[1..];
    }
  }

  /** Removing is idempotent. */
  lemma {:induction false} RemoveIdempotent(items: seq<Item>, t: string)
    ensures Removed(Removed(items, t), t) == Removed(items, t)
  {
    var r := Removed(items, t);
    assert !Contains(r, t) by {
      forall i | 0 <= i < |r| ensures r[i].tmdbId != t {
        assert r[i] in r;
      }
    }
    RemovedAbsent(r, t);
  }

  /** The editor's item list, which `addItem` and `removeItem` replace. */
  class Editor {
    var items: seq<Item>

    constructor(initial: seq<Item>)
      ensures items == initial
    {
      items := initial;
    }

    method AddItem(result: Option<SearchResult>)
      modifies this
      ensures items == Added(old(items), result)
    {
      if !HasId(result) || Contains(items, TmdbIdOf(result.value)) {
        return;
      }
      items := items + [NewItem(result.value)];
    }

    method RemoveItem(t: string)
      modifies this
      ensures items == Removed(old(items), t)
    {
      items := Removed(items, t);
    }
  }
}
