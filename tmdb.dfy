/**
 * The TMDB detail extraction: from a parsed movie or TV details response
 * (with credits, external ids and images appended) to the enrichment record
 * the service returns. The HTTP fetch is not modelled: the response arrives
 * as a value, and `None` stands for a fetch that failed.
 */
module Tmdb {
  import opened Wrappers
  import opened Strings

  const ORIGINAL_BASE := "https://image.tmdb.org/t/p/original"
  const MAX_ACTORS := 10
  const SEPARATOR := '#'

  datatype CrewMember = CrewMember(name: string, job: string)

  datatype Credits = Credits(cast: Option<seq<string>>, crew: Option<seq<CrewMember>>)

  /** An entry of `images.logos`: its `iso_639_1` language and its `file_path`. */
  datatype Logo = Logo(lang: Option<string>, filePath: Option<string>)

  /** The fields of a details response the extraction reads; every one may be missing. */
  datatype Response = Response(
    credits: Option<Credits>,
    createdBy: Option<seq<string>>,
    logos: Option<seq<Logo>>,
    runtime: Option<int>,
    episodeRunTime: Option<seq<int>>,
    releaseDate: Option<string>,
    firstAirDate: Option<string>,
    lastAirDate: Option<string>,
    lastEpisodeAirDate: Option<string>,
    backdropPath: Option<string>,
    overview: Option<string>,
    genres: Option<seq<string>>,
    imdbId: Option<string>)

  /** The enrichment record; `None` is `null`. */
  datatype Details = Details(
    genres: seq<string>,
    description: Option<string>,
    runtime: Option<string>,
    releaseDate: Option<string>,
    background: Option<string>,
    logo: Option<string>,
    actors: string,
    directors: string,
    imdbId: Option<string>,
    lastEpisodeDate: Option<string>)

  /** `s || null`. */
  function OrNull(s: Option<string>): (r: Option<string>)
    ensures r.Some? <==> Truthy(s)
    ensures r.Some? ==> r == s
  {
    if Truthy(s) then s else None
  }

  // ---------------------------------------------------------------- people

  /** `cast.slice(0, 10)`: the first ten cast names, or all of them when there are fewer. */
  function TopCast(cast: seq<string>): (r: seq<string>)
    ensures |r| <= MAX_ACTORS && (|cast| <= MAX_ACTORS ==> |r| == |cast|)
    ensures |r| == if |cast| <= MAX_ACTORS then |cast| else MAX_ACTORS
    ensures forall i :: 0 <= i < |r| ==> r[i] == cast[i]
  {
    if |cast| <= MAX_ACTORS then cast else cast[..MAX_ACTORS]
  }

  /** `data.credits?.cast?.slice(0, 10).map(c => c.name).join('#') || ''`. */
  function Actors(credits: Option<Credits>): string {
    if credits.Some? && credits.value.cast.Some? then Join(TopCast(credits.value.cast.value), SEPARATOR) else ""
  }

  /** `crew.filter(c => c.job === 'Director').map(c => c.name)`. */
  function DirectorNames(crew: seq<CrewMember>): (r: seq<string>)
    ensures |r| <= |crew|
    ensures forall n :: n in r <==> exists c :: c in crew && c.job == "Director" && c.name == n
  {
    if crew == [] then []
    else
      assert crew == [crew[0]] + crew[1..];
      (if crew[0].job == "Director" then [crew[0].name] else []) + DirectorNames(crew[1..])
  }

  /**
   * The director names of two crews in a row are those of the first, then those of
   * the second, so the names keep crew order; a single member contributes its name
   * exactly when its job is Director.
   */
  lemma {:induction false} DirectorNamesAppend(a: seq<CrewMember>, b: seq<CrewMember>)
    ensures DirectorNames(a + b) == DirectorNames(a) + DirectorNames(b)
    ensures |a| == 1 ==> DirectorNames(a) == if a[0].job == "Director" then [a[0].name] else []
  {
    if a != [] {
      assert (a + b)[1..] == a[1..] + b;
      DirectorNamesAppend(a[1..], b);
    } else {
      assert a + b == b;
    }
  }

  /** The movie `directors` field. */
  function MovieDirectors(credits: Option<Credits>): string {
    if credits.Some? && credits.value.crew.Some? then Join(DirectorNames(credits.value.crew.value), SEPARATOR) else ""
  }

  /** The series `directors` field: the creators. */
  function SeriesDirectors(createdBy: Option<seq<string>>): string {
    if createdBy.Some? then Join(createdBy.value, SEPARATOR) else ""
  }

  /**
   * The `actors` field splits back into the first ten cast names when the cast is
   * not empty and no name contains the separator.
   */
  lemma {:induction false} ActorsSplit(cast: seq<string>, crew: Option<seq<CrewMember>>)
    requires |cast| >= 1 && forall n :: n in cast ==> SEPARATOR !in n
    ensures Split(Actors(Some(Credits(Some(cast), crew))), SEPARATOR) == TopCast(cast)
    ensures |Split(Actors(Some(Credits(Some(cast), crew))), SEPARATOR)| == if |cast| < MAX_ACTORS then |cast| else MAX_ACTORS
  {
    var top := TopCast(cast);
    forall n | n in top ensures SEPARATOR !in n {
      var i :| 0 <= i < |top| && top[i] == n;
      assert cast[i] in cast;
    }
    SplitJoin(top, SEPARATOR);
  }

  /**
   * The movie `directors` field splits back into exactly the names of the crew
   * members whose job is Director, in crew order.
   */
  lemma {:induction false} DirectorsSplit(cast: Option<seq<string>>, crew: seq<CrewMember>)
    requires exists c :: c in crew && c.job == "Director"
    requires forall c :: c in crew ==> SEPARATOR !in c.name
    ensures Split(MovieDirectors(Some(Credits(cast, Some(crew)))), SEPARATOR) == DirectorNames(crew)
  {
    var names := DirectorNames(crew);
    var c :| c in crew && c.job == "Director";
    assert c.name in names;
    SplitJoin(names, SEPARATOR);
  }

  /** The series `directors` field splits back into the creators' names. */
  lemma {:induction false} CreatorsSplit(createdBy: seq<string>)
    requires |createdBy| >= 1 && forall n :: n in createdBy ==> SEPARATOR !in n
    ensures Split(SeriesDirectors(Some(createdBy)), SEPARATOR) == createdBy
  {
    SplitJoin(createdBy, SEPARATOR);
  }

  // ---------------------------------------------------------------- images

  /** `logos.find(l => l.iso_639_1 === lang)`. */
  function FindLang(logos: seq<Logo>, lang: string): (r: Option<Logo>)
    ensures r.Some? ==> r.value in logos && r.value.lang == Some(lang)
    ensures r.None? ==> forall l :: l in logos ==> l.lang != Some(lang)
  {
    if logos == [] then None
    else if logos[0].lang == Some(lang) then Some(logos[0])
    else FindLang(logos[1..], lang)
  }

  /** The first logo with the language is the one `FindLang` finds. */
  lemma {:induction false} FindLangAt(logos: seq<Logo>, lang: string, i: nat)
    requires i < |logos| && logos[i].lang == Some(lang)
    requires forall j :: 0 <= j < i ==> logos[j].lang != Some(lang)
    ensures FindLang(logos, lang) == Some(logos[i])
  {
    if i > 0 {
      assert logos[0].lang != Some(lang);
      assert logos[1..][i - 1] == logos[i];
      FindLangAt(logos[1..], lang, i - 1);
    }
  }

  /** `found?.file_path`. */
  function PathOf(found: Option<Logo>): Option<string> {
    if found.Some? then found.value.filePath else None
  }

  /**
   * The logo path: the first Spanish logo's path, else the first English logo's,
   * else the first logo's, each only when it is a non-empty string.
   */
  function PickLogo(logos: Option<seq<Logo>>): (r: Option<string>)
    ensures r.Some? ==> logos.Some? && r.value != "" && exists l :: l in logos.value && l.filePath == r
    ensures logos.Some? && |logos.value| > 0 && Truthy(logos.value[0].filePath) ==> r.Some?
    ensures logos.Some? ==>
      var es := PathOf(FindLang(logos.value, "es"));
      var en := PathOf(FindLang(logos.value, "en"));
      var first := if |logos.value| > 0 then logos.value[0].filePath else None;
      && (Truthy(es) ==> r == es)
      && (!Truthy(es) && Truthy(en) ==> r == en)
      && (!Truthy(es) && !Truthy(en) && Truthy(first) ==> r == first)
      && (!Truthy(es) && !Truthy(en) && !Truthy(first) ==> r.None?)
    ensures logos.None? ==> r.None?
  {
    var all := if logos.Some? then logos.value else [];
    var es := PathOf(FindLang(all, "es"));
    var en := PathOf(FindLang(all, "en"));
    var first := if |all| > 0 then all[0].filePath else None;
    if Truthy(es) then es
    else if Truthy(en) then en
    else if Truthy(first) then first
    else None
  }

  /** The first Spanish logo wins when it has a path. */
  lemma {:induction false} PickLogoSpanish(logos: seq<Logo>, i: nat)
    requires i < |logos| && logos[i].lang == Some("es") && Truthy(logos[i].filePath)
    requires forall j :: 0 <= j < i ==> logos[j].lang != Some("es")
    ensures PickLogo(Some(logos)) == logos[i].filePath
  {
    FindLangAt(logos, "es", i);
  }

  /**
   * When the first Spanish logo has no path, a later Spanish logo is not looked at:
   * the first English logo wins when it has a path.
   */
  lemma {:induction false} PickLogoEnglish(logos: seq<Logo>, s: nat, e: nat)
    requires s < |logos| && logos[s].lang == Some("es") && !Truthy(logos[s].filePath)
    requires forall j :: 0 <= j < s ==> logos[j].lang != Some("es")
    requires e < |logos| && logos[e].lang == Some("en") && Truthy(logos[e].filePath)
    requires forall j :: 0 <= j < e ==> logos[j].lang != Some("en")
    ensures PickLogo(Some(logos)) == logos[e].filePath
  {
    FindLangAt(logos, "es", s);
    FindLangAt(logos, "en", e);
  }

  /** A path with the original-size image prefix, or `null` when the path is not a non-empty string. */
  function OriginalUrl(path: Option<string>): (r: Option<string>)
    ensures r.Some? <==> Truthy(path)
    ensures r.Some? ==> (|r.value| > |ORIGINAL_BASE| && r.value[..|ORIGINAL_BASE|] == ORIGINAL_BASE
      && r.value[|ORIGINAL_BASE|..] == path.value)
  {
    if Truthy(path) then Some(ORIGINAL_BASE + path.value) else None
  }

  // ---------------------------------------------------------------- runtime and dates

  /** JavaScript's `%`: the remainder takes the sign of the dividend. */
  function JsRem(a: int, b: int): (r: int)
    requires b > 0
    ensures a >= 0 ==> 0 <= r < b
    ensures a < 0 ==> -b < r <= 0
    ensures a >= 0 ==> a == (a / b) * b + r
    ensures a < 0 ==> a == -((-a) / b) * b + r
  {
    if a >= 0 then a % b else -((-a) % b)
  }

  /** The movie runtime `Xh Ymin`, or `null` for a missing or zero runtime. */
  function MovieRuntime(runtime: Option<int>): (r: Option<string>)
    ensures r.Some? <==> runtime.Some? && runtime.value != 0
  {
    if runtime.Some? && runtime.value != 0 then
      // Math.floor(r / 60): Dafny's division by a positive divisor rounds down
      Some(IntToString(runtime.value / 60) + "h " + IntToString(JsRem(runtime.value, 60)) + "min")
    else None
  }

  /** A positive runtime renders as whole hours and the remaining minutes below sixty. */
  lemma {:induction false} MovieRuntimeSplitsHours(minutes: int)
    requires minutes > 0
    ensures exists h: nat, m: nat ::
      && m < 60 && h * 60 + m == minutes
      && MovieRuntime(Some(minutes)) == Some(NatToString(h) + "h " + NatToString(m) + "min")
  {
    var h: nat, m: nat := minutes / 60, minutes % 60;
    assert MovieRuntime(Some(minutes)) == Some(NatToString(h) + "h " + NatToString(m) + "min");
  }

  /** The series runtime: the first episode runtime plus `min`, when it is present and not zero. */
  function SeriesRuntime(episodeRunTime: Option<seq<int>>): (r: Option<string>)
    ensures r.Some? <==> episodeRunTime.Some? && |episodeRunTime.value| > 0 && episodeRunTime.value[0] != 0
    ensures r.Some? ==> |r.value| > 3 && r.value[|r.value| - 3..] == "min"
  {
    if episodeRunTime.Some? && |episodeRunTime.value| > 0 && episodeRunTime.value[0] != 0 then
      Some(IntToString(episodeRunTime.value[0]) + "min")
    else None
  }

  /** The minutes of a positive series runtime read back from its text. */
  lemma {:induction false} SeriesRuntimeReadsBack(first: nat, rest: seq<int>)
    requires first > 0
    ensures SeriesRuntime(Some([first] + rest)).value == NatToString(first) + "min"
    ensures var s := SeriesRuntime(Some([first] + rest)).value;
      AllDigits(s[..|s| - 3]) && ParseNat(s[..|s| - 3]) == first
  {
    var s := SeriesRuntime(Some([first] + rest)).value;
    assert s[..|s| - 3] == NatToString(first);
    ParseNatToString(first);
  }

  /** The series `lastEpisodeDate`: the last aired episode's date, else the show's last air date. */
  function LastEpisodeDate(lastEpisodeAirDate: Option<string>, lastAirDate: Option<string>): (r: Option<string>)
    ensures Truthy(lastEpisodeAirDate) ==> r == lastEpisodeAirDate
    ensures !Truthy(lastEpisodeAirDate) ==> r == OrNull(lastAirDate)
  {
    if Truthy(lastEpisodeAirDate) then lastEpisodeAirDate else OrNull(lastAirDate)
  }

  // ---------------------------------------------------------------- records

  function Genres(genres: Option<seq<string>>): seq<string> {
    if genres.Some? then genres.value else []
  }

  /** `getMovieDetails`: `None` when the fetch failed. */
  function MovieDetails(response: Option<Response>): (r: Option<Details>)
    ensures r.Some? <==> response.Some?
    ensures r.Some? ==> r.value.lastEpisodeDate == None
    ensures r.Some? ==> (r.value.runtime.Some? <==> response.value.runtime.Some? && response.value.runtime.value != 0)
    ensures r.Some? ==> (r.value.releaseDate.Some? <==> Truthy(response.value.releaseDate))
    ensures r.Some? ==> (r.value.background.Some? <==> Truthy(response.value.backdropPath))
    ensures r.Some? ==> var d := response.value;
      && r.value.genres == Genres(d.genres)
      && r.value.description == OrNull(d.overview)
      && r.value.runtime == MovieRuntime(d.runtime)
      && r.value.releaseDate == OrNull(d.releaseDate)
      && r.value.background == OriginalUrl(d.backdropPath)
      && r.value.logo == OriginalUrl(PickLogo(d.logos))
      && r.value.actors == Actors(d.credits)
      && r.value.directors == MovieDirectors(d.credits)
      && r.value.imdbId == OrNull(d.imdbId)
  {
    match response
    case None => None
    case Some(d) =>
      Some(Details(
        Genres(d.genres),
        OrNull(d.overview),
        MovieRuntime(d.runtime),
        OrNull(d.releaseDate),
        OriginalUrl(d.backdropPath),
        OriginalUrl(PickLogo(d.logos)),
        Actors(d.credits),
        MovieDirectors(d.credits),
        OrNull(d.imdbId),
        None))
  }

  /** `getSeriesDetails`: `None` when the fetch failed. */
  function SeriesDetails(response: Option<Response>): (r: Option<Details>)
    ensures r.Some? <==> response.Some?
    ensures r.Some? ==> (r.value.releaseDate.Some? <==> Truthy(response.value.firstAirDate))
    ensures r.Some? ==> (r.value.background.Some? <==> Truthy(response.value.backdropPath))
    ensures r.Some? ==> (r.value.lastEpisodeDate.Some? <==>
      Truthy(response.value.lastEpisodeAirDate) || Truthy(response.value.lastAirDate))
    ensures r.Some? ==> var d := response.value;
      && r.value.genres == Genres(d.genres)
      && r.value.description == OrNull(d.overview)
      && r.value.runtime == SeriesRuntime(d.episodeRunTime)
      && r.value.releaseDate == OrNull(d.firstAirDate)
      && r.value.background == OriginalUrl(d.backdropPath)
      && r.value.logo == OriginalUrl(PickLogo(d.logos))
      && r.value.actors == Actors(d.credits)
      && r.value.directors == SeriesDirectors(d.createdBy)
      && r.value.imdbId == OrNull(d.imdbId)
      && r.value.lastEpisodeDate == LastEpisodeDate(d.lastEpisodeAirDate, d.lastAirDate)
  {
    match response
    case None => None
    case Some(d) =>
      Some(Details(
        Genres(d.genres),
        OrNull(d.overview),
        SeriesRuntime(d.episodeRunTime),
        OrNull(d.firstAirDate),
        OriginalUrl(d.backdropPath),
        OriginalUrl(PickLogo(d.logos)),
        Actors(d.credits),
        SeriesDirectors(d.createdBy),
        OrNull(d.imdbId),
        LastEpisodeDate(d.lastEpisodeAirDate, d.lastAirDate)))
  }

  /** `getMediaDetails`: movies and series go to their extractors; any other type gives `null`. */
  function MediaDetails(kind: string, response: Option<Response>): (r: Option<Details>)
    ensures kind != "movie" && kind != "series" ==> r == None
    ensures kind == "movie" ==> r == MovieDetails(response)
    ensures kind == "series" ==> r == SeriesDetails(response)
  {
    if kind == "movie" then MovieDetails(response)
    else if kind == "series" then SeriesDetails(response)
    else None
  }
}
