/**
 * The report selection of user_interface_module.py: which actor a name
 * denotes, and which records each report lists, with the `--limit` cut-off.
 * Printing and the averages are not modelled; each report returns the
 * records it would print, or None when the name denotes no actor.
 */
module Cli {
  import opened Wrappers
  import opened Text
  import opened Store
  import opened Queries
  import opened Scraping

  /** `f'{first_name} {last_name}'`. */
  function FullName(first: string, last: string): string
  {
    first + " " + last
  }

  /** `actor_ids`, line 33: the ids of the actors with that name, in query order. */
  function IdsNamed(actors: seq<Actor>, name: string): (r: seq<Id>)
    ensures forall id :: id in r <==> exists x :: x in actors && x.fields.name == name && x.id == id
    decreases |actors|
  {
    if actors == [] then []
    else
      assert forall x :: x in actors <==> x == actors[0] || x in actors[1..];
      (if actors[0].fields.name == name then [actors[0].id] else []) + IdsNamed(actors[1..], name)
  }

  /**
   * `get_actor_id`: None iff no actor has that full name, otherwise the id
   * of the first actor row that has it.
   */
  function ActorId(actors: seq<Actor>, first: string, last: string): (r: Option<Id>)
    ensures r.None? <==> forall x :: x in actors ==> x.fields.name != FullName(first, last)
    ensures r.Some? ==> FirstNamed(actors, FullName(first, last), r.value)
  {
    var ids := IdsNamed(actors, FullName(first, last));
    if |ids| < 1 then
      assert forall x :: x in actors && x.fields.name == FullName(first, last) ==> x.id in ids;
      None
    else
      FirstIdNamed(actors, FullName(first, last));
      Some(ids[0])
  }

  /** Some row is named `name` and has id `id`, and no earlier row is named `name`. */
  ghost predicate FirstNamed(actors: seq<Actor>, name: string, id: Id)
  {
    exists i :: 0 <= i < |actors| && actors[i].fields.name == name && actors[i].id == id &&
      (forall j :: 0 <= j < i ==> actors[j].fields.name != name)
  }

  /** The first row named `name` supplies the first id of `IdsNamed`. */
  lemma {:induction false} FirstIdNamed(actors: seq<Actor>, name: string)
    requires IdsNamed(actors, name) != []
    ensures FirstNamed(actors, name, IdsNamed(actors, name)[0])
    decreases |actors|
  {
    if actors[0].fields.name == name {
      assert actors[0].fields.name == name && actors[0].id == IdsNamed(actors, name)[0];
    } else {
      FirstIdNamed(actors[1..], name);
      var i :| 0 <= i < |actors[1..]| && actors[1..][i].fields.name == name &&
        actors[1..][i].id == IdsNamed(actors[1..], name)[0] &&
        (forall j :: 0 <= j < i ==> actors[1..][j].fields.name != name);
      assert actors[i + 1] == actors[1..][i];
      assert forall j :: 1 <= j <= i ==> actors[j] == actors[1..][j - 1];
    }
  }

  // ---------------------------------------------------------------------
  // The listing loops
  // ---------------------------------------------------------------------

  /** The guard of every listing loop: `args.limit is not None and index >= args.limit`. */
  predicate Breaks(limit: Option<int>, index: nat)
  {
    limit.Some? && index >= limit.value
  }

  /**
   * How many of `n` items a listing emits: the loop stops at the first
   * index whose guard fires, so every emitted index passes the guard and
   * the index after the last emitted one fails it, unless all were emitted.
   */
  function EmittedCount(n: nat, limit: Option<int>): (k: nat)
    ensures k <= n
    ensures forall i :: 0 <= i < k ==> !Breaks(limit, i)
    ensures k < n ==> Breaks(limit, k)
  {
    match limit
    case None => n
    case Some(l) => if l <= 0 then 0 else if l < n then l else n
  }

  /** A listing without a limit emits everything; with a limit it emits min(limit, n), none for limit <= 0. */
  lemma EmittedCountCases(n: nat, limit: Option<int>)
    ensures limit.None? ==> EmittedCount(n, limit) == n
    ensures limit.Some? && limit.value <= 0 ==> EmittedCount(n, limit) == 0
    ensures limit.Some? && 0 <= limit.value <= n ==> EmittedCount(n, limit) == limit.value
    ensures limit.Some? && n <= limit.value ==> EmittedCount(n, limit) == n
  {
  }

  /**
   * The shared listing loop (`for index, x in enumerate(result)` with the
   * limit `break`): numbered from 1, the items the guard lets through.
   */
  method Enumerate<T>(items: seq<T>, limit: Option<int>) returns (lines: seq<(nat, T)>)
    ensures |lines| == EmittedCount(|items|, limit)
    ensures forall k :: 0 <= k < |lines| ==> lines[k] == (k + 1, items[k])
  {
    lines := [];
    var index := 0;
    while index < |items|
      invariant 0 <= index <= |items|
      invariant |lines| == index
      invariant forall i :: 0 <= i < index ==> !Breaks(limit, i)
      invariant forall k :: 0 <= k < |lines| ==> lines[k] == (k + 1, items[k])
    {
      if Breaks(limit, index) {
        break;
      }
      lines := lines + [(index + 1, items[index])];
      index := index + 1;
    }
  }

  // ---------------------------------------------------------------------
  // The reports
  // ---------------------------------------------------------------------

  function Names(actors: seq<Actor>): seq<string>
  {
    seq(|actors|, k requires 0 <= k < |actors| => actors[k].fields.name)
  }

  /** `process_actors`: every actor name, numbered from 1 in query order. */
  method ProcessActors(t: Tables) returns (lines: seq<(nat, string)>)
    ensures |lines| == |t.actors|
    ensures forall k :: 0 <= k < |lines| ==> lines[k] == (k + 1, t.actors[k].fields.name)
  {
    lines := Enumerate(Names(t.actors), None);
  }

  /** `process_bio`: the bio of the named actor. */
  method ProcessBio(t: Tables, first: string, last: string) returns (bio: Option<string>)
    ensures ActorId(t.actors, first, last).None? ==> bio.None?
    ensures ActorId(t.actors, first, last).Some? ==>
      bio.Some? && bio == BioOf(t.actors, ActorId(t.actors, first, last).value)
  {
    var actorId := ActorId(t.actors, first, last);
    if actorId.None? {
      return None;
    }
    bio := BioOf(t.actors, actorId.value);
  }

  function MovieTitles(ms: seq<Movie>): seq<(string, Option<string>)>
  {
    seq(|ms|, k requires 0 <= k < |ms| => (ms[k].fields.name, ms[k].fields.year))
  }

  /** `process_movies`: (name, year) of the actor's movies, numbered, cut at the limit. */
  method ProcessMovies(t: Tables, first: string, last: string, limit: Option<int>)
    returns (lines: Option<seq<(nat, (string, Option<string>))>>)
    ensures ActorId(t.actors, first, last).None? ==> lines.None?
    ensures ActorId(t.actors, first, last).Some? ==>
      var ms := ActorMovies(t.playedIn, t.movies, ActorId(t.actors, first, last).value);
      && lines.Some?
      && |lines.value| == EmittedCount(|ms|, limit)
      && forall k :: 0 <= k < |lines.value| ==> lines.value[k] == (k + 1, (ms[k].fields.name, ms[k].fields.year))
  {
    var actorId := ActorId(t.actors, first, last);
    if actorId.None? {
      return None;
    }
    var result := ActorMovies(t.playedIn, t.movies, actorId.value);
    var numbered := Enumerate(MovieTitles(result), limit);
    lines := Some(numbered);
  }

  function AwardTitles(awards: seq<Award>): seq<(string, string)>
  {
    seq(|awards|, k requires 0 <= k < |awards| => (awards[k].fields.name, awards[k].fields.year))
  }

  /** `process_awards`: (name, year) of the actor's awards, numbered, cut at the limit. */
  method ProcessAwards(t: Tables, first: string, last: string, limit: Option<int>)
    returns (lines: Option<seq<(nat, (string, string))>>)
    ensures ActorId(t.actors, first, last).None? ==> lines.None?
    ensures ActorId(t.actors, first, last).Some? ==>
      var awards := AwardsOfActor(t.awards, ActorId(t.actors, first, last).value);
      && lines.Some?
      && |lines.value| == EmittedCount(|awards|, limit)
      && forall k :: 0 <= k < |lines.value| ==> lines.value[k] == (k + 1, (awards[k].fields.name, awards[k].fields.year))
  {
    var actorId := ActorId(t.actors, first, last);
    if actorId.None? {
      return None;
    }
    var result := AwardsOfActor(t.awards, actorId.value);
    var numbered := Enumerate(AwardTitles(result), limit);
    lines := Some(numbered);
  }

  // ---------------------------------------------------------------------
  // process_genres
  // ---------------------------------------------------------------------

  /** Every genre string split on ", ", concatenated in row order. */
  function SplitGenres(genreStrings: seq<string>): seq<string>
    decreases |genreStrings|
  {
    if genreStrings == [] then []
    else SplitGenres(genreStrings[..|genreStrings| - 1]) + Split(genreStrings[|genreStrings| - 1], GenreSeparator)
  }

  /** Lines 80-82: `movie_genres += movie_genre.split(', ')` for every row. */
  method CollectGenres(genreStrings: seq<string>) returns (genres: seq<string>)
    ensures genres == SplitGenres(genreStrings)
  {
    genres := [];
    for i := 0 to |genreStrings|
      invariant genres == SplitGenres(genreStrings[..i])
    {
      assert genreStrings[..i + 1][..i] == genreStrings[..i];
      genres := genres + Split(genreStrings[i], GenreSeparator);
    }
    assert genreStrings[..|genreStrings|] == genreStrings;
  }

  function GenreStrings(ms: seq<Movie>): seq<string>
  {
    seq(|ms|, k requires 0 <= k < |ms| => ms[k].fields.genres)
  }

  /** A genre is collected iff it is a ", "-separated piece of some movie's genre string. */
  lemma {:induction false} SplitGenresMembers(ms: seq<Movie>)
    ensures forall g :: g in SplitGenres(GenreStrings(ms)) <==>
      exists m :: m in ms && g in Split(m.fields.genres, GenreSeparator)
    decreases |ms|
  {
    if ms != [] {
      var init := ms[..|ms| - 1];
      var last := ms[|ms| - 1];
      SplitGenresMembers(init);
      assert GenreStrings(ms)[..|ms| - 1] == GenreStrings(init);
      assert forall m :: m in ms <==> m in init || m == last;
      assert SplitGenres(GenreStrings(ms)) == SplitGenres(GenreStrings(init)) + Split(last.fields.genres, GenreSeparator);
    }
  }

  /**
   * The genres of an actor, each once: a genre is listed iff it is a
   * ", "-separated piece of the genre string of one of the actor's movies.
   */
  function ActorGenres(t: Tables, actorId: Id): (r: seq<string>)
    ensures NoDuplicates(r)
    ensures forall g :: g in r <==>
      exists m :: m in ActorMovies(t.playedIn, t.movies, actorId) && g in Split(m.fields.genres, GenreSeparator)
  {
    var ms := ActorMovies(t.playedIn, t.movies, actorId);
    SplitGenresMembers(ms);
    Distinct(SplitGenres(GenreStrings(ms)))
  }

  /** `process_genres`: the actor's distinct genres, numbered, cut at the limit. */
  method ProcessGenres(t: Tables, first: string, last: string, limit: Option<int>)
    returns (lines: Option<seq<(nat, string)>>)
    ensures ActorId(t.actors, first, last).None? ==> lines.None?
    ensures ActorId(t.actors, first, last).Some? ==>
      var genres := ActorGenres(t, ActorId(t.actors, first, last).value);
      && lines.Some?
      && |lines.value| == EmittedCount(|genres|, limit)
      && forall k :: 0 <= k < |lines.value| ==> lines.value[k] == (k + 1, genres[k])
  {
    var actorId := ActorId(t.actors, first, last);
    if actorId.None? {
      return None;
    }
    var result := ActorMovies(t.playedIn, t.movies, actorId.value);
    var movieGenres := CollectGenres(GenreStrings(result));
    movieGenres := Distinct(movieGenres);
    SplitGenresMembers(result);
    var numbered := Enumerate(movieGenres, limit);
    lines := Some(numbered);
  }

  // ---------------------------------------------------------------------
  // process_ratings
  // ---------------------------------------------------------------------

  function Years(ms: seq<Movie>): seq<Option<string>>
  {
    seq(|ms|, k requires 0 <= k < |ms| => ms[k].fields.year)
  }

  /** The ratings of the movies of one year, in row order. */
  function RatingsOfYear(ms: seq<Movie>, year: Option<string>): seq<string>
    decreases |ms|
  {
    if ms == [] then []
    else
      var last := ms[|ms| - 1];
      RatingsOfYear(ms[..|ms| - 1], year) + (if last.fields.year == year then [last.fields.rating] else [])
  }

  /** A year occurs in `Years(ms)` iff some movie of `ms` has it. */
  lemma YearsMembers(ms: seq<Movie>)
    ensures forall y :: y in Years(ms) <==> exists m :: m in ms && m.fields.year == y
  {
    forall y ensures y in Years(ms) <==> exists m :: m in ms && m.fields.year == y {
      if y in Years(ms) {
        var k :| 0 <= k < |ms| && Years(ms)[k] == y;
        assert ms[k] in ms;
      }
      if exists m :: m in ms && m.fields.year == y {
        var m :| m in ms && m.fields.year == y;
        var k :| 0 <= k < |ms| && ms[k] == m;
        assert Years(ms)[k] == y;
      }
    }
  }

  /** A rating is grouped under a year iff a movie of that year has that rating. */
  lemma {:induction false} RatingsOfYearMembers(ms: seq<Movie>, year: Option<string>)
    ensures forall x :: x in RatingsOfYear(ms, year) <==> exists m :: m in ms && m.fields.year == year && m.fields.rating == x
    decreases |ms|
  {
    if ms != [] {
      var init := ms[..|ms| - 1];
      RatingsOfYearMembers(init, year);
      assert forall m :: m in ms <==> m in init || m == ms[|ms| - 1];
    }
  }

  /** One loop step of the year grouping, stated on prefixes. */
  lemma GroupStep(ms: seq<Movie>, i: nat)
    requires i < |ms|
    ensures Years(ms[..i + 1]) == Years(ms[..i]) + [ms[i].fields.year]
    ensures forall y :: (RatingsOfYear(ms[..i + 1], y) ==
      RatingsOfYear(ms[..i], y) + (if ms[i].fields.year == y then [ms[i].fields.rating] else []))
  {
    assert ms[..i + 1][..i] == ms[..i];
  }

  /** A year that does not occur has no ratings. */
  lemma {:induction false} NoYearNoRatings(ms: seq<Movie>, y: Option<string>)
    requires y !in Years(ms)
    ensures RatingsOfYear(ms, y) == []
    decreases |ms|
  {
    if ms != [] {
      var init := ms[..|ms| - 1];
      assert Years(init) == Years(ms)[..|ms| - 1];
      assert Years(ms)[|ms| - 1] == ms[|ms| - 1].fields.year;
      NoYearNoRatings(init, y);
    }
  }

  /**
   * Lines 101-106: `year_to_rating_map`, a dict whose keys keep insertion
   * order; `years` is that key order.
   */
  method GroupRatingsByYear(ms: seq<Movie>) returns (years: seq<Option<string>>, ratings: map<Option<string>, seq<string>>)
    ensures years == Distinct(Years(ms))
    ensures forall y :: y in ratings <==> y in years
    ensures forall y :: y in years ==> ratings[y] == RatingsOfYear(ms, y)
  {
    years := [];
    ratings := map[];
    for i := 0 to |ms|
      invariant years == Distinct(Years(ms[..i]))
      invariant forall y :: y in ratings <==> y in years
      invariant forall y :: y in years ==> ratings[y] == RatingsOfYear(ms[..i], y)
    {
      var year := ms[i].fields.year;
      GroupStep(ms, i);
      if year in years {
        ratings := ratings[year := ratings[year] + [ms[i].fields.rating]];
      } else {
        NoYearNoRatings(ms[..i], year);
        years := years + [year];
        ratings := ratings[year := [ms[i].fields.rating]];
      }
    }
    assert ms[..|ms|] == ms;
  }

  /**
   * Year grouping has exactly one key per year that occurs, keys at first
   * appearance order, and under each key that year's ratings, none empty.
   */
  lemma GroupingSpec(ms: seq<Movie>)
    ensures NoDuplicates(Distinct(Years(ms)))
    ensures forall y :: y in Distinct(Years(ms)) <==> exists m :: m in ms && m.fields.year == y
    ensures forall y, x :: y in Distinct(Years(ms)) ==>
      (x in RatingsOfYear(ms, y) <==> exists m :: m in ms && m.fields.year == y && m.fields.rating == x)
    ensures forall y :: y in Distinct(Years(ms)) ==> RatingsOfYear(ms, y) != []
  {
    YearsMembers(ms);
    forall y | y in Distinct(Years(ms)) ensures RatingsOfYear(ms, y) != [] {
      RatingsOfYearMembers(ms, y);
      var m :| m in ms && m.fields.year == y;
      assert m.fields.rating in RatingsOfYear(ms, y);
    }
    forall y, x | y in Distinct(Years(ms))
      ensures x in RatingsOfYear(ms, y) <==> exists m :: m in ms && m.fields.year == y && m.fields.rating == x
    {
      RatingsOfYearMembers(ms, y);
    }
  }

  /**
   * What `process_ratings` does once the actor is found: with no movie the
   * overall `AVG` is NULL and rounding it raises; otherwise the year groups.
   */
  datatype RatingsReport =
    | AverageOfNothing
    | Yearly(groups: seq<(Option<string>, seq<string>)>)

  /**
   * `process_ratings`, without the averages themselves: None for an unknown
   * actor; the year groups in key order, cut at the limit, each with its
   * ratings; and the failure for an actor without movies.
   */
  method ProcessRatings(t: Tables, first: string, last: string, limit: Option<int>)
    returns (report: Option<RatingsReport>)
    ensures ActorId(t.actors, first, last).None? ==> report.None?
    ensures ActorId(t.actors, first, last).Some? ==>
      var ms := ActorMovies(t.playedIn, t.movies, ActorId(t.actors, first, last).value);
      var years := Distinct(Years(ms));
      && report.Some?
      && (report.value.AverageOfNothing? <==> ms == [])
      && (report.value.Yearly? ==>
          && |report.value.groups| == EmittedCount(|years|, limit)
          && forall k :: 0 <= k < |report.value.groups| ==> report.value.groups[k] == (years[k], RatingsOfYear(ms, years[k])))
  {
    var actorId := ActorId(t.actors, first, last);
    if actorId.None? {
      return None;
    }
    var result := ActorMovies(t.playedIn, t.movies, actorId.value);
    if result == [] {
      return Some(AverageOfNothing);
    }
    var years, yearToRatings := GroupRatingsByYear(result);
    var numbered := Enumerate(years, limit);
    report := Some(Yearly(seq(|numbered|, k requires 0 <= k < |numbered| => (numbered[k].1, yearToRatings[numbered[k].1]))));
  }

  // ---------------------------------------------------------------------
  // process_topfive
  // ---------------------------------------------------------------------

  function TopFiveLines(ms: seq<Movie>): seq<MovieInfo>
  {
    seq(|ms|, k requires 0 <= k < |ms| => ms[k].fields)
  }

  /**
   * `process_topfive`: the actor's at most five best-rated movies, best
   * first, cut at the limit.
   */
  method ProcessTopFive(t: Tables, first: string, last: string, limit: Option<int>)
    returns (lines: Option<seq<MovieInfo>>)
    ensures ActorId(t.actors, first, last).None? ==> lines.None?
    ensures ActorId(t.actors, first, last).Some? ==>
      var top := ActorTopFive(t.playedIn, t.movies, ActorId(t.actors, first, last).value);
      && lines.Some?
      && |lines.value| == EmittedCount(|top|, limit) <= 5
      && forall k :: 0 <= k < |lines.value| ==> lines.value[k] == top[k].fields
  {
    var actorId := ActorId(t.actors, first, last);
    if actorId.None? {
      return None;
    }
    var result := ActorTopFive(t.playedIn, t.movies, actorId.value);
    var numbered := Enumerate(TopFiveLines(result), limit);
    lines := Some(seq(|numbered|, k requires 0 <= k < |numbered| => numbered[k].1));
  }
}
