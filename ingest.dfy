/**
 * The `__main__` block of web_scraping_module.py: four passes that fill the
 * store from the site. Each pass is a method that updates a `Database`, proved to
 * leave the tables exactly as a function of the old tables and the site
 * says; the properties of the passes are lemmas about those functions.
 */
module Ingest {
  import opened Wrappers
  import opened Text
  import opened Store
  import opened Queries
  import opened Scraping

  /** Why a run stopped early: an exception that ends the script. */
  datatype Failure =
    | ScrapeFailed(error: ScrapeError)      // raised by scrape_actor_awards
    | StagingKeyExists(stagingRow: StagingRow)     // IntegrityError on actor_movie_staging
    | MovieUrlUnknown(url: string)          // `None[0]` after get_movie_id
    | PlayedInKeyExists(pair: PlayedIn)      // IntegrityError on played_in

  datatype Outcome = Completed | Aborted(failure: Failure)

  /** Appending one value in front of the rest is one insert followed by the rest. */
  lemma AppendRowsCons<T>(t: seq<Row<T>>, v: T, rest: seq<T>)
    ensures AppendRows(t, [v] + rest) == AppendRows(t + [Row(NextId(t), v)], rest)
  {
    assert ([v] + rest)[0] == v && ([v] + rest)[1..] == rest;
  }

  // ---------------------------------------------------------------------
  // Pass 1: actors
  // ---------------------------------------------------------------------

  /** `actors_in_database`: the (name, link) of every stored actor. */
  function NameLinks(actors: seq<Actor>): (r: seq<(string, string)>)
    ensures forall p :: p in r <==> exists x :: x in actors && p == (x.fields.name, x.fields.link)
    decreases |actors|
  {
    if actors == [] then []
    else [(actors[0].fields.name, actors[0].fields.link)] + NameLinks(actors[1..])
  }

  /** The actor rows pass 1 inserts: one per listed pair not in `skip`, with the bio of its link. */
  function ActorEntries(listed: seq<(string, string)>, skip: seq<(string, string)>, site: Site): seq<ActorInfo>
    decreases |listed|
  {
    if listed == [] then []
    else
      var (name, link) := listed[0];
      (if listed[0] in skip then [] else [ActorInfo(name, ActorBio(site, link), link)])
        + ActorEntries(listed[1..], skip, site)
  }

  function ActorPass(t: Tables, site: Site): Tables
  {
    t.(actors := AppendRows(t.actors, ActorEntries(Listing(site.listing), NameLinks(t.actors), site)))
  }

  /** Pass 1, lines 178-186. */
  method ScrapeActorData(db: Database, site: Site)
    requires db.Valid()
    modifies db
    ensures db.Valid()
    ensures db.Snapshot() == ActorPass(old(db.Snapshot()), site)
  {
    var actorsInDatabase := NameLinks(db.actors);
    var listed := ScrapeActors(site.listing);
    ghost var entries := ActorEntries(listed, actorsInDatabase, site);
    assert listed[0..] == listed;
    for i := 0 to |listed|
      invariant db.Valid()
      invariant db.Snapshot() == old(db.Snapshot()).(actors := db.actors)
      invariant AppendRows(db.actors, ActorEntries(listed[i..], actorsInDatabase, site)) == AppendRows(old(db.actors), entries)
    {
      var (name, link) := listed[i];
      assert listed[i..][0] == listed[i] && listed[i..][1..] == listed[i + 1..];
      if (name, link) !in actorsInDatabase {
        var bio := ActorBio(site, link);
        AppendRowsCons(db.actors, ActorInfo(name, bio, link), ActorEntries(listed[i + 1..], actorsInDatabase, site));
        var id := db.InsertActor(name, bio, link);
      } else {
        assert [] + ActorEntries(listed[i + 1..], actorsInDatabase, site) == ActorEntries(listed[i + 1..], actorsInDatabase, site);
      }
    }
    assert listed[|listed|..] == [];
  }

  // ---------------------------------------------------------------------
  // Pass 2: awards
  // ---------------------------------------------------------------------

  /** Line 197: the awards whose tag is 'Winner', in page order. */
  function Winners(awards: seq<ScrapedAward>): (r: seq<ScrapedAward>)
    ensures forall a :: a in r <==> a in awards && a.tag == WinnerTag
    ensures forall a {:trigger multiset(r)[a]} :: multiset(r)[a] == if a.tag == WinnerTag then multiset(awards)[a] else 0
    ensures |r| <= |awards|
    decreases |awards|
  {
    if awards == [] then []
    else
      assert awards == [awards[0]] + awards[1..];
      (if awards[0].tag == WinnerTag then [awards[0]] else []) + Winners(awards[1..])
  }

  /** The award rows for one actor: (actor id, name, category, year) per award. */
  function AwardRows(actorId: Id, awards: seq<ScrapedAward>): (r: seq<AwardInfo>)
    ensures |r| == |awards|
    ensures forall e :: e in r <==> exists a :: a in awards && e == AwardInfo(actorId, a.name, a.category, a.year)
    decreases |awards|
  {
    if awards == [] then []
    else [AwardInfo(actorId, awards[0].name, awards[0].category, awards[0].year)] + AwardRows(actorId, awards[1..])
  }

  /**
   * The award rows pass 2 inserts for `actors`, skipping those named in
   * `skip`, and whether it gets to the end: a scrape that raises ends it.
   */
  function AwardEntries(actors: seq<Actor>, skip: seq<string>, site: Site): (seq<AwardInfo>, Outcome)
    decreases |actors|
  {
    if actors == [] then ([], Completed)
    else
      var x := actors[0];
      if x.fields.name in skip then AwardEntries(actors[1..], skip, site)
      else
        match ActorAwards(site, x.fields.link)
        case Err(e) => ([], Aborted(ScrapeFailed(e)))
        case Ok(scraped) =>
          var rest := AwardEntries(actors[1..], skip, site);
          (AwardRows(x.id, Winners(scraped)) + rest.0, rest.1)
  }

  function AwardPass(t: Tables, site: Site): (Tables, Outcome)
  {
    var entries := AwardEntries(t.actors, AwardOwnerNames(t.actors, t.awards), site);
    (t.(awards := AppendRows(t.awards, entries.0)), entries.1)
  }

  /** Lines 198-199: one award row per winning award, under the actor's id. */
  method InsertAwards(db: Database, actorId: Id, winners: seq<ScrapedAward>)
    requires db.Valid()
    modifies db
    ensures db.Valid()
    ensures db.awards == AppendRows(old(db.awards), AwardRows(actorId, winners))
    ensures db.Snapshot() == old(db.Snapshot()).(awards := db.awards)
  {
    assert winners[0..] == winners;
    for j := 0 to |winners|
      invariant db.Valid()
      invariant db.Snapshot() == old(db.Snapshot()).(awards := db.awards)
      invariant AppendRows(db.awards, AwardRows(actorId, winners[j..])) == AppendRows(old(db.awards), AwardRows(actorId, winners))
    {
      var w := winners[j];
      assert winners[j..][0] == w && winners[j..][1..] == winners[j + 1..];
      AppendRowsCons(db.awards, AwardInfo(actorId, w.name, w.category, w.year), AwardRows(actorId, winners[j + 1..]));
      db.InsertAward(actorId, w.name, w.category, w.year);
    }
    assert winners[|winners|..] == [];
  }

  /** Pass 2, lines 189-199; `actorsInActors` is the actor list read at line 189. */
  method ScrapeAwardData(db: Database, site: Site, actorsInActors: seq<Actor>) returns (outcome: Outcome)
    requires db.Valid() && actorsInActors == db.actors
    modifies db
    ensures db.Valid()
    ensures (db.Snapshot(), outcome) == AwardPass(old(db.Snapshot()), site)
  {
    var actorsInAwards := AwardOwnerNames(db.actors, db.awards);
    ghost var spec := AwardEntries(actorsInActors, actorsInAwards, site);
    assert actorsInActors[0..] == actorsInActors;
    var i := 0;
    while i < |actorsInActors|
      invariant 0 <= i <= |actorsInActors|
      invariant db.Valid()
      invariant db.Snapshot() == old(db.Snapshot()).(awards := db.awards)
      invariant AwardEntries(actorsInActors[i..], actorsInAwards, site).1 == spec.1
      invariant AppendRows(db.awards, AwardEntries(actorsInActors[i..], actorsInAwards, site).0) == AppendRows(old(db.awards), spec.0)
    {
      var x := actorsInActors[i];
      assert actorsInActors[i..][0] == x && actorsInActors[i..][1..] == actorsInActors[i + 1..];
      if x.fields.name !in actorsInAwards {
        var scraped := ScrapeActorAwards(site, x.fields.link);
        if scraped.Err? {
          return Aborted(ScrapeFailed(scraped.error));
        }
        var winners := Winners(scraped.value);
        ghost var rest := AwardEntries(actorsInActors[i + 1..], actorsInAwards, site).0;
        AppendRowsConcat(db.awards, AwardRows(x.id, winners), rest);
        InsertAwards(db, x.id, winners);
      }
      i := i + 1;
    }
    assert actorsInActors[i..] == [];
    outcome := Completed;
  }

  // ---------------------------------------------------------------------
  // Pass 3: staging
  // ---------------------------------------------------------------------

  /** The staging rows for one actor: one per credit, with the absolute movie url. */
  function StagingRows(actorId: Id, credits: seq<Credit>): (r: seq<StagingRow>)
    ensures |r| == |credits|
    ensures forall s :: s in r <==> exists c :: c in credits && s == StagingRow(actorId, c.title, AbsoluteUrl(c.href))
    ensures forall k {:trigger r[k]} :: 0 <= k < |credits| ==> r[k] == StagingRow(actorId, credits[k].title, AbsoluteUrl(credits[k].href))
    decreases |credits|
  {
    if credits == [] then []
    else
      assert forall k :: 1 <= k < |credits| ==> credits[k] == credits[1..][k - 1];
      [StagingRow(actorId, credits[0].title, AbsoluteUrl(credits[0].href))] + StagingRows(actorId, credits[1..])
  }

  /** The staging rows pass 3 tries to insert, for the actors not named in `skip`. */
  function StagingEntries(actors: seq<Actor>, skip: seq<string>, site: Site): seq<StagingRow>
    decreases |actors|
  {
    if actors == [] then []
    else
      var x := actors[0];
      (if x.fields.name in skip then [] else StagingRows(x.id, site.credits(x.fields.link)))
        + StagingEntries(actors[1..], skip, site)
  }

  /** Pass 3 inserts its rows one by one; the first one already staged raises. */
  function StagingPass(t: Tables, site: Site): (Tables, Outcome)
  {
    var r := InsertAll(t.staging, StagingEntries(t.actors, StagingOwnerNames(t.actors, t.staging), site));
    (t.(staging := r.0), StagingOutcome(r.1))
  }

  function StagingOutcome(dup: Option<StagingRow>): Outcome
  {
    if dup.Some? then Aborted(StagingKeyExists(dup.value)) else Completed
  }

  /**
   * Lines 207-216: scrape one actor's filmography and stage one row per
   * credit; `dup` is the row whose insert raised, if any.
   */
  method StageActorMovies(db: Database, site: Site, actorId: Id, actorLink: string) returns (dup: Option<StagingRow>)
    requires db.Valid()
    modifies db
    ensures db.Valid()
    ensures (db.staging, dup) == InsertAll(old(db.staging), StagingRows(actorId, site.credits(actorLink)))
    ensures db.Snapshot() == old(db.Snapshot()).(staging := db.staging)
  {
    ghost var credits := site.credits(actorLink);
    var actorMovies := ScrapeActorMovies(site, actorLink);
    assert credits[0..] == credits;
    for j := 0 to |actorMovies|
      invariant db.Valid()
      invariant db.Snapshot() == old(db.Snapshot()).(staging := db.staging)
      invariant InsertAll(db.staging, StagingRows(actorId, credits[j..])) == InsertAll(old(db.staging), StagingRows(actorId, credits))
    {
      var (movieName, movieUrl) := actorMovies[j];
      assert credits[j..][0] == credits[j] && credits[j..][1..] == credits[j + 1..];
      var inserted := db.InsertStaging(actorId, movieName, movieUrl);
      if !inserted {
        return Some(StagingRow(actorId, movieName, movieUrl));
      }
    }
    assert credits[|actorMovies|..] == [];
    dup := None;
  }

  /** The rows pass 3 tries for one actor: none when its name is already staged. */
  function ActorStagingRows(x: Actor, skip: seq<string>, site: Site): seq<StagingRow>
  {
    if x.fields.name in skip then [] else StagingRows(x.id, site.credits(x.fields.link))
  }

  /** Lines 204-216 for one actor: skip it when its name is staged, else stage its credits. */
  method StageUnlessNamed(db: Database, site: Site, x: Actor, actorsInStaging: seq<string>) returns (dup: Option<StagingRow>)
    requires db.Valid()
    modifies db
    ensures db.Valid()
    ensures (db.staging, dup) == InsertAll(old(db.staging), ActorStagingRows(x, actorsInStaging, site))
    ensures db.Snapshot() == old(db.Snapshot()).(staging := db.staging)
  {
    if x.fields.name in actorsInStaging {
      return None;
    }
    dup := StageActorMovies(db, site, x.id, x.fields.link);
  }

  /** Pass 3, lines 202-217, over the same `actorsInActors` as pass 2. */
  method ScrapeMovieData(db: Database, site: Site, actorsInActors: seq<Actor>) returns (outcome: Outcome)
    requires db.Valid() && actorsInActors == db.actors
    modifies db
    ensures db.Valid()
    ensures (db.Snapshot(), outcome) == StagingPass(old(db.Snapshot()), site)
  {
    var actorsInStaging := StagingOwnerNames(db.actors, db.staging);
    ghost var spec := InsertAll(db.staging, StagingEntries(actorsInActors, actorsInStaging, site));
    ghost var before := db.Snapshot();
    assert actorsInActors[0..] == actorsInActors;
    var i := 0;
    while i < |actorsInActors|
      invariant 0 <= i <= |actorsInActors|
      invariant db.Valid()
      invariant db.Snapshot() == before.(staging := db.staging)
      invariant InsertAll(db.staging, StagingEntries(actorsInActors[i..], actorsInStaging, site)) == spec
    {
      StagingEntriesStep(db.staging, actorsInActors, i, actorsInStaging, site);
      var dup := StageUnlessNamed(db, site, actorsInActors[i], actorsInStaging);
      if dup.Some? {
        return Aborted(StagingKeyExists(dup.value));
      }
      i := i + 1;
    }
    assert actorsInActors[i..] == [];
    outcome := Completed;
  }

  /** One actor's step of pass 3: its rows, then, unless one raised, the rest. */
  lemma StagingEntriesStep(t: seq<StagingRow>, actors: seq<Actor>, i: nat, skip: seq<string>, site: Site)
    requires i < |actors|
    ensures var mine := ActorStagingRows(actors[i], skip, site);
      var rest := StagingEntries(actors[i + 1..], skip, site);
      InsertAll(t, StagingEntries(actors[i..], skip, site)) ==
        if InsertAll(t, mine).1.Some? then InsertAll(t, mine) else InsertAll(InsertAll(t, mine).0, rest)
  {
    assert actors[i..][0] == actors[i] && actors[i..][1..] == actors[i + 1..];
    var mine := ActorStagingRows(actors[i], skip, site);
    var rest := StagingEntries(actors[i + 1..], skip, site);
    assert StagingEntries(actors[i..], skip, site) == mine + rest;
    InsertAllConcat(t, mine, rest);
  }

  // ---------------------------------------------------------------------
  // Pass 4a: movies
  // ---------------------------------------------------------------------

  /** `movie_urls_in_movies`, line 221. */
  function MovieUrls(movies: seq<Movie>): (r: seq<string>)
    ensures forall u :: u in r <==> exists m :: m in movies && m.fields.url == u
    decreases |movies|
  {
    if movies == [] then []
    else [movies[0].fields.url] + MovieUrls(movies[1..])
  }

  /** `movies_to_scrape`, line 224: (name, url) of every staging row whose url is not known, row by row. */
  function MoviesToScrape(staging: seq<StagingRow>, knownUrls: seq<string>): (r: seq<(string, string)>)
    ensures forall p :: p in r <==> exists s :: s in staging && s.movieUrl !in knownUrls && p == (s.movieName, s.movieUrl)
    decreases |staging|
  {
    if staging == [] then []
    else
      var s := staging[0];
      (if s.movieUrl in knownUrls then [] else [(s.movieName, s.movieUrl)]) + MoviesToScrape(staging[1..], knownUrls)
  }

  /** The movie row stored for a scraped (name, url): genres joined with ", ". */
  function MovieRow(name: string, url: string, site: Site): MovieInfo
  {
    var meta := MovieMetadataOf(site.moviePage(url));
    MovieInfo(name, meta.rating, meta.year, Join(GenreSeparator, meta.genres), url)
  }

  function MovieEntries(toScrape: seq<(string, string)>, site: Site): (r: seq<MovieInfo>)
    ensures |r| == |toScrape|
    ensures forall k :: 0 <= k < |r| ==> r[k].name == toScrape[k].0 && r[k].url == toScrape[k].1
    ensures forall k :: 0 <= k < |r| ==> r[k] == MovieRow(toScrape[k].0, toScrape[k].1, site)
    decreases |toScrape|
  {
    if toScrape == [] then []
    else [MovieRow(toScrape[0].0, toScrape[0].1, site)] + MovieEntries(toScrape[1..], site)
  }

  function MoviePass(t: Tables, site: Site): Tables
  {
    t.(movies := AppendRows(t.movies, MovieEntries(MoviesToScrape(t.staging, MovieUrls(t.movies)), site)))
  }

  /** Pass 4, lines 220-234. */
  method ScrapeMovies(db: Database, site: Site)
    requires db.Valid()
    modifies db
    ensures db.Valid()
    ensures db.Snapshot() == MoviePass(old(db.Snapshot()), site)
  {
    var movieUrlsInMovies := MovieUrls(db.movies);
    var stgInStaging := db.staging;
    var moviesToScrape := MoviesToScrape(stgInStaging, movieUrlsInMovies);
    ghost var entries := MovieEntries(moviesToScrape, site);
    assert moviesToScrape[0..] == moviesToScrape;
    for i := 0 to |moviesToScrape|
      invariant db.Valid()
      invariant db.Snapshot() == old(db.Snapshot()).(movies := db.movies)
      invariant AppendRows(db.movies, MovieEntries(moviesToScrape[i..], site)) == AppendRows(old(db.movies), entries)
    {
      var (movieName, movieUrl) := moviesToScrape[i];
      assert moviesToScrape[i..][0] == moviesToScrape[i] && moviesToScrape[i..][1..] == moviesToScrape[i + 1..];
      var meta := MovieMetadataOf(site.moviePage(movieUrl));
      var genres := Join(GenreSeparator, meta.genres);
      AppendRowsCons(db.movies, MovieRow(movieName, movieUrl, site), MovieEntries(moviesToScrape[i + 1..], site));
      var movieId := db.InsertMovie(movieName, meta.rating, meta.year, genres, movieUrl);
    }
    assert moviesToScrape[|moviesToScrape|..] == [];
  }

  // ---------------------------------------------------------------------
  // Pass 4b: played_in
  // ---------------------------------------------------------------------

  /**
   * Lines 237-241 over the staging rows: look the url up, insert the pair;
   * a url without a movie, or a pair already present, ends the run.
   */
  function RelationPass(playedIn: seq<PlayedIn>, staging: seq<StagingRow>, movies: seq<Movie>): (seq<PlayedIn>, Outcome)
    decreases |staging|
  {
    if staging == [] then (playedIn, Completed)
    else
      var s := staging[0];
      match MovieIdByUrl(movies, s.movieUrl)
      case None => (playedIn, Aborted(MovieUrlUnknown(s.movieUrl)))
      case Some(movieId) =>
        var row := PlayedIn(s.actorId, movieId);
        if row in playedIn then (playedIn, Aborted(PlayedInKeyExists(row)))
        else RelationPass(playedIn + [row], staging[1..], movies)
  }

  function RelationsPass(t: Tables): (Tables, Outcome)
  {
    var r := RelationPass(t.playedIn, t.staging, t.movies);
    (t.(playedIn := r.0), r.1)
  }

  /** Pass 4, lines 236-241; `stgInStaging` is the staging list read at line 222. */
  method InsertRelations(db: Database, stgInStaging: seq<StagingRow>) returns (outcome: Outcome)
    requires db.Valid() && stgInStaging == db.staging
    modifies db
    ensures db.Valid()
    ensures (db.Snapshot(), outcome) == RelationsPass(old(db.Snapshot()))
  {
    ghost var spec := RelationPass(db.playedIn, stgInStaging, db.movies);
    assert stgInStaging[0..] == stgInStaging;
    for i := 0 to |stgInStaging|
      invariant db.Valid()
      invariant db.Snapshot() == old(db.Snapshot()).(playedIn := db.playedIn)
      invariant RelationPass(db.playedIn, stgInStaging[i..], db.movies) == spec
    {
      var s := stgInStaging[i];
      assert stgInStaging[i..][0] == s && stgInStaging[i..][1..] == stgInStaging[i + 1..];
      var movieId := MovieIdByUrl(db.movies, s.movieUrl);
      if movieId.None? {
        return Aborted(MovieUrlUnknown(s.movieUrl));
      }
      var inserted := db.InsertPlayedIn(s.actorId, movieId.value);
      if !inserted {
        return Aborted(PlayedInKeyExists(PlayedIn(s.actorId, movieId.value)));
      }
    }
    assert stgInStaging[|stgInStaging|..] == [];
    outcome := Completed;
  }

  // ---------------------------------------------------------------------
  // The whole run
  // ---------------------------------------------------------------------

  /** The tables after one run of the script, and how it ended. */
  function Run(t: Tables, site: Site): (Tables, Outcome)
  {
    var t1 := ActorPass(t, site);
    var (t2, awardsOutcome) := AwardPass(t1, site);
    if awardsOutcome.Aborted? then (t2, awardsOutcome)
    else
      var (t3, stagingOutcome) := StagingPass(t2, site);
      if stagingOutcome.Aborted? then (t3, stagingOutcome)
      else RelationsPass(MoviePass(t3, site))
  }

  /** `__main__`, lines 175-243. */
  method Ingest(db: Database, site: Site) returns (outcome: Outcome)
    requires db.Valid()
    modifies db
    ensures db.Valid()
    ensures (db.Snapshot(), outcome) == Run(old(db.Snapshot()), site)
  {
    ScrapeActorData(db, site);
    var actorsInActors := db.actors;
    outcome := ScrapeAwardData(db, site, actorsInActors);
    if outcome.Aborted? {
      return;
    }
    outcome := ScrapeMovieData(db, site, actorsInActors);
    if outcome.Aborted? {
      return;
    }
    ScrapeMovies(db, site);
    var stgInStaging := db.staging;
    outcome := InsertRelations(db, stgInStaging);
  }
}
