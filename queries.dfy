/**
 * The read queries of database_module.py as functions of the tables. SQL
 * leaves the order of rows open unless a query sorts; here rows come out in
 * table (insertion) order, and DISTINCT keeps first appearances.
 */
module Queries {
  import opened Wrappers
  import opened Text
  import opened Store

  /** The position of the first movie at or after `from` whose url is `url`. */
  function MovieIndexFrom(movies: seq<Movie>, url: string, from: nat): (r: Option<nat>)
    requires from <= |movies|
    ensures r.Some? ==> from <= r.value < |movies| && movies[r.value].fields.url == url
    ensures r.Some? ==> forall j :: from <= j < r.value ==> movies[j].fields.url != url
    ensures r.None? ==> forall j :: from <= j < |movies| ==> movies[j].fields.url != url
    decreases |movies| - from
  {
    if from == |movies| then None
    else if movies[from].fields.url == url then Some(from)
    else MovieIndexFrom(movies, url, from + 1)
  }

  /**
   * `get_movie_id(url)[0]`: the id of the first movie stored with that url,
   * or None when no movie has it. Urls are not a key of `movies`, so several
   * rows may match.
   */
  function MovieIdByUrl(movies: seq<Movie>, url: string): (r: Option<Id>)
    ensures r.None? <==> forall m :: m in movies ==> m.fields.url != url
    ensures r.Some? ==> exists i :: (0 <= i < |movies| && movies[i].fields.url == url && movies[i].id == r.value &&
      forall j :: 0 <= j < i ==> movies[j].fields.url != url)
  {
    match MovieIndexFrom(movies, url, 0)
    case None => None
    case Some(i) => Some(movies[i].id)
  }

  /** `SELECT DISTINCT`: each value once, at its first appearance. */
  function Distinct<T(==,!new)>(xs: seq<T>): (r: seq<T>)
    ensures NoDuplicates(r)
    ensures forall x :: x in r <==> x in xs
    decreases |xs|
  {
    if xs == [] then []
    else
      var init := xs[..|xs| - 1];
      var d := Distinct(init);
      assert xs == init + [xs[|xs| - 1]];
      if xs[|xs| - 1] in d then d else d + [xs[|xs| - 1]]
  }

  /** Names of the actors whose id is `id`. */
  function NamesWithId(actors: seq<Actor>, id: Id): (r: seq<string>)
    ensures forall n :: n in r <==> exists x :: x in actors && x.id == id && x.fields.name == n
    decreases |actors|
  {
    if actors == [] then []
    else
      var rest := NamesWithId(actors[1..], id);
      assert forall x :: x in actors <==> x == actors[0] || x in actors[1..];
      (if actors[0].id == id then [actors[0].fields.name] else []) + rest
  }

  /** `SELECT actor_name FROM refs INNER JOIN actors USING(actor_id)`, with repetitions. */
  function JoinedNames<R(!new)>(actors: seq<Actor>, refs: seq<R>, owner: R -> Id): (r: seq<string>)
    ensures forall n :: n in r <==>
      exists x, a :: x in actors && a in refs && owner(a) == x.id && x.fields.name == n
    decreases |refs|
  {
    if refs == [] then []
    else
      var rest := JoinedNames(actors, refs[1..], owner);
      assert forall a :: a in refs <==> a == refs[0] || a in refs[1..];
      NamesWithId(actors, owner(refs[0])) + rest
  }

  /**
   * `get_actors_in_awards`: each name at most once, and a name is listed iff
   * some award row references an actor id that has that name.
   */
  function AwardOwnerNames(actors: seq<Actor>, awards: seq<Award>): (r: seq<string>)
    ensures NoDuplicates(r)
    ensures forall n :: n in r <==>
      exists x, a :: x in actors && a in awards && a.fields.actorId == x.id && x.fields.name == n
  {
    Distinct(JoinedNames(actors, awards, (a: Award) => a.fields.actorId))
  }

  /**
   * `get_actors_in_actor_movie_staging`: each name at most once, and a name
   * is listed iff some staging row references an actor id that has that name.
   */
  function StagingOwnerNames(actors: seq<Actor>, staging: seq<StagingRow>): (r: seq<string>)
    ensures NoDuplicates(r)
    ensures forall n :: n in r <==>
      exists x, s :: x in actors && s in staging && s.actorId == x.id && x.fields.name == n
  {
    Distinct(JoinedNames(actors, staging, (s: StagingRow) => s.actorId))
  }

  /** The movies whose id is `id`. */
  function MoviesWithId(movies: seq<Movie>, id: Id): (r: seq<Movie>)
    ensures forall m :: m in r <==> m in movies && m.id == id
    ensures IdsIncreasing(movies) ==> |r| <= 1
    decreases |movies|
  {
    if movies == [] then []
    else
      var rest := MoviesWithId(movies[1..], id);
      assert forall m :: m in movies <==> m == movies[0] || m in movies[1..];
      IdsIncreasingTail(movies);
      assert |rest| > 0 ==> rest[0] in rest;
      (if movies[0].id == id then [movies[0]] else []) + rest
  }

  /**
   * `get_actor_movies(actor_id)`: the join of `played_in` with `movies` for
   * one actor. A movie is listed iff a `played_in` row links it to the actor.
   */
  function ActorMovies(playedIn: seq<PlayedIn>, movies: seq<Movie>, actorId: Id): (r: seq<Movie>)
    ensures forall m :: m in r <==> m in movies && PlayedIn(actorId, m.id) in playedIn
    ensures NoDuplicates(playedIn) && IdsIncreasing(movies) ==> NoDuplicates(r)
    decreases |playedIn|
  {
    if playedIn == [] then []
    else
      var p := playedIn[0];
      var rest := ActorMovies(playedIn[1..], movies, actorId);
      assert forall q :: q in playedIn <==> q == p || q in playedIn[1..];
      var head := if p.actorId == actorId then MoviesWithId(movies, p.movieId) else [];
      NoDuplicatesTail(playedIn);
      NoDuplicatesConcat(head, rest);
      assert NoDuplicates(playedIn) ==> forall m :: m in head ==> m !in rest;
      head + rest
  }

  /** `get_actor_awards(actor_id)`: the award rows of one actor, in table order. */
  function AwardsOfActor(awards: seq<Award>, actorId: Id): (r: seq<Award>)
    ensures forall a :: a in r <==> a in awards && a.fields.actorId == actorId
    ensures |r| <= |awards|
    ensures IdsIncreasing(awards) ==> NoDuplicates(r)
    decreases |awards|
  {
    if awards == [] then []
    else
      var rest := AwardsOfActor(awards[1..], actorId);
      assert forall a :: a in awards <==> a == awards[0] || a in awards[1..];
      var head := if awards[0].fields.actorId == actorId then [awards[0]] else [];
      IdsIncreasingTail(awards);
      NoDuplicatesConcat(head, rest);
      head + rest
  }

  /** `get_actor_bio(actor_id)`: the bio of the first actor row with that id. */
  function BioOf(actors: seq<Actor>, actorId: Id): (r: Option<string>)
    ensures r.None? <==> forall x :: x in actors ==> x.id != actorId
    ensures r.Some? ==> exists x :: x in actors && x.id == actorId && x.fields.bio == r.value
    decreases |actors|
  {
    if actors == [] then None
    else if actors[0].id == actorId then Some(actors[0].fields.bio)
    else
      assert forall x :: x in actors <==> x == actors[0] || x in actors[1..];
      BioOf(actors[1..], actorId)
  }

  // ---------------------------------------------------------------------
  // ORDER BY movie_rating DESC LIMIT 5
  // ---------------------------------------------------------------------

  /** Ratings do not increase along `ms` (text order, since movie_rating is TEXT). */
  ghost predicate ByRatingDesc(ms: seq<Movie>)
  {
    forall i, j :: 0 <= i < j < |ms| ==> TextLeq(ms[j].fields.rating, ms[i].fields.rating)
  }

  /** Puts `m` before the first movie whose rating is not above its own. */
  function InsertByRating(m: Movie, sorted: seq<Movie>): seq<Movie>
    decreases |sorted|
  {
    if sorted == [] then [m]
    else if TextLeq(sorted[0].fields.rating, m.fields.rating) then [m] + sorted
    else [sorted[0]] + InsertByRating(m, sorted[1..])
  }

  lemma {:induction false} InsertByRatingPermutes(m: Movie, sorted: seq<Movie>)
    ensures multiset(InsertByRating(m, sorted)) == multiset(sorted) + multiset{m}
    decreases |sorted|
  {
    if sorted != [] && !TextLeq(sorted[0].fields.rating, m.fields.rating) {
      InsertByRatingPermutes(m, sorted[1..]);
      assert sorted == [sorted[0]] + sorted[1..];
    }
  }

  lemma {:induction false} InsertByRatingSorted(m: Movie, sorted: seq<Movie>)
    requires ByRatingDesc(sorted)
    ensures ByRatingDesc(InsertByRating(m, sorted))
    ensures InsertByRating(m, sorted)[0] == m || InsertByRating(m, sorted)[0] == sorted[0]
    decreases |sorted|
  {
    var r := InsertByRating(m, sorted);
    if sorted == [] {
    } else if TextLeq(sorted[0].fields.rating, m.fields.rating) {
      forall i, j | 0 <= i < j < |r| ensures TextLeq(r[j].fields.rating, r[i].fields.rating) {
        if i == 0 && j > 1 {
          TextLeqTransitive(r[j].fields.rating, sorted[0].fields.rating, m.fields.rating);
        }
      }
    } else {
      var s0 := sorted[0];
      var tail := sorted[1..];
      InsertByRatingSorted(m, tail);
      var t' := InsertByRating(m, tail);
      assert r == [s0] + t';
      TextLeqTotal(s0.fields.rating, m.fields.rating);
      assert TextLeq(t'[0].fields.rating, s0.fields.rating) by {
        if t'[0] != m {
          assert t'[0] == sorted[1];
        }
      }
      forall i, j | 0 <= i < j < |r| ensures TextLeq(r[j].fields.rating, r[i].fields.rating) {
        if i == 0 {
          if j > 1 {
            TextLeqTransitive(t'[j - 1].fields.rating, t'[0].fields.rating, s0.fields.rating);
          }
        } else {
          assert r[i] == t'[i - 1] && r[j] == t'[j - 1];
        }
      }
    }
  }

  /** Stable insertion sort by rating, highest first; equal ratings keep their order. */
  function SortByRating(ms: seq<Movie>): seq<Movie>
    decreases |ms|
  {
    if ms == [] then [] else InsertByRating(ms[0], SortByRating(ms[1..]))
  }

  lemma {:induction false} SortByRatingSpec(ms: seq<Movie>)
    ensures multiset(SortByRating(ms)) == multiset(ms)
    ensures ByRatingDesc(SortByRating(ms))
    decreases |ms|
  {
    if ms != [] {
      SortByRatingSpec(ms[1..]);
      InsertByRatingPermutes(ms[0], SortByRating(ms[1..]));
      InsertByRatingSorted(ms[0], SortByRating(ms[1..]));
      assert ms == [ms[0]] + ms[1..];
    }
  }

  /** In a list sorted highest first, nothing after position `k` rates above anything before it. */
  lemma SortedSplit(s: seq<Movie>, k: nat)
    requires ByRatingDesc(s) && k <= |s|
    ensures forall x, y :: x in s[k..] && y in s[..k] ==> TextLeq(x.fields.rating, y.fields.rating)
  {
    forall x, y | x in s[k..] && y in s[..k] ensures TextLeq(x.fields.rating, y.fields.rating) {
      var j :| 0 <= j < |s[k..]| && s[k..][j] == x;
      var i :| 0 <= i < |s[..k]| && s[..k][i] == y;
      assert s[k + j] == x && s[i] == y;
    }
  }

  /** The same cut, counted in multisets: whatever the prefix leaves out rates no higher than the prefix. */
  lemma SortedSplitLeftOver(s: seq<Movie>, k: nat)
    requires ByRatingDesc(s) && k <= |s|
    ensures multiset(s[..k]) <= multiset(s)
    ensures forall x, y :: x in multiset(s) - multiset(s[..k]) && y in s[..k] ==>
      TextLeq(x.fields.rating, y.fields.rating)
  {
    SortedSplit(s, k);
    TakeDropMultiset(s, k);
    forall x, y | x in multiset(s) - multiset(s[..k]) && y in s[..k]
      ensures TextLeq(x.fields.rating, y.fields.rating)
    {
      assert x in multiset(s[k..]);
    }
  }

  /** A prefix of a list sorted highest first is sorted highest first. */
  lemma SortedPrefix(s: seq<Movie>, k: nat)
    requires ByRatingDesc(s) && k <= |s|
    ensures ByRatingDesc(s[..k])
  {
    forall i, j | 0 <= i < j < k ensures TextLeq(s[..k][j].fields.rating, s[..k][i].fields.rating) {
      assert s[..k][j] == s[j] && s[..k][i] == s[i];
    }
  }

  /** Cutting a list in two splits its multiset the same way. */
  lemma TakeDropMultiset<T>(s: seq<T>, k: nat)
    requires k <= |s|
    ensures multiset(s[..k]) <= multiset(s)
    ensures multiset(s) - multiset(s[..k]) == multiset(s[k..])
  {
    assert s == s[..k] + s[k..];
  }

  /**
   * The first `min(5, |ms|)` movies by rating: rows of `ms`, highest first,
   * and no row left out rates above a row kept.
   */
  function TopFive(ms: seq<Movie>): (r: seq<Movie>)
    ensures |r| == if |ms| < 5 then |ms| else 5
    ensures multiset(r) <= multiset(ms)
    ensures ByRatingDesc(r)
    ensures forall x, y :: x in multiset(ms) - multiset(r) && y in r ==>
      TextLeq(x.fields.rating, y.fields.rating)
  {
    var s := SortByRating(ms);
    SortByRatingSpec(ms);
    var k := if |s| < 5 then |s| else 5;
    assert |s| == |multiset(s)| == |multiset(ms)| == |ms|;
    SortedSplitLeftOver(s, k);
    SortedPrefix(s, k);
    s[..k]
  }

  /** `get_actor_top_five_movies(actor_id)`. */
  function ActorTopFive(playedIn: seq<PlayedIn>, movies: seq<Movie>, actorId: Id): (r: seq<Movie>)
    ensures |r| <= 5
    ensures var joined := ActorMovies(playedIn, movies, actorId);
      |r| == if |joined| < 5 then |joined| else 5
    ensures forall m :: m in r ==> m in movies && PlayedIn(actorId, m.id) in playedIn
    ensures multiset(r) <= multiset(ActorMovies(playedIn, movies, actorId))
    ensures ByRatingDesc(r)
    ensures forall x, y :: x in multiset(ActorMovies(playedIn, movies, actorId)) - multiset(r) && y in r ==>
      TextLeq(x.fields.rating, y.fields.rating)
  {
    var joined := ActorMovies(playedIn, movies, actorId);
    var r := TopFive(joined);
    assert forall m :: m in r ==> m in multiset(joined);
    r
  }
}
