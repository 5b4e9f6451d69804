/**
 * The relational store of database_module.py: five tables held in memory.
 * `actors`, `awards` and `movies` get their ids as "current maximum + 1, or 0
 * when the table is empty"; `played_in` and `actor_movie_staging` have a
 * composite primary key, so an insert that repeats a key fails. Every insert
 * is visible immediately (each one commits).
 */
module Store {
  import opened Wrappers
  import opened Text

  type Id = nat

  /** A row of a table whose primary key is a generated id. */
  datatype Row<T> = Row(id: Id, fields: T)

  datatype ActorInfo = ActorInfo(name: string, bio: string, link: string)
  datatype AwardInfo = AwardInfo(actorId: Id, name: string, category: string, year: string)
  /** `rating` is a TEXT column; `year` is absent (NULL) when the page has no release anchor. */
  datatype MovieInfo = MovieInfo(name: string, rating: string, year: Option<string>, genres: string, url: string)
  datatype PlayedIn = PlayedIn(actorId: Id, movieId: Id)
  datatype StagingRow = StagingRow(actorId: Id, movieName: string, movieUrl: string)

  type Actor = Row<ActorInfo>
  type Award = Row<AwardInfo>
  type Movie = Row<MovieInfo>

  /** The value of all five tables at one moment. */
  datatype Tables = Tables(
    actors: seq<Actor>,
    awards: seq<Award>,
    movies: seq<Movie>,
    playedIn: seq<PlayedIn>,
    staging: seq<StagingRow>)

  const EmptyTables := Tables([], [], [], [], [])

  // ---------------------------------------------------------------------
  // Id assignment
  // ---------------------------------------------------------------------

  /** `SELECT MAX(id)` over a non-empty table. */
  function MaxId<T>(t: seq<Row<T>>): (m: Id)
    requires t != []
    ensures exists i :: 0 <= i < |t| && t[i].id == m
    ensures forall i :: 0 <= i < |t| ==> t[i].id <= m
  {
    if |t| == 1 then t[0].id
    else
      var rest := MaxId(t[1..]);
      assert forall i :: 1 <= i < |t| ==> t[i] == t[1..][i - 1];
      if t[0].id < rest then rest else t[0].id
  }

  /** The id the next insert gets: 0 for an empty table, otherwise the maximum + 1. */
  function NextId<T>(t: seq<Row<T>>): (id: Id)
    ensures forall r :: r in t ==> r.id < id
    ensures t == [] ==> id == 0
    ensures t != [] ==> exists r :: r in t && id == r.id + 1
  {
    if t == [] then 0 else MaxId(t) + 1
  }

  /** Ids grow along the table; in particular no id occurs twice. */
  ghost predicate IdsIncreasing<T>(t: seq<Row<T>>)
  {
    forall i, j :: 0 <= i < j < |t| ==> t[i].id < t[j].id
  }

  predicate NoDuplicates<T(==)>(s: seq<T>)
  {
    forall i, j :: 0 <= i < j < |s| ==> s[i] != s[j]
  }

  /** The table after inserting `vs` one after the other, each with the next id. */
  function AppendRows<T>(t: seq<Row<T>>, vs: seq<T>): seq<Row<T>>
    decreases |vs|
  {
    if vs == [] then t
    else AppendRows(t + [Row(NextId(t), vs[0])], vs[1..])
  }

  /** Inserting `vs` appends exactly one row per value, in order, and keeps the old rows. */
  lemma {:induction false} AppendRowsShape<T>(t: seq<Row<T>>, vs: seq<T>)
    ensures |AppendRows(t, vs)| == |t| + |vs|
    ensures AppendRows(t, vs)[..|t|] == t
    ensures forall k :: 0 <= k < |vs| ==> AppendRows(t, vs)[|t| + k].fields == vs[k]
    decreases |vs|
  {
    if vs != [] {
      var t' := t + [Row(NextId(t), vs[0])];
      AppendRowsShape(t', vs[1..]);
      var u := AppendRows(t, vs);
      assert u == AppendRows(t', vs[1..]);
      assert u[..|t|] == u[..|t'|][..|t|];
      forall k | 0 <= k < |vs| ensures u[|t| + k].fields == vs[k] {
        if k == 0 {
          assert u[|t|] == u[..|t'|][|t|];
        } else {
          assert u[|t| + k] == u[|t'| + (k - 1)];
          assert vs[k] == vs[1..][k - 1];
        }
      }
    }
  }

  /**
   * The ids of the new rows lie above all old ids and grow with each insert,
   * so a table whose ids increase keeps increasing ids.
   */
  lemma {:induction false} AppendRowsIds<T>(t: seq<Row<T>>, vs: seq<T>)
    requires IdsIncreasing(t)
    ensures IdsIncreasing(AppendRows(t, vs))
    decreases |vs|
  {
    if vs != [] {
      var t' := t + [Row(NextId(t), vs[0])];
      assert IdsIncreasing(t');
      AppendRowsIds(t', vs[1..]);
    }
  }

  // ---------------------------------------------------------------------
  // Inserts into tables keyed by their whole row
  // ---------------------------------------------------------------------

  /**
   * Inserting `rows` one after the other into a table whose primary key is
   * the whole row: the first row already present stops the batch with a key
   * violation; the rows before it stay inserted.
   */
  function InsertAll<T(==)>(t: seq<T>, rows: seq<T>): (seq<T>, Option<T>)
    decreases |rows|
  {
    if rows == [] then (t, None)
    else if rows[0] in t then (t, Some(rows[0]))
    else InsertAll(t + [rows[0]], rows[1..])
  }

  /** A batch keeps the old rows and keeps the key unique. */
  lemma {:induction false} InsertAllKeepsKey<T>(t: seq<T>, rows: seq<T>)
    requires NoDuplicates(t)
    ensures |t| <= |InsertAll(t, rows).0|
    ensures InsertAll(t, rows).0[..|t|] == t
    ensures NoDuplicates(InsertAll(t, rows).0)
    decreases |rows|
  {
    if rows != [] && rows[0] !in t {
      var t1 := t + [rows[0]];
      InsertAllKeepsKey(t1, rows[1..]);
      var t' := InsertAll(t1, rows[1..]).0;
      assert t'[..|t|] == t'[..|t1|][..|t|];
    }
  }

  /**
   * A batch succeeds exactly when its rows are pairwise distinct and none is
   * in the table already, and then appends them all; a reported violation is
   * a row of the batch that is in the resulting table.
   */
  lemma {:induction false} InsertAllSucceedsIff<T>(t: seq<T>, rows: seq<T>)
    ensures InsertAll(t, rows).1.None? <==> NoDuplicates(rows) && forall r :: r in rows ==> r !in t
    ensures InsertAll(t, rows).1.None? ==> InsertAll(t, rows).0 == t + rows
    ensures InsertAll(t, rows).1.Some? ==>
      InsertAll(t, rows).1.value in rows && InsertAll(t, rows).1.value in InsertAll(t, rows).0
    decreases |rows|
  {
    if rows != [] && rows[0] !in t {
      var t1 := t + [rows[0]];
      var tail := rows[1..];
      InsertAllSucceedsIff(t1, tail);
      assert rows == [rows[0]] + tail;
      var dup := InsertAll(t1, tail).1;
      assert InsertAll(t, rows) == InsertAll(t1, tail);
      if dup.None? {
        assert forall r :: r in tail ==> r !in t1;
        forall i, j | 0 <= i < j < |rows| ensures rows[i] != rows[j] {
          assert rows[j] == tail[j - 1] && tail[j - 1] in tail;
          if i > 0 {
            assert rows[i] == tail[i - 1];
          } else {
            assert rows[0] in t1;
          }
        }
      } else if NoDuplicates(rows) && forall r :: r in rows ==> r !in t {
        forall i, j | 0 <= i < j < |tail| ensures tail[i] != tail[j] {
          assert tail[i] == rows[i + 1] && tail[j] == rows[j + 1];
        }
        assert false;
      }
    }
  }

  /**
   * A failed batch stops at its first row already present: the rows before
   * it were each absent when inserted and stay in the table, and nothing
   * after it is inserted.
   */
  lemma {:induction false} InsertAllStopsAtFirstPresent<T>(t: seq<T>, rows: seq<T>)
    ensures InsertAll(t, rows).1.Some? ==>
      exists k :: (0 <= k < |rows| && rows[k] == InsertAll(t, rows).1.value &&
        InsertAll(t, rows).0 == t + rows[..k] && rows[k] in t + rows[..k] &&
        forall j :: 0 <= j < k ==> rows[j] !in t + rows[..j])
    decreases |rows|
  {
    if rows != [] && rows[0] in t {
      assert t + rows[..0] == t;
    } else if rows != [] {
      var t1 := t + [rows[0]];
      var tail := rows[1..];
      InsertAllStopsAtFirstPresent(t1, tail);
      assert InsertAll(t, rows) == InsertAll(t1, tail);
      if InsertAll(t1, tail).1.Some? {
        var k :| (0 <= k < |tail| && tail[k] == InsertAll(t1, tail).1.value &&
          InsertAll(t1, tail).0 == t1 + tail[..k] && tail[k] in t1 + tail[..k] &&
          forall j :: 0 <= j < k ==> tail[j] !in t1 + tail[..j]);
        assert t1 + tail[..k] == t + rows[..k + 1];
        forall j | 0 <= j < k + 1 ensures rows[j] !in t + rows[..j] {
          if j > 0 {
            assert rows[j] == tail[j - 1] && t + rows[..j] == t1 + tail[..j - 1];
          }
        }
      }
    }
  }

  /** Dropping the first row of a table with increasing ids keeps them increasing, all above the first. */
  lemma IdsIncreasingTail<T>(t: seq<Row<T>>)
    requires t != []
    ensures IdsIncreasing(t) ==> IdsIncreasing(t[1..]) && forall r :: r in t[1..] ==> t[0].id < r.id
  {
    if IdsIncreasing(t) {
      var tail := t[1..];
      forall i, j | 0 <= i < j < |tail| ensures tail[i].id < tail[j].id {
        assert tail[i] == t[i + 1] && tail[j] == t[j + 1];
      }
      forall r | r in tail ensures t[0].id < r.id {
        var k :| 0 <= k < |tail| && tail[k] == r;
        assert t[k + 1] == r;
      }
    }
  }

  /** Dropping the first row of a duplicate-free table keeps it duplicate-free, without that row. */
  lemma NoDuplicatesTail<T>(s: seq<T>)
    requires s != []
    ensures NoDuplicates(s) ==> NoDuplicates(s[1..]) && s[0] !in s[1..]
  {
    if NoDuplicates(s) {
      var tail := s[1..];
      forall i, j | 0 <= i < j < |tail| ensures tail[i] != tail[j] {
        assert tail[i] == s[i + 1] && tail[j] == s[j + 1];
      }
      forall j | 0 <= j < |tail| ensures tail[j] != s[0] {
        assert tail[j] == s[j + 1];
      }
    }
  }

  /** Two duplicate-free, disjoint sequences concatenate to a duplicate-free one. */
  lemma NoDuplicatesConcat<T>(a: seq<T>, b: seq<T>)
    ensures NoDuplicates(a) && NoDuplicates(b) && (forall x :: x in a ==> x !in b) ==> NoDuplicates(a + b)
  {
    if NoDuplicates(a) && NoDuplicates(b) && (forall x :: x in a ==> x !in b) {
      forall i, j | 0 <= i < j < |a + b| ensures (a + b)[i] != (a + b)[j] {
        if j < |a| {
          assert (a + b)[i] == a[i] && (a + b)[j] == a[j];
        } else if i >= |a| {
          assert (a + b)[i] == b[i - |a|] && (a + b)[j] == b[j - |a|];
        } else {
          assert (a + b)[i] == a[i] && a[i] in a && (a + b)[j] == b[j - |a|] && b[j - |a|] in b;
        }
      }
    }
  }

  /** A table without duplicates holds each row at most once. */
  lemma {:induction false} NoDuplicatesCount<T>(s: seq<T>, e: T)
    ensures NoDuplicates(s) ==> multiset(s)[e] <= 1
    decreases |s|
  {
    if s != [] && NoDuplicates(s) {
      var tail := s[1..];
      assert NoDuplicates(tail) by {
        forall i, j | 0 <= i < j < |tail| ensures tail[i] != tail[j] {
          assert tail[i] == s[i + 1] && tail[j] == s[j + 1];
        }
      }
      NoDuplicatesCount(tail, e);
      assert s == [s[0]] + tail;
      assert s[0] !in tail by {
        forall j | 0 <= j < |tail| ensures tail[j] != s[0] {
          assert tail[j] == s[j + 1];
        }
      }
    }
  }

  /** Inserting `a` and then `b` is inserting `a + b`. */
  lemma {:induction false} AppendRowsConcat<T>(t: seq<Row<T>>, a: seq<T>, b: seq<T>)
    ensures AppendRows(AppendRows(t, a), b) == AppendRows(t, a + b)
    decreases |a|
  {
    if a == [] {
      assert a + b == b;
    } else {
      var t' := t + [Row(NextId(t), a[0])];
      assert AppendRows(t, a) == AppendRows(t', a[1..]);
      assert (a + b)[0] == a[0] && (a + b)[1..] == a[1..] + b;
      assert AppendRows(t, a + b) == AppendRows(t', a[1..] + b);
      AppendRowsConcat(t', a[1..], b);
    }
  }

  /** A batch `a + b` is the batch `a`, then, unless `a` stopped, the batch `b`. */
  lemma {:induction false} InsertAllConcat<T>(t: seq<T>, a: seq<T>, b: seq<T>)
    ensures InsertAll(t, a + b) ==
      if InsertAll(t, a).1.Some? then InsertAll(t, a) else InsertAll(InsertAll(t, a).0, b)
    decreases |a|
  {
    if a == [] {
      assert a + b == b;
    } else {
      assert (a + b)[0] == a[0] && (a + b)[1..] == a[1..] + b;
      if a[0] !in t {
        InsertAllConcat(t + [a[0]], a[1..], b);
      }
    }
  }

  // ---------------------------------------------------------------------
  // The store
  // ---------------------------------------------------------------------

  class Database {
    var actors: seq<Actor>
    var awards: seq<Award>
    var movies: seq<Movie>
    var playedIn: seq<PlayedIn>
    var staging: seq<StagingRow>

    /** The keys of all five tables are unique. */
    ghost predicate Valid()
      reads this
    {
      && IdsIncreasing(actors) && IdsIncreasing(awards) && IdsIncreasing(movies)
      && NoDuplicates(playedIn) && NoDuplicates(staging)
    }

    function Snapshot(): Tables
      reads this
    {
      Tables(actors, awards, movies, playedIn, staging)
    }

    /** A freshly initialised store, as running database_module.py leaves it. */
    constructor ()
      ensures Valid() && Snapshot() == EmptyTables
    {
      actors, awards, movies, playedIn, staging := [], [], [], [], [];
    }

    /** `reset_database`: all five tables exist and are empty. */
    method Reset()
      modifies this
      ensures Valid() && Snapshot() == EmptyTables
    {
      actors, awards, movies, playedIn, staging := [], [], [], [], [];
    }

    /** `insert_actor_into_actors_table`: returns the id it stored. */
    method InsertActor(name: string, bio: string, link: string) returns (id: Id)
      requires Valid()
      modifies this
      ensures Valid()
      ensures id == NextId(old(actors)) && forall r :: r in old(actors) ==> r.id < id
      ensures actors == old(actors) + [Row(id, ActorInfo(name, bio, link))]
      ensures Snapshot() == old(Snapshot()).(actors := actors)
    {
      id := NextId(actors);
      actors := actors + [Row(id, ActorInfo(name, bio, link))];
    }

    /** `insert_award_into_awards_table`: returns nothing. */
    method InsertAward(actorId: Id, name: string, category: string, year: string)
      requires Valid()
      modifies this
      ensures Valid()
      ensures awards == old(awards) + [Row(NextId(old(awards)), AwardInfo(actorId, name, category, year))]
      ensures Snapshot() == old(Snapshot()).(awards := awards)
    {
      awards := awards + [Row(NextId(awards), AwardInfo(actorId, name, category, year))];
    }

    /** `insert_movie_into_movies_table`: returns the id it stored. */
    method InsertMovie(name: string, rating: string, year: Option<string>, genres: string, url: string)
      returns (id: Id)
      requires Valid()
      modifies this
      ensures Valid()
      ensures id == NextId(old(movies)) && forall r :: r in old(movies) ==> r.id < id
      ensures movies == old(movies) + [Row(id, MovieInfo(name, rating, year, genres, url))]
      ensures Snapshot() == old(Snapshot()).(movies := movies)
    {
      id := NextId(movies);
      movies := movies + [Row(id, MovieInfo(name, rating, year, genres, url))];
    }

    /**
     * `insert_entry_in_played_in_table`: fails (`inserted == false`, nothing
     * changes) when the (actor, movie) pair is already present.
     */
    method InsertPlayedIn(actorId: Id, movieId: Id) returns (inserted: bool)
      requires Valid()
      modifies this
      ensures Valid()
      ensures inserted <==> PlayedIn(actorId, movieId) !in old(playedIn)
      ensures playedIn == if inserted then old(playedIn) + [PlayedIn(actorId, movieId)] else old(playedIn)
      ensures Snapshot() == old(Snapshot()).(playedIn := playedIn)
    {
      inserted := PlayedIn(actorId, movieId) !in playedIn;
      if inserted {
        playedIn := playedIn + [PlayedIn(actorId, movieId)];
      }
    }

    /**
     * `insert_into_actor_movie_staging_table`: fails when the (actor, title,
     * url) triple is already present.
     */
    method InsertStaging(actorId: Id, movieName: string, movieUrl: string) returns (inserted: bool)
      requires Valid()
      modifies this
      ensures Valid()
      ensures inserted <==> StagingRow(actorId, movieName, movieUrl) !in old(staging)
      ensures staging == if inserted then old(staging) + [StagingRow(actorId, movieName, movieUrl)] else old(staging)
      ensures Snapshot() == old(Snapshot()).(staging := staging)
    {
      var row := StagingRow(actorId, movieName, movieUrl);
      inserted := row !in staging;
      if inserted {
        staging := staging + [row];
      }
    }
  }
}
