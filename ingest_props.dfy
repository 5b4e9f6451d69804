/**
 * What the passes of the ingest run promise, stated over the pass
 * functions of `Ingest`: the skip-sets, the Winner filter, the movie
 * lookups, and what happens when the script is run a second time.
 */
module IngestProperties {
  import opened Wrappers
  import opened Text
  import opened Store
  import opened Queries
  import opened Scraping
  import opened Ingest

  /** Rows of a table survive an insert batch; every inserted value shows up as some row. */
  lemma AppendRowsMembers<T>(t: seq<Row<T>>, vs: seq<T>)
    ensures forall r :: r in t ==> r in AppendRows(t, vs)
    ensures forall v :: v in vs ==> exists r :: r in AppendRows(t, vs) && r.fields == v
    ensures forall r :: r in AppendRows(t, vs) && r !in t ==> r.fields in vs
  {
    AppendRowsShape(t, vs);
    var u := AppendRows(t, vs);
    forall r | r in t ensures r in u {
      var k :| 0 <= k < |t| && t[k] == r;
      assert u[k] == u[..|t|][k];
    }
    forall v | v in vs ensures exists r :: r in u && r.fields == v {
      var k :| 0 <= k < |vs| && vs[k] == v;
      assert u[|t| + k] in u;
    }
    forall r | r in u && r !in t ensures r.fields in vs {
      var k :| 0 <= k < |u| && u[k] == r;
      if k >= |t| {
        assert vs[k - |t|] in vs;
      }
    }
  }

  // ---------------------------------------------------------------------
  // Pass 1
  // ---------------------------------------------------------------------

  /** Pass 1 inserts one actor per listed pair not yet stored, with the bio of its link, and nothing else. */
  lemma ActorEntriesSpec(listed: seq<(string, string)>, skip: seq<(string, string)>, site: Site)
    ensures forall e :: e in ActorEntries(listed, skip, site) <==>
      exists p :: p in listed && p !in skip && e == ActorInfo(p.0, ActorBio(site, p.1), p.1)
    ensures forall p: (string, string) :: (multiset(ActorEntries(listed, skip, site))[ActorInfo(p.0, ActorBio(site, p.1), p.1)] ==
      if p in skip then 0 else multiset(listed)[p])
    ensures |ActorEntries(listed, skip, site)| <= |listed|
    ensures (forall p :: p in listed ==> p in skip) ==> ActorEntries(listed, skip, site) == []
  {
    ActorEntriesMembers(listed, skip, site);
    forall p: (string, string)
      ensures multiset(ActorEntries(listed, skip, site))[ActorInfo(p.0, ActorBio(site, p.1), p.1)] ==
        if p in skip then 0 else multiset(listed)[p]
    {
      ActorEntryCount(listed, skip, site, p);
    }
  }

  /** The rows of pass 1 are the unstored listed pairs with their bios, at most one per listing entry. */
  lemma {:induction false} ActorEntriesMembers(listed: seq<(string, string)>, skip: seq<(string, string)>, site: Site)
    ensures forall e :: e in ActorEntries(listed, skip, site) <==>
      exists p :: p in listed && p !in skip && e == ActorInfo(p.0, ActorBio(site, p.1), p.1)
    ensures |ActorEntries(listed, skip, site)| <= |listed|
    ensures (forall p :: p in listed ==> p in skip) ==> ActorEntries(listed, skip, site) == []
    decreases |listed|
  {
    if listed != [] {
      ActorEntriesMembers(listed[1..], skip, site);
      assert forall p :: p in listed <==> p == listed[0] || p in listed[1..];
    }
  }

  /** One listed pair not yet stored gives one actor row per listing occurrence. */
  lemma {:induction false} ActorEntryCount(listed: seq<(string, string)>, skip: seq<(string, string)>, site: Site, p: (string, string))
    ensures multiset(ActorEntries(listed, skip, site))[ActorInfo(p.0, ActorBio(site, p.1), p.1)] ==
      if p in skip then 0 else multiset(listed)[p]
    decreases |listed|
  {
    if listed != [] {
      var q := listed[0];
      ActorEntryCount(listed[1..], skip, site, p);
      assert listed == [q] + listed[1..];
      var head := if q in skip then [] else [ActorInfo(q.0, ActorBio(site, q.1), q.1)];
      assert ActorEntries(listed, skip, site) == head + ActorEntries(listed[1..], skip, site);
    }
  }

  /** Pass 1 keeps listing order: the entries of a concatenation are the entries of each part. */
  lemma {:induction false} ActorEntriesConcat(a: seq<(string, string)>, b: seq<(string, string)>, skip: seq<(string, string)>, site: Site)
    ensures ActorEntries(a + b, skip, site) == ActorEntries(a, skip, site) + ActorEntries(b, skip, site)
    decreases |a|
  {
    if a == [] {
      assert a + b == b;
    } else {
      ActorEntriesConcat(a[1..], b, skip, site);
      assert (a + b)[0] == a[0] && (a + b)[1..] == a[1..] + b;
    }
  }

  /**
   * After pass 1 every listed (name, link) pair is stored; the rows it adds
   * are listed pairs that were not stored at its start, each with the bio
   * of its own link; the old rows are kept.
   */
  lemma ActorPassSpec(t: Tables, site: Site)
    ensures |t.actors| <= |ActorPass(t, site).actors|
    ensures ActorPass(t, site).actors[..|t.actors|] == t.actors
    ensures forall p :: p in Listing(site.listing) ==> p in NameLinks(ActorPass(t, site).actors)
    ensures forall x :: x in ActorPass(t, site).actors && x !in t.actors ==>
      && (x.fields.name, x.fields.link) in Listing(site.listing)
      && (x.fields.name, x.fields.link) !in NameLinks(t.actors)
      && x.fields.bio == ActorBio(site, x.fields.link)
  {
    var listed := Listing(site.listing);
    var skip := NameLinks(t.actors);
    var es := ActorEntries(listed, skip, site);
    var after := ActorPass(t, site).actors;
    ActorEntriesSpec(listed, skip, site);
    AppendRowsShape(t.actors, es);
    AppendRowsMembers(t.actors, es);
    forall p | p in listed ensures p in NameLinks(after) {
      if p in skip {
        var x :| x in t.actors && p == (x.fields.name, x.fields.link);
        assert x in after;
      } else {
        var e := ActorInfo(p.0, ActorBio(site, p.1), p.1);
        assert e in es;
        var x :| x in after && x.fields == e;
      }
    }
  }

  /** Running pass 1 again right after it adds nothing. */
  lemma ActorPassIdempotent(t: Tables, site: Site)
    ensures ActorPass(ActorPass(t, site), site) == ActorPass(t, site)
  {
    var t1 := ActorPass(t, site);
    var listed := Listing(site.listing);
    var skip := NameLinks(t1.actors);
    ActorPassSpec(t, site);
    var es := ActorEntries(listed, skip, site);
    ActorEntriesSpec(listed, skip, site);
  }

  // ---------------------------------------------------------------------
  // Pass 2
  // ---------------------------------------------------------------------

  /**
   * Pass 2 inserts, for the actors not named in `skip`, exactly their awards
   * tagged 'Winner', each under the actor's id; it gets to the end unless
   * the awards page of such an actor raises, and that error is what stops
   * it. When every actor is skipped or has no winning award, nothing is
   * inserted.
   */
  lemma {:induction false} AwardEntriesSpec(actors: seq<Actor>, skip: seq<string>, site: Site)
    ensures forall e :: e in AwardEntries(actors, skip, site).0 ==>
      exists x :: (x in actors && x.fields.name !in skip && ActorAwards(site, x.fields.link).Ok? &&
        exists w :: (w in ActorAwards(site, x.fields.link).value && w.tag == WinnerTag &&
          e == AwardInfo(x.id, w.name, w.category, w.year)))
    ensures AwardEntries(actors, skip, site).1.Completed? ==>
      forall x :: x in actors && x.fields.name !in skip ==>
        (ActorAwards(site, x.fields.link).Ok? &&
         forall w :: w in ActorAwards(site, x.fields.link).value && w.tag == WinnerTag ==>
           AwardInfo(x.id, w.name, w.category, w.year) in AwardEntries(actors, skip, site).0)
    ensures AwardEntries(actors, skip, site).1.Aborted? ==>
      && AwardEntries(actors, skip, site).1.failure.ScrapeFailed?
      && exists x :: (x in actors && x.fields.name !in skip &&
           ActorAwards(site, x.fields.link) == Err(AwardEntries(actors, skip, site).1.failure.error))
    ensures (forall x :: x in actors ==>
               (x.fields.name in skip ||
                (ActorAwards(site, x.fields.link).Ok? && Winners(ActorAwards(site, x.fields.link).value) == []))) ==>
      AwardEntries(actors, skip, site) == ([], Completed)
    decreases |actors|
  {
    if actors != [] {
      var x := actors[0];
      var tail := actors[1..];
      AwardEntriesSpec(tail, skip, site);
      assert forall y :: y in actors <==> y == x || y in tail;
      if x.fields.name !in skip && ActorAwards(site, x.fields.link).Ok? {
        var rows := AwardRows(x.id, Winners(ActorAwards(site, x.fields.link).value));
        var rest := AwardEntries(tail, skip, site);
        assert AwardEntries(actors, skip, site) == (rows + rest.0, rest.1);
      }
    }
  }

  /** The Winner filter keeps page order: filtering a concatenation filters each part. */
  lemma {:induction false} WinnersConcat(a: seq<ScrapedAward>, b: seq<ScrapedAward>)
    ensures Winners(a + b) == Winners(a) + Winners(b)
    decreases |a|
  {
    if a == [] {
      assert a + b == b;
    } else {
      WinnersConcat(a[1..], b);
      var head := if a[0].tag == WinnerTag then [a[0]] else [];
      assert (a + b)[0] == a[0] && (a + b)[1..] == a[1..] + b;
      assert Winners(a + b) == head + Winners(a[1..] + b);
      assert Winners(a) == head + Winners(a[1..]);
      assert head + (Winners(a[1..]) + Winners(b)) == (head + Winners(a[1..])) + Winners(b);
    }
  }

  /** Each Winner award gives its actor as many award rows as the page lists it. */
  lemma {:induction false} AwardRowsCount(actorId: Id, ws: seq<ScrapedAward>, w: ScrapedAward)
    requires forall a :: a in ws ==> a.tag == WinnerTag
    requires w.tag == WinnerTag
    ensures multiset(AwardRows(actorId, ws))[AwardInfo(actorId, w.name, w.category, w.year)] == multiset(ws)[w]
    decreases |ws|
  {
    if ws != [] {
      assert ws[0] in ws;
      AwardRowsCount(actorId, ws[1..], w);
      assert ws == [ws[0]] + ws[1..];
    }
  }

  /**
   * On an actor table with increasing ids (every stored one), a completed
   * pass 2 inserts each Winner award of each unskipped actor exactly as
   * many times as that actor's page lists it.
   */
  lemma {:induction false} AwardEntriesCount(actors: seq<Actor>, skip: seq<string>, site: Site)
    requires IdsIncreasing(actors)
    ensures AwardEntries(actors, skip, site).1.Completed? ==>
      forall x: Actor, w: ScrapedAward :: (x in actors && x.fields.name !in skip && ActorAwards(site, x.fields.link).Ok? && w.tag == WinnerTag ==>
        multiset(AwardEntries(actors, skip, site).0)[AwardInfo(x.id, w.name, w.category, w.year)] ==
        multiset(ActorAwards(site, x.fields.link).value)[w])
    decreases |actors|
  {
    if actors != [] {
      var x0 := actors[0];
      var tail := actors[1..];
      IdsIncreasingTail(actors);
      AwardEntriesCount(tail, skip, site);
      assert actors == [x0] + tail;
      if x0.fields.name !in skip && ActorAwards(site, x0.fields.link).Ok? {
        var scraped := ActorAwards(site, x0.fields.link).value;
        var rows := AwardRows(x0.id, Winners(scraped));
        var rest := AwardEntries(tail, skip, site);
        assert AwardEntries(actors, skip, site) == (rows + rest.0, rest.1);
        AwardEntriesSpec(tail, skip, site);
        forall x: Actor, w: ScrapedAward | (rest.1.Completed? && x in actors && x.fields.name !in skip &&
            ActorAwards(site, x.fields.link).Ok? && w.tag == WinnerTag)
          ensures multiset(rows + rest.0)[AwardInfo(x.id, w.name, w.category, w.year)] ==
            multiset(ActorAwards(site, x.fields.link).value)[w]
        {
          var e := AwardInfo(x.id, w.name, w.category, w.year);
          if x == x0 {
            AwardRowsCount(x0.id, Winners(scraped), w);
            assert e !in rest.0;
          } else {
            assert x in tail;
            assert e !in rows;
          }
        }
      }
    }
  }

  /**
   * Staging-style resumption barrier for awards: the pages of skipped actors
   * are never consulted, so two sites that agree on the others give the
   * same entries.
   */
  lemma {:induction false} AwardEntriesIgnoreSkipped(actors: seq<Actor>, skip: seq<string>, site: Site, site': Site)
    requires forall x :: x in actors && x.fields.name !in skip ==>
      ActorAwards(site, x.fields.link) == ActorAwards(site', x.fields.link)
    ensures AwardEntries(actors, skip, site) == AwardEntries(actors, skip, site')
    decreases |actors|
  {
    if actors != [] {
      assert actors[0] in actors;
      assert forall y :: y in actors[1..] ==> y in actors;
      AwardEntriesIgnoreSkipped(actors[1..], skip, site, site');
    }
  }

  /** After a completed pass 2, running it again inserts nothing and completes. */
  lemma AwardPassRerun(t: Tables, site: Site)
    requires AwardPass(t, site).1 == Completed
    ensures AwardPass(AwardPass(t, site).0, site) == (AwardPass(t, site).0, Completed)
  {
    var actors := t.actors;
    var skip0 := AwardOwnerNames(actors, t.awards);
    var es := AwardEntries(actors, skip0, site).0;
    var awards1 := AppendRows(t.awards, es);
    var skip1 := AwardOwnerNames(actors, awards1);
    AwardEntriesSpec(actors, skip0, site);
    AppendRowsMembers(t.awards, es);
    forall x | x in actors
      ensures x.fields.name in skip1 ||
        (ActorAwards(site, x.fields.link).Ok? && Winners(ActorAwards(site, x.fields.link).value) == [])
    {
      if x.fields.name in skip0 {
        var y, a :| y in actors && a in t.awards && a.fields.actorId == y.id && y.fields.name == x.fields.name;
        assert a in awards1;
      } else {
        var ws := Winners(ActorAwards(site, x.fields.link).value);
        if ws != [] {
          var w := ws[0];
          assert w in ws;
          assert AwardInfo(x.id, w.name, w.category, w.year) in es;
          var a :| a in awards1 && a.fields == AwardInfo(x.id, w.name, w.category, w.year);
        }
      }
    }
    AwardEntriesSpec(actors, skip1, site);
  }

  // ---------------------------------------------------------------------
  // Pass 3
  // ---------------------------------------------------------------------

  /**
   * Pass 3 tries to stage exactly one row per credit of each actor not
   * named in `skip`, under that actor's id; with every actor skipped or
   * without credits there is nothing to stage.
   */
  lemma {:induction false} StagingEntriesSpec(actors: seq<Actor>, skip: seq<string>, site: Site)
    ensures forall r :: r in StagingEntries(actors, skip, site) <==>
      exists x :: x in actors && x.fields.name !in skip && r in StagingRows(x.id, site.credits(x.fields.link))
    ensures (forall x :: x in actors ==> x.fields.name in skip || site.credits(x.fields.link) == []) ==>
      StagingEntries(actors, skip, site) == []
    decreases |actors|
  {
    if actors != [] {
      StagingEntriesSpec(actors[1..], skip, site);
      assert forall y :: y in actors <==> y == actors[0] || y in actors[1..];
    }
  }

  /** Each credit gives its actor as many staging rows as the filmography lists it. */
  lemma {:induction false} StagingRowsCount(actorId: Id, credits: seq<Credit>, c: Credit)
    ensures multiset(StagingRows(actorId, credits))[StagingRow(actorId, c.title, AbsoluteUrl(c.href))] == multiset(credits)[c]
    decreases |credits|
  {
    if credits != [] {
      StagingRowsCount(actorId, credits[1..], c);
      assert credits == [credits[0]] + credits[1..];
      var u0 := AbsoluteUrl(credits[0].href);
      var u := AbsoluteUrl(c.href);
      assert u0[|SiteRoot|..] == credits[0].href && u[|SiteRoot|..] == c.href;
    }
  }

  /**
   * On an actor table with increasing ids (every stored one), pass 3 tries
   * each credit of each unskipped actor exactly as many times as that
   * actor's filmography lists it.
   */
  lemma {:induction false} StagingEntriesCount(actors: seq<Actor>, skip: seq<string>, site: Site)
    requires IdsIncreasing(actors)
    ensures forall x: Actor, c: Credit :: (x in actors && x.fields.name !in skip ==>
      multiset(StagingEntries(actors, skip, site))[StagingRow(x.id, c.title, AbsoluteUrl(c.href))] ==
      multiset(site.credits(x.fields.link))[c])
    decreases |actors|
  {
    if actors != [] {
      var x0 := actors[0];
      var tail := actors[1..];
      IdsIncreasingTail(actors);
      StagingEntriesCount(tail, skip, site);
      StagingEntriesSpec(tail, skip, site);
      assert actors == [x0] + tail;
      var head := ActorStagingRows(x0, skip, site);
      var rest := StagingEntries(tail, skip, site);
      assert StagingEntries(actors, skip, site) == head + rest;
      forall x: Actor, c: Credit | x in actors && x.fields.name !in skip
        ensures multiset(head + rest)[StagingRow(x.id, c.title, AbsoluteUrl(c.href))] == multiset(site.credits(x.fields.link))[c]
      {
        var e := StagingRow(x.id, c.title, AbsoluteUrl(c.href));
        if x == x0 {
          StagingRowsCount(x0.id, site.credits(x0.fields.link), c);
          assert e !in rest;
        } else {
          assert x in tail;
          assert e !in head;
        }
      }
    }
  }

  /** A filmography that lists one credit twice makes pass 3 raise on a repeated staging key. */
  lemma RepeatedCreditAborts(t: Tables, site: Site, x: Actor, c: Credit)
    requires IdsIncreasing(t.actors)
    requires x in t.actors && x.fields.name !in StagingOwnerNames(t.actors, t.staging)
    requires multiset(site.credits(x.fields.link))[c] >= 2
    ensures StagingPass(t, site).1.Aborted?
  {
    var skip := StagingOwnerNames(t.actors, t.staging);
    var entries := StagingEntries(t.actors, skip, site);
    StagingEntriesCount(t.actors, skip, site);
    NoDuplicatesCount(entries, StagingRow(x.id, c.title, AbsoluteUrl(c.href)));
    StagingPassSpec(t, site);
  }

  /**
   * The staging table is the resumption barrier: the filmography of an
   * actor already named in staging is never consulted, so two sites that
   * agree on the other actors stage the same rows.
   */
  lemma {:induction false} StagingEntriesIgnoreSkipped(actors: seq<Actor>, skip: seq<string>, site: Site, site': Site)
    requires forall x :: x in actors && x.fields.name !in skip ==> site.credits(x.fields.link) == site'.credits(x.fields.link)
    ensures StagingEntries(actors, skip, site) == StagingEntries(actors, skip, site')
    decreases |actors|
  {
    if actors != [] {
      assert actors[0] in actors;
      assert forall y :: y in actors[1..] ==> y in actors;
      StagingEntriesIgnoreSkipped(actors[1..], skip, site, site');
    }
  }

  /**
   * Pass 3 completes exactly when the rows it tries are pairwise distinct
   * and none is staged already, and then appends them all.
   */
  lemma StagingPassSpec(t: Tables, site: Site)
    ensures var entries := StagingEntries(t.actors, StagingOwnerNames(t.actors, t.staging), site);
      && (StagingPass(t, site).1 == Completed <==> NoDuplicates(entries) && forall r :: r in entries ==> r !in t.staging)
      && (StagingPass(t, site).1 == Completed ==> StagingPass(t, site).0 == t.(staging := t.staging + entries))
      && (StagingPass(t, site).1.Aborted? ==>
            StagingPass(t, site).1.failure.StagingKeyExists? &&
            StagingPass(t, site).1.failure.stagingRow in entries)
    ensures var entries := StagingEntries(t.actors, StagingOwnerNames(t.actors, t.staging), site);
      StagingPass(t, site).1.Aborted? ==>
        exists k :: (0 <= k < |entries| && entries[k] == StagingPass(t, site).1.failure.stagingRow &&
          StagingPass(t, site).0.staging == t.staging + entries[..k] && entries[k] in t.staging + entries[..k])
  {
    var entries := StagingEntries(t.actors, StagingOwnerNames(t.actors, t.staging), site);
    InsertAllSucceedsIff(t.staging, entries);
    InsertAllStopsAtFirstPresent(t.staging, entries);
  }

  /** After a completed pass 3 every actor is named in staging or has no credits. */
  lemma StagedActorsNamed(t: Tables, site: Site)
    requires StagingPass(t, site).1 == Completed
    ensures forall x :: x in t.actors ==>
      x.fields.name in StagingOwnerNames(t.actors, StagingPass(t, site).0.staging) || site.credits(x.fields.link) == []
  {
    var actors := t.actors;
    var skip0 := StagingOwnerNames(actors, t.staging);
    var es := StagingEntries(actors, skip0, site);
    StagingPassSpec(t, site);
    var staging1 := t.staging + es;
    assert StagingPass(t, site).0.staging == staging1;
    var skip1 := StagingOwnerNames(actors, staging1);
    StagingEntriesSpec(actors, skip0, site);
    forall x | x in actors
      ensures x.fields.name in skip1 || site.credits(x.fields.link) == []
    {
      if x.fields.name in skip0 {
        var y, r :| y in actors && r in t.staging && r.actorId == y.id && y.fields.name == x.fields.name;
        assert r in staging1;
      } else if site.credits(x.fields.link) != [] {
        var c := site.credits(x.fields.link)[0];
        var r := StagingRow(x.id, c.title, AbsoluteUrl(c.href));
        assert r in StagingRows(x.id, site.credits(x.fields.link));
        assert r in es;
        assert r in staging1;
      }
    }
  }

  /** After a completed pass 3, running it again stages nothing and completes. */
  lemma StagingPassRerun(t: Tables, site: Site)
    requires StagingPass(t, site).1 == Completed
    ensures StagingPass(StagingPass(t, site).0, site) == (StagingPass(t, site).0, Completed)
  {
    var t1 := StagingPass(t, site).0;
    assert t1 == t.(staging := t1.staging);
    StagedActorsNamed(t, site);
    StagingEntriesSpec(t1.actors, StagingOwnerNames(t1.actors, t1.staging), site);
    assert InsertAll(t1.staging, []) == (t1.staging, None);
  }

  // ---------------------------------------------------------------------
  // Pass 4a
  // ---------------------------------------------------------------------

  /** Line 224 on one staging row: its (name, url) exactly when the url is unknown. */
  lemma MoviesToScrapeOne(s: StagingRow, known: seq<string>)
    ensures MoviesToScrape([s], known) == if s.movieUrl in known then [] else [(s.movieName, s.movieUrl)]
  {
    assert [s][1..] == [];
  }

  /**
   * Line 224 goes row by row: the list for concatenated staging rows is the
   * lists of each part, so repeated urls stay repeated and staging order is
   * kept.
   */
  lemma {:induction false} MoviesToScrapeConcat(a: seq<StagingRow>, b: seq<StagingRow>, known: seq<string>)
    ensures MoviesToScrape(a + b, known) == MoviesToScrape(a, known) + MoviesToScrape(b, known)
    decreases |a|
  {
    if a == [] {
      assert a + b == b;
    } else {
      MoviesToScrapeConcat(a[1..], b, known);
      assert (a + b)[0] == a[0] && (a + b)[1..] == a[1..] + b;
    }
  }

  /** With every staged url known, line 224 has nothing to scrape. */
  lemma {:induction false} MoviesToScrapeAllKnown(staging: seq<StagingRow>, known: seq<string>)
    requires forall s :: s in staging ==> s.movieUrl in known
    ensures MoviesToScrape(staging, known) == []
    decreases |staging|
  {
    if staging != [] {
      assert staging[0] in staging;
      assert forall s :: s in staging[1..] ==> s in staging;
      MoviesToScrapeAllKnown(staging[1..], known);
    }
  }

  /**
   * With no staged url known, line 224 lists every staging row's (name, url)
   * in staging order, one per row, repeated urls included.
   */
  lemma {:induction false} MoviesToScrapeAllUnknown(staging: seq<StagingRow>, known: seq<string>)
    requires forall s :: s in staging ==> s.movieUrl !in known
    ensures |MoviesToScrape(staging, known)| == |staging|
    ensures forall i :: 0 <= i < |staging| ==>
      MoviesToScrape(staging, known)[i] == (staging[i].movieName, staging[i].movieUrl)
    decreases |staging|
  {
    if staging != [] {
      var tail := staging[1..];
      assert staging[0] in staging;
      assert forall s :: s in tail ==> s in staging;
      MoviesToScrapeAllUnknown(tail, known);
      var r := MoviesToScrape(staging, known);
      assert r == [(staging[0].movieName, staging[0].movieUrl)] + MoviesToScrape(tail, known);
      forall i | 1 <= i < |staging|
        ensures r[i] == (staging[i].movieName, staging[i].movieUrl)
      {
        assert r[i] == MoviesToScrape(tail, known)[i - 1] && staging[i] == tail[i - 1];
      }
    }
  }

  /** Pass 4a adds exactly one movie row per work item of line 224. */
  lemma MoviePassCount(t: Tables, site: Site)
    ensures |MoviePass(t, site).movies| == |t.movies| + |MoviesToScrape(t.staging, MovieUrls(t.movies))|
  {
    AppendRowsShape(t.movies, MovieEntries(MoviesToScrape(t.staging, MovieUrls(t.movies)), site));
  }

  /** Pass 4a keeps the old movies, and afterwards every staged url has a movie. */
  lemma MoviePassCovers(t: Tables, site: Site)
    ensures |t.movies| <= |MoviePass(t, site).movies|
    ensures MoviePass(t, site).movies[..|t.movies|] == t.movies
    ensures forall s :: s in t.staging ==> MovieIdByUrl(MoviePass(t, site).movies, s.movieUrl).Some?
  {
    var known := MovieUrls(t.movies);
    var toScrape := MoviesToScrape(t.staging, known);
    var es := MovieEntries(toScrape, site);
    var after := MoviePass(t, site).movies;
    AppendRowsShape(t.movies, es);
    forall s | s in t.staging ensures MovieIdByUrl(after, s.movieUrl).Some? {
      if s.movieUrl !in known {
        assert (s.movieName, s.movieUrl) in toScrape;
      }
      EntriesFindUrl(t.movies, toScrape, site, s.movieUrl);
    }
  }

  /**
   * The movies pass 4a adds are staged (name, url) pairs whose url had no
   * movie at its start, with the scraped metadata and the genres joined by
   * ", ".
   */
  lemma MoviePassNewRows(t: Tables, site: Site)
    ensures forall m :: m in MoviePass(t, site).movies && m !in t.movies ==>
      && MovieIdByUrl(t.movies, m.fields.url).None?
      && (exists s :: s in t.staging && s.movieName == m.fields.name && s.movieUrl == m.fields.url)
      && m.fields == MovieRow(m.fields.name, m.fields.url, site)
  {
    var known := MovieUrls(t.movies);
    var toScrape := MoviesToScrape(t.staging, known);
    var es := MovieEntries(toScrape, site);
    var after := MoviePass(t, site).movies;
    AppendRowsMembers(t.movies, es);
    forall m | m in after && m !in t.movies
      ensures MovieIdByUrl(t.movies, m.fields.url).None?
      ensures exists s :: s in t.staging && s.movieName == m.fields.name && s.movieUrl == m.fields.url
      ensures m.fields == MovieRow(m.fields.name, m.fields.url, site)
    {
      var k :| 0 <= k < |es| && es[k] == m.fields;
      assert toScrape[k] in toScrape;
    }
  }

  /** Running pass 4a again right after it adds no movie. */
  lemma MoviePassIdempotent(t: Tables, site: Site)
    ensures MoviePass(MoviePass(t, site), site) == MoviePass(t, site)
  {
    var t1 := MoviePass(t, site);
    MoviePassCovers(t, site);
    assert forall s :: s in t1.staging ==> s.movieUrl in MovieUrls(t1.movies);
    MoviesToScrapeAllKnown(t1.staging, MovieUrls(t1.movies));
  }

  /**
   * As written, two staging rows for the same movie (two actors in it) make
   * pass 4a store that movie twice, under two ids with one url.
   */
  lemma MoviePassRepeatsUrl(site: Site)
    ensures var heat := AbsoluteUrl("/title/tt0113277/");
      var t := EmptyTables.(staging := [StagingRow(0, "Heat", heat), StagingRow(1, "Heat", heat)]);
      var movies := MoviePass(t, site).movies;
      && |movies| == 2
      && movies[0].fields.url == heat && movies[1].fields.url == heat
      && movies[0].id != movies[1].id
  {
    var heat := AbsoluteUrl("/title/tt0113277/");
    var t := EmptyTables.(staging := [StagingRow(0, "Heat", heat), StagingRow(1, "Heat", heat)]);
    var st := t.staging;
    assert MovieUrls(t.movies) == [];
    assert st[1..] == [StagingRow(1, "Heat", heat)] && st[1..][1..] == [];
    assert MoviesToScrape(st[1..][1..], []) == [];
    assert MoviesToScrape(st[1..], []) == [("Heat", heat)];
    var toScrape := MoviesToScrape(st, []);
    assert toScrape == [("Heat", heat), ("Heat", heat)];
    var es := MovieEntries(toScrape, site);
    AppendRowsShape([], es);
    AppendRowsIds([], es);
  }

  /** Urls identify movies: no two rows share one. */
  predicate UrlsUnique(movies: seq<Movie>)
  {
    forall i, j :: 0 <= i < j < |movies| ==> movies[i].fields.url != movies[j].fields.url
  }

  /**
   * The evidently intended `movies_to_scrape`: each staged url not yet
   * known, once, at its first staging row.
   */
  function DistinctMoviesToScrape(staging: seq<StagingRow>, knownUrls: seq<string>): (r: seq<(string, string)>)
    ensures forall k :: 0 <= k < |r| ==> r[k].1 !in knownUrls
    ensures forall i, j :: 0 <= i < j < |r| ==> r[i].1 != r[j].1
    ensures forall p :: p in r ==> exists s :: s in staging && p == (s.movieName, s.movieUrl)
    decreases |staging|
  {
    if staging == [] then []
    else
      var s := staging[0];
      if s.movieUrl in knownUrls then DistinctMoviesToScrape(staging[1..], knownUrls)
      else [(s.movieName, s.movieUrl)] + DistinctMoviesToScrape(staging[1..], knownUrls + [s.movieUrl])
  }

  /** Pass 4a with the deduplicated work list. */
  function DistinctMoviePass(t: Tables, site: Site): Tables
  {
    t.(movies := AppendRows(t.movies, MovieEntries(DistinctMoviesToScrape(t.staging, MovieUrls(t.movies)), site)))
  }

  /** The deduplicated work list still names every staged url that is not yet known. */
  lemma {:induction false} DistinctMoviesToScrapeCovers(staging: seq<StagingRow>, knownUrls: seq<string>)
    ensures forall s :: s in staging ==>
      s.movieUrl in knownUrls || exists p :: p in DistinctMoviesToScrape(staging, knownUrls) && p.1 == s.movieUrl
    decreases |staging|
  {
    if staging != [] {
      var s0 := staging[0];
      assert forall s :: s in staging <==> s == s0 || s in staging[1..];
      if s0.movieUrl in knownUrls {
        DistinctMoviesToScrapeCovers(staging[1..], knownUrls);
      } else {
        DistinctMoviesToScrapeCovers(staging[1..], knownUrls + [s0.movieUrl]);
        var r := DistinctMoviesToScrape(staging, knownUrls);
        assert r[0] in r;
        assert forall p :: p in DistinctMoviesToScrape(staging[1..], knownUrls + [s0.movieUrl]) ==> p in r;
      }
    }
  }

  /** The url of row `k` after appending: an old row's url, or the url of a new entry. */
  lemma AppendRowsUrlAt(movies: seq<Movie>, es: seq<MovieInfo>, k: nat)
    requires k < |movies| + |es|
    ensures |AppendRows(movies, es)| == |movies| + |es|
    ensures AppendRows(movies, es)[k].fields.url == if k < |movies| then movies[k].fields.url else es[k - |movies|].url
  {
    AppendRowsShape(movies, es);
    if k < |movies| {
      assert AppendRows(movies, es)[k] == AppendRows(movies, es)[..|movies|][k];
    }
  }

  /** Appending movies with fresh, pairwise distinct urls keeps urls unique. */
  lemma AppendRowsKeepsUrlsUnique(movies: seq<Movie>, es: seq<MovieInfo>)
    requires UrlsUnique(movies)
    requires forall k :: 0 <= k < |es| ==> es[k].url !in MovieUrls(movies)
    requires forall i, j :: 0 <= i < j < |es| ==> es[i].url != es[j].url
    ensures UrlsUnique(AppendRows(movies, es))
  {
    var after := AppendRows(movies, es);
    AppendRowsShape(movies, es);
    forall i, j | 0 <= i < j < |after| ensures after[i].fields.url != after[j].fields.url {
      AppendRowsUrlAt(movies, es, i);
      AppendRowsUrlAt(movies, es, j);
      if i < |movies| <= j {
        assert movies[i] in movies;
      }
    }
  }

  /** After appending, a url that was known or is among the new rows has a movie. */
  lemma AppendRowsFindsUrl(movies: seq<Movie>, es: seq<MovieInfo>, url: string)
    requires url in MovieUrls(movies) || exists e :: e in es && e.url == url
    ensures MovieIdByUrl(AppendRows(movies, es), url).Some?
  {
    var after := AppendRows(movies, es);
    AppendRowsMembers(movies, es);
    if url in MovieUrls(movies) {
      var m :| m in movies && m.fields.url == url;
      assert m in after;
    } else {
      var e :| e in es && e.url == url;
      var m :| m in after && m.fields == e;
    }
  }

  /** A url that is known, or belongs to a work-list entry, has a movie once the entries are appended. */
  lemma EntriesFindUrl(movies: seq<Movie>, toScrape: seq<(string, string)>, site: Site, url: string)
    requires url in MovieUrls(movies) || exists p :: p in toScrape && p.1 == url
    ensures MovieIdByUrl(AppendRows(movies, MovieEntries(toScrape, site)), url).Some?
  {
    var es := MovieEntries(toScrape, site);
    if url !in MovieUrls(movies) {
      var p :| p in toScrape && p.1 == url;
      var k :| 0 <= k < |toScrape| && toScrape[k] == p;
      assert es[k] in es;
    }
    AppendRowsFindsUrl(movies, es, url);
  }

  /** With the deduplicated work list pass 4a keeps movie urls unique. */
  lemma DistinctMoviePassKeepsUrlsUnique(t: Tables, site: Site)
    requires UrlsUnique(t.movies)
    ensures UrlsUnique(DistinctMoviePass(t, site).movies)
  {
    var toScrape := DistinctMoviesToScrape(t.staging, MovieUrls(t.movies));
    AppendRowsKeepsUrlsUnique(t.movies, MovieEntries(toScrape, site));
  }

  /** With the deduplicated work list every staged url still gets a movie. */
  lemma DistinctMoviePassCovers(t: Tables, site: Site)
    ensures forall s :: s in t.staging ==> MovieIdByUrl(DistinctMoviePass(t, site).movies, s.movieUrl).Some?
  {
    var known := MovieUrls(t.movies);
    var toScrape := DistinctMoviesToScrape(t.staging, known);
    DistinctMoviesToScrapeCovers(t.staging, known);
    forall s | s in t.staging ensures MovieIdByUrl(DistinctMoviePass(t, site).movies, s.movieUrl).Some? {
      EntriesFindUrl(t.movies, toScrape, site, s.movieUrl);
    }
  }

  // ---------------------------------------------------------------------
  // Pass 4b
  // ---------------------------------------------------------------------

  /** The (actor, movie) pairs of the staging rows, when every url has a movie. */
  function Pairs(staging: seq<StagingRow>, movies: seq<Movie>): seq<PlayedIn>
    requires forall s :: s in staging ==> MovieIdByUrl(movies, s.movieUrl).Some?
    decreases |staging|
  {
    if staging == [] then []
    else [PlayedIn(staging[0].actorId, MovieIdByUrl(movies, staging[0].movieUrl).value)] + Pairs(staging[1..], movies)
  }

  /**
   * When every staged url has a movie, pass 4b inserts the staging rows'
   * pairs as one batch: it completes exactly when they are pairwise distinct
   * and none is in played_in yet, and then appends them all; otherwise it
   * stops at a pair that is already present.
   */
  lemma {:induction false} RelationPassSpec(p: seq<PlayedIn>, staging: seq<StagingRow>, movies: seq<Movie>)
    requires forall s :: s in staging ==> MovieIdByUrl(movies, s.movieUrl).Some?
    ensures RelationPass(p, staging, movies).0 == InsertAll(p, Pairs(staging, movies)).0
    ensures RelationPass(p, staging, movies).1 ==
      if InsertAll(p, Pairs(staging, movies)).1.None? then Completed
      else Aborted(PlayedInKeyExists(InsertAll(p, Pairs(staging, movies)).1.value))
    decreases |staging|
  {
    if staging != [] {
      assert forall s :: s in staging[1..] ==> s in staging;
      var row := PlayedIn(staging[0].actorId, MovieIdByUrl(movies, staging[0].movieUrl).value);
      if row !in p {
        RelationPassSpec(p + [row], staging[1..], movies);
      }
    }
  }

  /**
   * Pass 4b completes only when every staged url has a movie, and then every
   * staging row's pair is in played_in; a missing movie is reported with a
   * staged url that has none. Rows present before are kept in any case.
   */
  lemma {:induction false} RelationPassResult(p: seq<PlayedIn>, staging: seq<StagingRow>, movies: seq<Movie>)
    ensures forall r :: r in p ==> r in RelationPass(p, staging, movies).0
    ensures RelationPass(p, staging, movies).1 == Completed ==>
      forall s :: s in staging ==>
        MovieIdByUrl(movies, s.movieUrl).Some? &&
        PlayedIn(s.actorId, MovieIdByUrl(movies, s.movieUrl).value) in RelationPass(p, staging, movies).0
    ensures RelationPass(p, staging, movies).1.Aborted? && RelationPass(p, staging, movies).1.failure.MovieUrlUnknown? ==>
      exists s :: s in staging && s.movieUrl == RelationPass(p, staging, movies).1.failure.url &&
        MovieIdByUrl(movies, s.movieUrl).None?
    decreases |staging|
  {
    if staging != [] {
      assert forall s :: s in staging <==> s == staging[0] || s in staging[1..];
      match MovieIdByUrl(movies, staging[0].movieUrl)
      case None =>
      case Some(movieId) =>
        var row := PlayedIn(staging[0].actorId, movieId);
        if row !in p {
          RelationPassResult(p + [row], staging[1..], movies);
        }
    }
  }

  // ---------------------------------------------------------------------
  // The whole run
  // ---------------------------------------------------------------------

  /**
   * A run never stops on a staged url without a movie: pass 4a has given
   * every staged url one before pass 4b looks them up.
   */
  lemma RunNeverMissesMovie(t: Tables, site: Site)
    ensures Run(t, site).1.Aborted? ==> !Run(t, site).1.failure.MovieUrlUnknown?
  {
    var t1 := ActorPass(t, site);
    var a := AwardPass(t1, site);
    if a.1.Aborted? {
      AwardEntriesSpec(t1.actors, AwardOwnerNames(t1.actors, t1.awards), site);
      assert Run(t, site) == a;
    } else {
      var st := StagingPass(a.0, site);
      if st.1.Aborted? {
        assert Run(t, site) == st;
      } else {
        var t4 := MoviePass(st.0, site);
        assert Run(t, site) == RelationsPass(t4);
        MoviePassCovers(st.0, site);
        RelationPassSpec(t4.playedIn, t4.staging, t4.movies);
      }
    }
  }

  /** The tables a completed run leaves, pass by pass. */
  lemma CompletedRunShape(t: Tables, site: Site)
    requires Run(t, site).1 == Completed
    ensures var t1 := ActorPass(t, site);
      var t2 := AwardPass(t1, site).0;
      var t3 := StagingPass(t2, site).0;
      var t4 := MoviePass(t3, site);
      var r := RelationPass(t4.playedIn, t4.staging, t4.movies);
      && AwardPass(t1, site).1 == Completed
      && StagingPass(t2, site).1 == Completed
      && r.1 == Completed
      && Run(t, site).0 == t4.(playedIn := r.0)
  {
  }

  /** Pass 2 reads and writes only the actors and awards. */
  lemma AwardPassFrame(t: Tables, u: Tables, site: Site)
    requires t.actors == u.actors && t.awards == u.awards
    ensures AwardPass(u, site) == (u.(awards := AwardPass(t, site).0.awards), AwardPass(t, site).1)
  {
  }

  /** Pass 3 reads and writes only the actors and staging. */
  lemma StagingPassFrame(t: Tables, u: Tables, site: Site)
    requires t.actors == u.actors && t.staging == u.staging
    ensures StagingPass(u, site) == (u.(staging := StagingPass(t, site).0.staging), StagingPass(t, site).1)
  {
  }

  /**
   * Running the script a second time after a completed run changes nothing,
   * but it completes only when staging is empty: otherwise pass 4b tries the
   * first staging row's pair again and stops on the played_in key.
   */
  lemma RerunAfterCompletedRun(t: Tables, site: Site)
    requires Run(t, site).1 == Completed
    ensures Run(Run(t, site).0, site).0 == Run(t, site).0
    ensures Run(t, site).0.staging == [] ==> Run(Run(t, site).0, site).1 == Completed
    ensures Run(t, site).0.staging != [] ==>
      var t' := Run(t, site).0;
      var first := t'.staging[0];
      && MovieIdByUrl(t'.movies, first.movieUrl).Some?
      && Run(t', site).1 == Aborted(PlayedInKeyExists(PlayedIn(first.actorId, MovieIdByUrl(t'.movies, first.movieUrl).value)))
  {
    CompletedRunShape(t, site);
    var t1 := ActorPass(t, site);
    var t2 := AwardPass(t1, site).0;
    var t3 := StagingPass(t2, site).0;
    var t4 := MoviePass(t3, site);
    var r := RelationPass(t4.playedIn, t4.staging, t4.movies);
    var t' := Run(t, site).0;
    assert t' == t4.(playedIn := r.0);

    // Passes 1 to 4a find nothing left to do.
    ActorPassIdempotent(t, site);
    assert ActorPass(t', site) == t';
    AwardPassRerun(t1, site);
    AwardPassFrame(t2, t', site);
    assert AwardPass(t', site) == (t', Completed);
    StagingPassRerun(t2, site);
    StagingPassFrame(t3, t', site);
    assert StagingPass(t', site) == (t', Completed);
    MoviePassIdempotent(t3, site);
    assert MoviePass(t', site) == t';
    assert Run(t', site) == RelationsPass(t');

    // Pass 4b meets the pairs the first run inserted.
    var staging := t'.staging;
    if staging != [] {
      RelationPassResult(t4.playedIn, staging, t4.movies);
      var first := staging[0];
      assert first in staging;
      var row := PlayedIn(first.actorId, MovieIdByUrl(t'.movies, first.movieUrl).value);
      assert row in t'.playedIn;
    }
  }
}
