# IMDb actor scraper: ingest bookkeeping and report selection

This project models the deterministic core of a small IMDb scraper.

- **The store** (`database_module.py`): five SQLite tables and the queries over them.
  - `actors`, `awards` and `movies` get ids as "current maximum + 1, or 0 when empty".
  - `played_in` and `actor_movie_staging` have composite primary keys, so repeating a key raises.
- **The ingest script** (`web_scraping_module.py`, `__main__`): four passes over the store.
  1. Insert the listed actors not yet stored, each with its bio.
  2. Insert the awards tagged 'Winner' of every actor not yet named among award owners.
  3. Stage one (actor, title, url) row per credit of every actor not yet named in staging.
  4. Scrape and insert the movies whose url was unknown, then insert one `played_in` pair per staging row.
- **The extractors' post-processing** (same file): ordinal stripping, url prefixing, the year prefix, award-heading splitting and the sentinel defaults.
- **The report selection of the CLI** (`user_interface_module.py`): actor lookup by full name, the `--limit` cut-off, genre splitting and deduplication, and grouping ratings by year.

The browser and the HTML parser are replaced by a `Site` value. It gives, for each link, what the parser would have found on that page: listing anchors, bio container, awards link and items, credits, and movie page.

Each pass is a method of module `Ingest` that takes a `Store.Database` and updates it in place. Each is proved equal to a pure function of the tables. For example, `Ingest.ScrapeActorData` is proved equal to `Ingest.ActorPass`, and the whole script `Ingest.Ingest` to `Ingest.Run`. Module `IngestProperties` proves what the passes promise:

- the skip sets;
- the Winner filter;
- coverage of every staged url;
- behaviour on a second run.

The model follows the code, not an idealised pipeline:

- A re-run after a completed run does not complete when staging is non-empty. Pass 4b re-inserts the `played_in` pair of every staging row, and the primary key rejects the first one (`IngestProperties.RerunAfterCompletedRun`).
- An exception ends the run. Rows inserted before it stay, because every insert commits. The exceptions modelled are:
  - a malformed award heading;
  - a missing awards link;
  - a repeated key;
  - a url without a movie.

  Each becomes `Ingest.Outcome.Aborted`.

## Model

| member | source | states |
|---|---|---|
| Store.MaxId | database_module.py:8-14 | `SELECT MAX(id)` is the id of some row and no row's id exceeds it |
| Store.NextId | database_module.py:8-14 | the new id is 0 for an empty table, otherwise some row's id + 1, and it is above every existing id |
| Store.AppendRowsShape | database_module.py:32-43 | inserting a batch appends one row per value, in order, and keeps the old rows |
| Store.AppendRowsIds | database_module.py:20-30 | ids assigned by max+1 keep growing along the table, so no id repeats |
| Store.InsertAllKeepsKey | database_module.py:185-199 | a batch of inserts into a whole-row-keyed table keeps the old rows and keeps the key unique |
| Store.InsertAllStopsAtFirstPresent | database_module.py:45-53 | a failed batch stops at its first row already present: each earlier row was absent when inserted and stays; nothing after it is inserted |
| Store.InsertAllSucceedsIff | database_module.py:194-199 | a batch completes iff its rows are pairwise distinct and none is present already, and then appends them all; a reported violation is a batch row that is present |
| Store.Database.constructor | database_module.py:146-202 | a fresh store has all five tables empty and its keys valid |
| Store.Database.Reset | database_module.py:146-202 | after `reset_database` all five tables exist and are empty |
| Store.Database.InsertActor | database_module.py:7-18 | returns the id it stores (max+1 or 0), above every old id; appends exactly that row; other tables unchanged |
| Store.Database.InsertAward | database_module.py:20-30 | appends one award row with the next id; returns nothing; other tables unchanged |
| Store.Database.InsertMovie | database_module.py:32-43 | returns the id it stores, above every old id; appends exactly that row; other tables unchanged |
| Store.Database.InsertPlayedIn | database_module.py:45-48 | the insert succeeds iff the (actor, movie) pair is absent, and then appends it; otherwise nothing changes |
| Store.Database.InsertStaging | database_module.py:50-53 | the insert succeeds iff the (actor, title, url) triple is absent, and then appends it; otherwise nothing changes |
| Queries.MovieIdByUrl | database_module.py:69-74 | None iff no movie has that url; otherwise the id of the first movie row with it |
| Queries.Distinct | database_module.py:104-116 | `SELECT DISTINCT`: no duplicates, and the same members as the input |
| Queries.JoinedNames | database_module.py:105 | a name occurs iff a referencing row's actor id belongs to an actor with that name |
| Queries.AwardOwnerNames | database_module.py:104-109 | each name at most once; a name is listed iff some award row references an actor with that name |
| Queries.StagingOwnerNames | database_module.py:111-116 | each name at most once; a name is listed iff some staging row references an actor with that name |
| Queries.ActorMovies | database_module.py:90-95 | a movie is listed iff it is a movie row linked to the actor by a `played_in` row; with `played_in` duplicate-free and movie ids increasing (both kept by `Store.Database.Valid`) none is listed twice, so each linked movie appears exactly once |
| Queries.AwardsOfActor | database_module.py:97-102 | an award row is listed iff it has that actor id; with award ids increasing (kept by `Store.Database.Valid`) none is listed twice, so each appears exactly once |
| Queries.BioOf | database_module.py:76-81 | None iff no actor has the id; otherwise the bio of an actor with that id |
| Queries.InsertByRatingPermutes | database_module.py:133 | inserting into the rating order keeps the multiset of rows |
| Queries.InsertByRatingSorted | database_module.py:133 | inserting into a list in non-increasing rating order keeps that order |
| Queries.SortByRatingSpec | database_module.py:133 | `ORDER BY movie_rating DESC` is a permutation in non-increasing text order |
| Queries.SortedSplit | database_module.py:133 | in a sorted list every row after a cut rates no higher than every row before it |
| Queries.SortedSplitLeftOver | database_module.py:133 | counted with multiplicity, every row a cut leaves out of a sorted list rates no higher than every row it keeps, and the kept rows are a sub-multiset |
| Queries.TopFive | database_module.py:133 | `LIMIT 5` of the ordering: min(5, n) of the rows, best first, none left out rated above one kept |
| Queries.ActorTopFive | database_module.py:132-137 | exactly min(5, number of the actor's movies) rows, drawn from the actor's movies through `played_in`, in non-increasing rating order; no movie left out rates above one kept |
| Text.FindFirst | web_scraping_module.py:57 | the first occurrence of the separator, or None when there is none |
| Text.JoinSplit | web_scraping_module.py:57 | joining the pieces of `s.split(sep)` with `sep` gives back `s` |
| Text.SplitPiecesAvoidSeparator | web_scraping_module.py:168 | no piece of a split contains the separator |
| Text.SplitJoinCommaSpace | user_interface_module.py:82 | splitting `", ".join(gs)` on ", " gives `gs` when it is non-empty and no genre contains ", ", and `[""]` for `[]` |
| Text.TextLeqTotal | database_module.py:175 | the TEXT order of `movie_rating` is total |
| Text.TextLeqTransitive | database_module.py:175 | the TEXT order of `movie_rating` is transitive |
| Scraping.AbsoluteUrl | web_scraping_module.py:59 | the url is "https://www.imdb.com" followed by the href, which can be read back |
| Scraping.StripOrdinalSpec | web_scraping_module.py:56-57 | the cleaned name drops everything up to and including the first space; a name without a space becomes "" |
| Scraping.ListingConcat | web_scraping_module.py:52-65 | the listing of two runs of anchors is the concatenation of their listings |
| Scraping.ListingSpec | web_scraping_module.py:52-65 | every anchor with an href gives its (name, absolute link) pair, every pair comes from such an anchor, and anchors without an href give nothing |
| Scraping.ScrapeActors | web_scraping_module.py:52-65 | the two append loops plus `zip` produce exactly the listing, in anchor order |
| Scraping.MovieYear | web_scraping_module.py:133-137 | no year iff no release anchor; otherwise the first min(4, length) characters of the anchor text |
| Scraping.SentinelDefaults | web_scraping_module.py:79-171 | a missing bio, rating or category becomes "Biography not available.", "0" or "No Category", and a missing year anchor gives no year; present values are kept |
| Scraping.AwardHeadingSpec | web_scraping_module.py:168 | a heading that parses yields the text before "<span" split into exactly (year, tag) on one space; both are then space-free and rebuild that text |
| Scraping.AwardHeadingAccepts | web_scraping_module.py:168 | converse of the above: any space-free year and tag joined by one space, with no "<span", parse back to exactly (year, tag) |
| Scraping.PrefixedTwice | web_scraping_module.py:164-171 | prefixing results accumulated in two steps is prefixing their concatenation |
| Scraping.AwardsFromItemsSpec | web_scraping_module.py:163-173 | a page yields its awards iff every heading parses: one (name, tag, category, year) per item, in order; otherwise the error is a malformed heading |
| Scraping.AwardsFromItemsFirstError | web_scraping_module.py:163-173 | when a page fails, the error is that of the first malformed heading: every heading before it parses |
| Scraping.ScrapeActorAwards | web_scraping_module.py:144-173 | the loop returns exactly what the page determines, including the missing-awards-link failure |
| Scraping.ScrapeActorMovies | web_scraping_module.py:105-114 | one (title, absolute url) per credit, in page order |
| Ingest.NameLinks | web_scraping_module.py:179 | `actors_in_database` holds exactly the (name, link) pairs of the stored actors |
| Ingest.ScrapeActorData | web_scraping_module.py:178-186 | pass 1 leaves exactly the tables `ActorPass` computes |
| Ingest.Winners | web_scraping_module.py:197 | exactly the awards whose tag is 'Winner', each as many times as the page lists it, others never |
| IngestProperties.WinnersConcat | web_scraping_module.py:197 | the filter keeps page order: filtering a concatenation is filtering each part |
| Ingest.AwardRows | web_scraping_module.py:198-199 | one award row per award, under the actor's id, with its name, category and year |
| Ingest.InsertAwards | web_scraping_module.py:198-199 | the awards table grows by exactly those rows; nothing else changes |
| Ingest.ScrapeAwardData | web_scraping_module.py:188-199 | pass 2 leaves the tables and the outcome that `AwardPass` computes |
| Ingest.StagingRows | web_scraping_module.py:215-216 | row k is credit k's (actor id, title, absolute url), one per credit, in page order |
| Ingest.StageActorMovies | web_scraping_module.py:207-216 | staging the credits one by one is the batch insert, including the row that raises |
| Ingest.ScrapeMovieData | web_scraping_module.py:201-217 | pass 3 leaves the tables and the outcome that `StagingPass` computes |
| Ingest.StagingEntriesStep | web_scraping_module.py:203-216 | pass 3 is one actor's batch followed, unless it raised, by the other actors' |
| Ingest.StageUnlessNamed | web_scraping_module.py:204-216 | an actor already named in staging adds nothing; otherwise its credit rows are inserted in order, stopping at the first repeated key; no other table changes |
| Ingest.MovieUrls | web_scraping_module.py:221 | a url is listed iff some movie has it |
| Ingest.MoviesToScrape | web_scraping_module.py:224 | a (name, url) is listed iff a staging row has it and its url is unknown |
| Ingest.MovieEntries | web_scraping_module.py:225-234 | one movie row per work item, with its name, url, metadata and genres joined by ", " |
| Ingest.ScrapeMovies | web_scraping_module.py:219-234 | pass 4a leaves exactly the tables `MoviePass` computes |
| Ingest.InsertRelations | web_scraping_module.py:236-241 | pass 4b leaves the tables and the outcome that `RelationsPass` computes |
| Ingest.Ingest | web_scraping_module.py:175-243 | one run of the script leaves exactly the tables and outcome that `Run` computes |
| IngestProperties.AppendRowsMembers | database_module.py:7-43 | old rows survive an insert batch, every inserted value appears as a row, and every new row holds an inserted value |
| IngestProperties.ActorEntriesSpec | web_scraping_module.py:180-186 | pass 1 inserts a listed pair that is not stored once per listing occurrence (twice when listed twice), with the bio of its link, and a stored pair never; nothing when all are stored |
| IngestProperties.ActorEntriesConcat | web_scraping_module.py:180-186 | pass 1 keeps listing order: the rows for a concatenated listing are those of each part |
| IngestProperties.ActorPassSpec | web_scraping_module.py:178-186 | after pass 1 every listed pair is stored; the new rows are listed pairs that were not stored, each with its own bio; old rows are kept |
| IngestProperties.ActorPassIdempotent | web_scraping_module.py:179-183 | running pass 1 again right after it adds nothing |
| IngestProperties.AwardEntriesSpec | web_scraping_module.py:189-199 | every row pass 2 inserts is a 'Winner' award of an unskipped actor under that actor's id; a completed pass inserted all of them; an aborted one stopped on an unskipped actor's scrape error; nothing to do gives nothing |
| IngestProperties.AwardRowsCount | web_scraping_module.py:198-199 | each Winner award gives its actor as many award rows as the page lists it |
| IngestProperties.AwardEntriesCount | web_scraping_module.py:189-199 | on an actor table with increasing ids, a completed pass 2 inserts each Winner award of each unskipped actor exactly as many times as that actor's page lists it |
| IngestProperties.AwardEntriesIgnoreSkipped | web_scraping_module.py:190-194 | the awards pages of actors already among award owners are never consulted |
| IngestProperties.AwardPassRerun | web_scraping_module.py:189-199 | after a completed pass 2, running it again inserts nothing and completes |
| IngestProperties.StagingEntriesSpec | web_scraping_module.py:202-216 | a row pass 3 tries is exactly a credit row of an actor not named in staging; nothing when every actor is named or has no credits |
| IngestProperties.StagingRowsCount | web_scraping_module.py:207-216 | each credit gives its actor as many staging rows as the filmography lists it |
| IngestProperties.StagingEntriesCount | web_scraping_module.py:202-216 | on an actor table with increasing ids, pass 3 tries each credit of each actor not named in staging exactly as many times as the filmography lists it |
| IngestProperties.RepeatedCreditAborts | web_scraping_module.py:207-216 | a filmography of an unstaged actor that lists one credit twice makes pass 3 raise on a repeated staging key |
| IngestProperties.StagingEntriesIgnoreSkipped | web_scraping_module.py:202-206 | the filmography of an actor already named in staging is never consulted |
| IngestProperties.StagingPassSpec | web_scraping_module.py:202-217 | pass 3 completes iff its rows are pairwise distinct and none is staged, and then appends them all; otherwise it raises on its row k, the rows before k are staged, and row k was already present |
| IngestProperties.StagedActorsNamed | web_scraping_module.py:202-217 | after a completed pass 3 every actor is named in staging or has no credits |
| IngestProperties.StagingPassRerun | web_scraping_module.py:202-217 | after a completed pass 3, running it again stages nothing and completes |
| IngestProperties.MoviesToScrapeOne | web_scraping_module.py:224 | one staging row gives its (name, url) exactly when its url is unknown, and nothing otherwise |
| IngestProperties.MoviesToScrapeConcat | web_scraping_module.py:224 | the list is built row by row: for concatenated staging it is the lists of each part, so staging order and repeated urls are kept |
| IngestProperties.MoviesToScrapeAllKnown | web_scraping_module.py:224 | with every staged url known there is nothing to scrape |
| IngestProperties.MoviesToScrapeAllUnknown | web_scraping_module.py:224 | with no staged url known the list has one item per staging row, item i being row i's (name, url), repeated urls included |
| IngestProperties.MoviePassCount | web_scraping_module.py:224-234 | pass 4a adds exactly one movie row per item of that list |
| IngestProperties.MoviePassCovers | web_scraping_module.py:220-234 | pass 4a keeps the old movies, and afterwards every staged url has a movie |
| IngestProperties.MoviePassNewRows | web_scraping_module.py:220-234 | each added movie is a staged (name, url) pair whose url had no movie, stored with its scraped metadata |
| IngestProperties.MoviePassIdempotent | web_scraping_module.py:220-234 | running pass 4a again right after it adds no movie |
| IngestProperties.MoviePassRepeatsUrl | web_scraping_module.py:223-224 | as written, two staging rows with one url give two movie rows with that url and different ids |
| IngestProperties.DistinctMoviesToScrape | web_scraping_module.py:223 | the corrected work list, one movie per distinct url. It follows the deduplicated list built at web_scraping_module.py:223 and never used, and goes one step further: that `set` is keyed on (title, url) and would keep one url twice under two titles, while this list is keyed on the url alone, the key `get_movie_id` looks movies up by (database_module.py:69-74): unknown urls only, each once, each from a staging row |
| IngestProperties.DistinctMoviesToScrapeCovers | web_scraping_module.py:223 | the deduplicated work list still names every staged url that is not yet known |
| IngestProperties.AppendRowsKeepsUrlsUnique | database_module.py:178 | appending movies with fresh, pairwise distinct urls keeps movie urls unique |
| IngestProperties.AppendRowsFindsUrl | database_module.py:69-74 | after appending, a url that was known or is new has a movie |
| IngestProperties.DistinctMoviePassKeepsUrlsUnique | web_scraping_module.py:223-234 | with the deduplicated work list pass 4a keeps movie urls unique |
| IngestProperties.DistinctMoviePassCovers | web_scraping_module.py:223-234 | with the deduplicated work list every staged url still gets a movie |
| IngestProperties.RelationPassSpec | web_scraping_module.py:237-241 | when every staged url has a movie, pass 4b is one batch insert of the staging pairs; it raises exactly on a repeated pair |
| IngestProperties.RelationPassResult | web_scraping_module.py:237-241 | old pairs are kept; a completed pass 4b found every url and inserted every staging row's pair; a missing movie is reported with its staged url |
| IngestProperties.RunNeverMissesMovie | web_scraping_module.py:219-241 | a run never stops on a staged url without a movie, because pass 4a gave each one |
| IngestProperties.CompletedRunShape | web_scraping_module.py:175-243 | the unfolding step of `RerunAfterCompletedRun`: a completed run's tables, pass by pass |
| IngestProperties.AwardPassFrame | web_scraping_module.py:189-199 | pass 2 reads and writes only the actors and awards |
| IngestProperties.StagingPassFrame | web_scraping_module.py:202-217 | pass 3 reads and writes only the actors and staging |
| IngestProperties.RerunAfterCompletedRun | web_scraping_module.py:175-243 | a second run after a completed one changes no table; it completes iff staging is empty, and otherwise stops on the first staging row's `played_in` key |
| Cli.IdsNamed | user_interface_module.py:33 | an id is listed iff some actor with that full name has it |
| Cli.ActorId | user_interface_module.py:31-38 | None iff no actor's name is first + " " + last; otherwise the id of the first row with that name |
| Cli.FirstIdNamed | user_interface_module.py:33-37 | the first id of the comprehension is that of the first row with the name |
| Cli.EmittedCount | user_interface_module.py:56-59 | a listing emits a prefix: every emitted index passes the limit guard and the next one fails it |
| Cli.EmittedCountCases | user_interface_module.py:56-59 | with no limit all n items are emitted; with a limit, min(limit, n), and none for a limit <= 0 |
| Cli.Enumerate | user_interface_module.py:56-59 | the listing loop with `break` emits the first EmittedCount items, numbered from 1 |
| Cli.ProcessActors | user_interface_module.py:25-29 | every actor name, numbered 1..n in query order |
| Cli.ProcessBio | user_interface_module.py:40-47 | nothing for an unknown actor; otherwise the bio of the actor found |
| Cli.ProcessMovies | user_interface_module.py:49-59 | nothing for an unknown actor; otherwise (name, year) of the actor's movies, numbered and cut at the limit |
| Cli.ProcessAwards | user_interface_module.py:61-71 | nothing for an unknown actor; otherwise (name, year) of the actor's awards, numbered and cut at the limit |
| Cli.CollectGenres | user_interface_module.py:80-82 | the `+=` loop yields the concatenation of every genre string's split on ", " |
| Cli.SplitGenresMembers | user_interface_module.py:79-82 | a genre is collected iff it is a ", "-piece of some movie's genre string |
| Cli.ActorGenres | user_interface_module.py:79-83 | each genre at most once; a genre is listed iff it is a ", "-piece of one of the actor's movies |
| Cli.ProcessGenres | user_interface_module.py:73-88 | nothing for an unknown actor; otherwise the distinct genres, numbered and cut at the limit |
| Cli.YearsMembers | user_interface_module.py:101-106 | a year is a key iff some movie of the actor has it |
| Cli.RatingsOfYearMembers | user_interface_module.py:101-106 | a rating is grouped under a year iff a movie of that year has it |
| Cli.GroupStep | user_interface_module.py:101-106 | one loop step extends `Years` by the movie's year and that year's rating list by its rating; other years' lists are unchanged |
| Cli.NoYearNoRatings | user_interface_module.py:101-106 | a year without movies has no ratings |
| Cli.GroupRatingsByYear | user_interface_module.py:101-106 | the dict has one key per year, keys in first-appearance order, each holding that year's ratings in row order |
| Cli.GroupingSpec | user_interface_module.py:101-106 | the keys are duplicate-free and are exactly the years that occur; each list holds exactly that year's ratings and is non-empty |
| Cli.ProcessRatings | user_interface_module.py:90-110 | nothing for an unknown actor; the averaging of an empty set raises iff the actor has no movies; otherwise the year groups, cut at the limit |
| Cli.ProcessTopFive | user_interface_module.py:112-122 | nothing for an unknown actor; otherwise the lines of `Queries.ActorTopFive` (min(5, movie count) best-rated movies, best first) in order, cut at the limit |

## Left out

- Selenium and the live pages are not modelled. This covers session setup, navigation, scrolling, sleeps, clicking and `wait_until_clickable`. Each extractor's result is a field of `Site` instead: a fixed function of the link.
- BeautifulSoup and regex querying are not modelled. The model starts from what the queries find (anchor texts, hrefs, spans).
- The retry loops around `scrape_actor_movies` and `scrape_movie_metadata` are modelled as one successful call. Whether they end depends on the live page.
- The sqlite connection, cursors, `commit` and `close` are not modelled. Every insert is visible at once, so a run that raises keeps the rows inserted before the exception. There is no durability model.
- `AVG`, `float` and `round` are not modelled, because they are floating point. `Cli.ProcessRatings` returns the year groups with their rating strings and does not return the averages. It keeps only the failure where `AVG` over no rows is NULL.
- argparse, shlex, the `input` loop and the printed text are not modelled. Each report returns the records it would print.
- INTEGER column affinity is not modelled: years stay text, as scraped.
- `Store.Database.InsertAward`: the award year is kept as text. SQLite's conversion of a non-numeric year under INTEGER affinity is not modelled.
- SQL row order without `ORDER BY` is modelled as insertion order. `DISTINCT` and Python's `set()` order are modelled as first-appearance order.
  - `Cli.ProcessGenres` relies on that chosen order for its line numbers. Python's `set()` order is unspecified, so of the source's behaviour only the set of genres and their being duplicate-free carry over.
  - The genre query joins `movies` with `played_in` in the other order than `get_actor_movies`. The model uses `Queries.ActorMovies` for both, so the rows are the same and only their order could differ.
- `Queries.TopFive`: the order among movies with equal rating text is the model's own. `ORDER BY` leaves it unspecified.
- `Ingest.Run` uses pass 4a as written, with duplicate movies per url; see Findings. The deduplicated pass is proved about separately and is not wired into `Run`.
- A re-run of the script is not idempotent. The skip sets of passes 1-3 (web_scraping_module.py:179, 189-192, 202-204) avoid redoing work, but pass 4b re-inserts every staging pair. `IngestProperties.RerunAfterCompletedRun` states what does happen.
- The crashes on missing page elements are not modelled: `Site` assumes every element is present, so the model completes where the source raises. These are `actor_previous_projects[0]` with no filmography container (web_scraping_module.py:94), a credit without its title anchor (:109-111), `genres_div` or a genre span being None (:127-128), the title `h1` being None (:130-131), a rating div without a span (:140), and an award item without its div, anchor or name span (:166-169).
- AwardEntriesSpec: states membership, not multiplicity. `IngestProperties.AwardEntriesCount` states the count per Winner award for actor tables whose ids increase, which every stored table's do (`Store.Database.Valid`).
- StagingEntriesSpec: states membership, not multiplicity. `IngestProperties.StagingEntriesCount` states the count per credit for actor tables whose ids increase, which every stored table's do.
- The listing's progress prints and the `movie_index % 25` progress line are not modelled.
- `get_all_actors`, `get_actor_awards` and `get_actor_bio` are modelled inside `Cli` and `Queries` through the tables directly.

## Findings

| source | as written | input that shows it | evidently intended | confidence | as-written member | corrected member |
|---|---|---|---|---|---|---|
| web_scraping_module.py:223-224 | `movies_to_scrape` has one entry per staging row whose url is unknown; the deduplicated list built just before it is never used | two actors staged with the same movie url, e.g. rows (0, "Heat", u) and (1, "Heat", u) for u = "https://www.imdb.com/title/tt0113277/" with no movie stored: pass 4a inserts two movie rows with url u | one movie per distinct unknown url, so urls identify movies | not executed | IngestProperties.MoviePassRepeatsUrl | IngestProperties.DistinctMoviePassKeepsUrlsUnique |
