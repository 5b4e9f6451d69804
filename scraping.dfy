/**
 * The extractors of web_scraping_module.py with the browser and the HTML
 * parser taken out: a `Site` gives, for each link, what the parser would
 * have found on that page, and the model keeps the string post-processing,
 * the sentinel defaults and the append loops.
 */
module Scraping {
  import opened Wrappers
  import opened Text

  const SiteRoot: string := "https://www.imdb.com"
  const UnknownActor: string := "Unknown Actor"
  const MissingBio: string := "Biography not available."
  const NoCategory: string := "No Category"
  /** The integer 0 of the source, as the TEXT column movie_rating stores it. */
  const MissingRating: string := "0"
  const WinnerTag: string := "Winner"
  const GenreSeparator: string := ", "

  /** One `a.ipc-title-link-wrapper` of the listing page: its `h3` text and its href. */
  datatype ListingAnchor = ListingAnchor(title: Option<string>, href: Option<string>)
  /** One acting credit of a filmography: the title anchor's contents and href. */
  datatype Credit = Credit(title: string, href: string)
  /** One award list item: the anchor's inner HTML, the award name span, the category span. */
  datatype AwardItem = AwardItem(anchorHtml: string, awardName: string, category: Option<string>)
  /** What a movie page shows: genre labels, the release-info anchor, the first rating span. */
  datatype MoviePage = MoviePage(genres: seq<string>, yearAnchor: Option<string>, ratingSpan: Option<string>)

  /**
   * The external source, as fixed functions of a link: the listing, and per
   * actor link the bio container, the awards sub-page href and the
   * filmography; per awards url the award items; per movie url its page.
   */
  datatype Site = Site(
    listing: seq<ListingAnchor>,
    bioDiv: string -> Option<string>,
    awardsHref: string -> Option<string>,
    awardItems: string -> seq<AwardItem>,
    credits: string -> seq<Credit>,
    moviePage: string -> MoviePage)

  /** The tuple `(award_name, award_tag, award_category, award_year)`. */
  datatype ScrapedAward = ScrapedAward(name: string, tag: string, category: string, year: string)
  /** The tuple `(movie_year, movie_rating, movie_genres)`. */
  datatype MovieMetadata = MovieMetadata(year: Option<string>, rating: string, genres: seq<string>)

  /** The exceptions `scrape_actor_awards` can raise on a page it does not expect. */
  datatype ScrapeError =
    | AwardsLinkMissing(actorLink: string)   // `None['href']`
    | MalformedAwardAnchor(text: string)     // unpacking a split that is not two parts

  /** `f"https://www.imdb.com{href}"`; the href can be read back off the url. */
  function AbsoluteUrl(href: string): (url: string)
    ensures |url| == |SiteRoot| + |href|
    ensures url[..|SiteRoot|] == SiteRoot && url[|SiteRoot|..] == href
  {
    SiteRoot + href
  }

  // ---------------------------------------------------------------------
  // scrape_actors
  // ---------------------------------------------------------------------

  /** `' '.join(name.split(' ')[1:])`. */
  function StripOrdinal(title: string): string
  {
    Join(" ", Split(title, " ")[1..])
  }

  /**
   * Stripping the ordinal drops everything up to and including the first
   * space ("1. Tom Hanks" becomes "Tom Hanks"); a title without a space
   * becomes "".
   */
  lemma StripOrdinalSpec(title: string)
    ensures FindFirst(title, " ").None? ==> StripOrdinal(title) == ""
    ensures FindFirst(title, " ").Some? ==> StripOrdinal(title) == title[FindFirst(title, " ").value + 1..]
  {
    match FindFirst(title, " ")
    case None =>
    case Some(i) =>
      JoinSplit(title[i + 1..], " ");
  }

  /** The name an anchor yields: its heading text, or "Unknown Actor", without the ordinal. */
  function ListingName(a: ListingAnchor): string
  {
    StripOrdinal(a.title.GetOr(UnknownActor))
  }

  /** One (name, absolute link) pair per anchor that has an href, in anchor order. */
  function Listing(anchors: seq<ListingAnchor>): seq<(string, string)>
    decreases |anchors|
  {
    if anchors == [] then []
    else
      var a := anchors[0];
      (if a.href.Some? then [(ListingName(a), AbsoluteUrl(a.href.value))] else []) + Listing(anchors[1..])
  }

  /** The listing of consecutive parts of a page is the concatenation of their listings. */
  lemma {:induction false} ListingConcat(a: seq<ListingAnchor>, b: seq<ListingAnchor>)
    ensures Listing(a + b) == Listing(a) + Listing(b)
    decreases |a|
  {
    if a != [] {
      var head := if a[0].href.Some? then [(ListingName(a[0]), AbsoluteUrl(a[0].href.value))] else [];
      assert (a + b)[0] == a[0] && (a + b)[1..] == a[1..] + b;
      assert Listing(a + b) == head + Listing(a[1..] + b);
      ListingConcat(a[1..], b);
      assert Listing(a) == head + Listing(a[1..]);
    } else {
      assert a + b == b;
    }
  }

  /**
   * Every anchor with an href contributes its pair and every pair comes
   * from such an anchor; anchors without an href contribute nothing.
   */
  lemma {:induction false} ListingSpec(anchors: seq<ListingAnchor>)
    ensures forall a :: a in anchors && a.href.Some? ==> (ListingName(a), AbsoluteUrl(a.href.value)) in Listing(anchors)
    ensures forall p :: p in Listing(anchors) ==>
      exists a :: a in anchors && a.href.Some? && p == (ListingName(a), AbsoluteUrl(a.href.value))
    ensures (forall a :: a in anchors ==> a.href.None?) ==> Listing(anchors) == []
    decreases |anchors|
  {
    if anchors != [] {
      ListingSpec(anchors[1..]);
      assert forall a :: a in anchors <==> a == anchors[0] || a in anchors[1..];
    }
  }

  function Zip<A, B>(xs: seq<A>, ys: seq<B>): (r: seq<(A, B)>)
    requires |xs| == |ys|
    ensures |r| == |xs| && forall k :: 0 <= k < |r| ==> r[k] == (xs[k], ys[k])
  {
    seq(|xs|, k requires 0 <= k < |xs| => (xs[k], ys[k]))
  }

  /** `scrape_actors`: collects names and links side by side, then zips them. */
  method ScrapeActors(anchors: seq<ListingAnchor>) returns (pairs: seq<(string, string)>)
    ensures pairs == Listing(anchors)
  {
    var names: seq<string> := [];
    var links: seq<string> := [];
    for i := 0 to |anchors|
      invariant |names| == |links|
      invariant Zip(names, links) == Listing(anchors[..i])
    {
      var a := anchors[i];
      var name := ListingName(a);
      ListingConcat(anchors[..i], [a]);
      assert anchors[..i + 1] == anchors[..i] + [a];
      if a.href.Some? {
        links := links + [AbsoluteUrl(a.href.value)];
        names := names + [name];
      }
    }
    assert anchors[..|anchors|] == anchors;
    pairs := Zip(names, links);
  }

  // ---------------------------------------------------------------------
  // scrape_actor_bio, scrape_movie_metadata
  // ---------------------------------------------------------------------

  /** `scrape_actor_bio`: the bio container's text, or the sentinel. */
  function ActorBio(site: Site, link: string): string
  {
    site.bioDiv(link).GetOr(MissingBio)
  }

  /** The year is the first (at most) four characters of the release anchor; no anchor, no year. */
  function MovieYear(anchor: Option<string>): (year: Option<string>)
    ensures year.None? <==> anchor.None?
    ensures year.Some? ==> year.value <= anchor.value
    ensures year.Some? ==> |year.value| == if |anchor.value| < 4 then |anchor.value| else 4
  {
    match anchor
    case None => None
    case Some(text) => Some(if |text| < 4 then text else text[..4])
  }

  /** `scrape_movie_metadata`: year, rating (sentinel "0") and the genre labels. */
  function MovieMetadataOf(page: MoviePage): MovieMetadata
  {
    MovieMetadata(MovieYear(page.yearAnchor), page.ratingSpan.GetOr(MissingRating), page.genres)
  }

  /** Missing page elements become the documented sentinels; present ones are kept. */
  lemma SentinelDefaults(site: Site, link: string, page: MoviePage, item: AwardItem)
    ensures site.bioDiv(link).None? ==> ActorBio(site, link) == "Biography not available."
    ensures site.bioDiv(link).Some? ==> ActorBio(site, link) == site.bioDiv(link).value
    ensures page.yearAnchor.None? ==> MovieMetadataOf(page).year.None?
    ensures page.ratingSpan.None? ==> MovieMetadataOf(page).rating == "0"
    ensures page.ratingSpan.Some? ==> MovieMetadataOf(page).rating == page.ratingSpan.value
    ensures item.category.None? ==> AwardCategory(item) == "No Category"
    ensures item.category.Some? ==> AwardCategory(item) == item.category.value
  {
  }

  // ---------------------------------------------------------------------
  // scrape_actor_awards
  // ---------------------------------------------------------------------

  /**
   * `tuple(text.split('<span')[0].split(' '))` unpacked into
   * `(award_year, award_tag)`: anything but exactly two parts raises.
   */
  function AwardHeading(anchorHtml: string): Result<(string, string), ScrapeError>
  {
    var parts := Split(Split(anchorHtml, "<span")[0], " ");
    if |parts| == 2 then Ok((parts[0], parts[1])) else Err(MalformedAwardAnchor(anchorHtml))
  }

  /**
   * A heading parses exactly when the text before the first "<span" is
   * "<year> <tag>" with one space: year and tag are then space-free and
   * rebuild that text.
   */
  lemma AwardHeadingSpec(anchorHtml: string)
    ensures AwardHeading(anchorHtml).Ok? ==>
      var (year, tag) := AwardHeading(anchorHtml).value;
      && Split(anchorHtml, "<span")[0] == year + " " + tag
      && !Contains(year, " ") && !Contains(tag, " ")
  {
    var text := Split(anchorHtml, "<span")[0];
    var parts := Split(text, " ");
    if |parts| == 2 {
      JoinSplit(text, " ");
      SplitPiecesAvoidSeparator(text, " ");
      assert parts[0] in parts && parts[1] in parts;
      assert Join(" ", parts) == parts[0] + " " + Join(" ", parts[1..]);
    }
  }

  /** In `y + " " + g` with no space in `y`, the first space is the one right after `y`. */
  lemma FirstSpaceAfter(y: string, g: string)
    requires !Contains(y, " ")
    ensures FindFirst(y + " " + g, " ") == Some(|y|)
  {
    var s := y + " " + g;
    assert OccursAt(s, " ", |y|) by {
      assert s[|y|..|y| + 1] == " ";
    }
    forall j | 0 <= j < |y| ensures !OccursAt(s, " ", j) {
      assert s[j..j + 1] == y[j..j + 1];
      assert !OccursAt(y, " ", j);
    }
  }

  /**
   * The converse of `AwardHeadingSpec`: a heading whose text is a space-free
   * year, one space and a space-free tag, with no "<span" in it, parses to
   * exactly that (year, tag).
   */
  lemma AwardHeadingAccepts(year: string, tag: string)
    requires !Contains(year, " ") && !Contains(tag, " ")
    requires !Contains(year + " " + tag, "<span")
    ensures AwardHeading(year + " " + tag) == Ok((year, tag))
  {
    var text := year + " " + tag;
    assert Split(text, "<span") == [text];
    FirstSpaceAfter(year, tag);
    assert text[..|year|] == year && text[|year| + 1..] == tag;
    assert Split(tag, " ") == [tag];
    assert Split(text, " ") == [year] + Split(tag, " ");
  }

  function AwardCategory(item: AwardItem): string
  {
    item.category.GetOr(NoCategory)
  }

  /** The awards of a page in item order; the first malformed heading aborts. */
  function AwardsFromItems(items: seq<AwardItem>): Result<seq<ScrapedAward>, ScrapeError>
    decreases |items|
  {
    if items == [] then Ok([])
    else
      match AwardHeading(items[0].anchorHtml)
      case Err(e) => Err(e)
      case Ok(heading) => Prefixed([AwardOf(items[0], heading)], AwardsFromItems(items[1..]))
  }

  /** The tuple of an item whose heading parsed as (year, tag). */
  function AwardOf(item: AwardItem, heading: (string, string)): ScrapedAward
  {
    ScrapedAward(item.awardName, heading.1, AwardCategory(item), heading.0)
  }

  /** `acc` in front of a successful result; an error stays. */
  function Prefixed<T, E>(acc: seq<T>, r: Result<seq<T>, E>): Result<seq<T>, E>
  {
    match r
    case Ok(rest) => Ok(acc + rest)
    case Err(e) => Err(e)
  }

  lemma PrefixedTwice<T, E>(acc: seq<T>, more: seq<T>, r: Result<seq<T>, E>)
    ensures Prefixed(acc, Prefixed(more, r)) == Prefixed(acc + more, r)
  {
    if r.Ok? {
      assert acc + (more + r.value) == (acc + more) + r.value;
    }
  }

  /**
   * A page yields its awards exactly when every heading parses, one award
   * per item, in item order, as (name, tag, category, year); otherwise the
   * error is that of some malformed heading (AwardsFromItemsFirstError
   * shows it is the first one).
   */
  lemma {:induction false} AwardsFromItemsSpec(items: seq<AwardItem>)
    ensures AwardsFromItems(items).Ok? <==> forall k :: 0 <= k < |items| ==> AwardHeading(items[k].anchorHtml).Ok?
    ensures AwardsFromItems(items).Ok? ==>
      var awards := AwardsFromItems(items).value;
      && |awards| == |items|
      && forall k :: 0 <= k < |items| ==>
        awards[k] == ScrapedAward(items[k].awardName, AwardHeading(items[k].anchorHtml).value.1,
                                  AwardCategory(items[k]), AwardHeading(items[k].anchorHtml).value.0)
    ensures AwardsFromItems(items).Err? ==>
      exists k :: 0 <= k < |items| && AwardHeading(items[k].anchorHtml) == Err(AwardsFromItems(items).error)
    decreases |items|
  {
    if items != [] {
      AwardsFromItemsSpec(items[1..]);
      assert forall k :: 1 <= k < |items| ==> items[k] == items[1..][k - 1];
      if AwardsFromItems(items).Err? && AwardHeading(items[0].anchorHtml).Ok? {
        var k :| 0 <= k < |items[1..]| && AwardHeading(items[1..][k].anchorHtml) == Err(AwardsFromItems(items).error);
        assert items[k + 1] == items[1..][k];
      }
    }
  }

  /** The error of a page is that of its first malformed heading: every item before it parses. */
  lemma {:induction false} AwardsFromItemsFirstError(items: seq<AwardItem>)
    requires AwardsFromItems(items).Err?
    ensures exists k :: (0 <= k < |items| && AwardHeading(items[k].anchorHtml) == Err(AwardsFromItems(items).error) &&
      forall j :: 0 <= j < k ==> AwardHeading(items[j].anchorHtml).Ok?)
    decreases |items|
  {
    var e := AwardsFromItems(items).error;
    if AwardHeading(items[0].anchorHtml).Err? {
      assert AwardHeading(items[0].anchorHtml) == Err(e);
    } else {
      var tail := items[1..];
      assert AwardsFromItems(items) == Prefixed([AwardOf(items[0], AwardHeading(items[0].anchorHtml).value)], AwardsFromItems(tail));
      assert AwardsFromItems(tail) == Err(e);
      AwardsFromItemsFirstError(tail);
      var k :| 0 <= k < |tail| && AwardHeading(tail[k].anchorHtml) == Err(e) &&
        (forall j :: 0 <= j < k ==> AwardHeading(tail[j].anchorHtml).Ok?);
      assert items[k + 1] == tail[k];
      forall j | 0 <= j < k + 1 ensures AwardHeading(items[j].anchorHtml).Ok? {
        if j > 0 {
          assert items[j] == tail[j - 1];
        }
      }
    }
  }

  /** What `scrape_actor_awards(actor_link)` returns or raises. */
  function ActorAwards(site: Site, actorLink: string): Result<seq<ScrapedAward>, ScrapeError>
  {
    match site.awardsHref(actorLink)
    case None => Err(AwardsLinkMissing(actorLink))
    case Some(href) => AwardsFromItems(site.awardItems(AbsoluteUrl(href)))
  }

  /** `scrape_actor_awards`: follows the awards link and appends one tuple per list item. */
  method ScrapeActorAwards(site: Site, actorLink: string) returns (r: Result<seq<ScrapedAward>, ScrapeError>)
    ensures r == ActorAwards(site, actorLink)
  {
    var href := site.awardsHref(actorLink);
    if href.None? {
      return Err(AwardsLinkMissing(actorLink));
    }
    var items := site.awardItems(AbsoluteUrl(href.value));
    var awards: seq<ScrapedAward> := [];
    var i := 0;
    assert items[0..] == items;
    assert AwardsFromItems(items).Ok? ==> [] + AwardsFromItems(items).value == AwardsFromItems(items).value;
    while i < |items|
      invariant 0 <= i <= |items|
      invariant AwardsFromItems(items) == Prefixed(awards, AwardsFromItems(items[i..]))
    {
      var item := items[i];
      assert items[i..][0] == item && items[i..][1..] == items[i + 1..];
      var heading := AwardHeading(item.anchorHtml);
      if heading.Err? {
        assert AwardsFromItems(items[i..]) == Err(heading.error);
        return Err(heading.error);
      }
      var (year, tag) := heading.value;
      var award := ScrapedAward(item.awardName, tag, AwardCategory(item), year);
      assert award == AwardOf(item, heading.value);
      PrefixedTwice(awards, [award], AwardsFromItems(items[i + 1..]));
      awards := awards + [award];
      i := i + 1;
    }
    assert items[i..] == [];
    assert awards + [] == awards;
    r := Ok(awards);
  }

  // ---------------------------------------------------------------------
  // scrape_actor_movies
  // ---------------------------------------------------------------------

  /** `scrape_actor_movies`: one (title, absolute url) per acting credit, in page order. */
  method ScrapeActorMovies(site: Site, actorLink: string) returns (movies: seq<(string, string)>)
    ensures |movies| == |site.credits(actorLink)|
    ensures forall k :: 0 <= k < |movies| ==>
      movies[k] == (site.credits(actorLink)[k].title, AbsoluteUrl(site.credits(actorLink)[k].href))
  {
    var credits := site.credits(actorLink);
    movies := [];
    for i := 0 to |credits|
      invariant |movies| == i
      invariant forall k :: 0 <= k < i ==> movies[k] == (credits[k].title, AbsoluteUrl(credits[k].href))
    {
      movies := movies + [(credits[i].title, AbsoluteUrl(credits[i].href))];
    }
  }
}
