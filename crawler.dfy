/**
 * bot/scraper.py: `parse_card`, which records one listing card of a search
 * results page, and `get_links`, which walks the result pages.
 *
 * A card is what the CSS selectors find on it; a page fetch is either the
 * list of its cards or an exception. The wall clock, read by
 * `is_new_listing` and again by `parse_card`, is part of each visit.
 */
module Crawler {
  import opened Wrappers
  import opened Text
  import opened Calendar
  import opened Utils
  import opened Store

  /** An `<img>` element; `src` is its attribute, when present. */
  datatype ImgTag = ImgTag(src: Option<string>)

  /** A result card: its `id` attribute and the text of each element the
      selectors find (`None` when an element is missing). */
  datatype Card = Card(
    id: Option<string>,
    title: Option<string>,
    price: Option<string>,
    district: Option<string>,
    img: Option<ImgTag>)

  /** The clock readings while a card is processed: `checkedAt` in
      `is_new_listing`, `now` in `parse_card`, and the local date and
      zone offset `parse_ukr_date` sees. */
  datatype Clock = Clock(checkedAt: int, now: int, today: Day, utcOffset: int)

  datatype Visit = Visit(card: Card, clock: Clock)

  /** The id, unless it is missing or empty (`not listing_id`). */
  function CardId(c: Card): Option<string> {
    if c.id.Some? && c.id.value != "" then c.id else None
  }

  /** `tag.get_text(strip=True) if tag else ""`. */
  function TextOr(t: Option<string>): string {
    if t.Some? then t.value else ""
  }

  function ImgUrl(img: Option<ImgTag>): Option<string> {
    if img.Some? then img.value.src else None
  }

  const DateSeparator: string := " - "

  /** The text after the first `" - "` of the location line, if any
      (`district.split(" - ", 1)[1]`). */
  function DatePart(district: string): (r: Option<string>)
    ensures r.Some? <==> Contains(district, DateSeparator)
    ensures r.Some? ==> exists i ::
      OccursAt(district, DateSeparator, i) && r.value == district[i + 3..]
      && forall j :: 0 <= j < i ==> !OccursAt(district, DateSeparator, j)
  {
    match Find(district, DateSeparator)
    case Some(i) => Some(district[i + 3..])
    case None => None
  }

  /** The creation instant a card gets, or the `ValueError` that aborts
      the card. */
  datatype Created = CreatedAt(instant: int) | DateRaises

  /** `created_at_dt`: `now`, unless the location line carries a date that
      parses; a date that makes `strptime` raise aborts the card. */
  function CreatedAtOf(district: string, c: Clock): (r: Created)
    ensures DatePart(district).None? ==> r == CreatedAt(c.now)
    ensures r.DateRaises? <==>
      DatePart(district).Some? && ParseUkrDate(DatePart(district).value, c.today, c.utcOffset).Raises?
    ensures r.CreatedAt? && r.instant != c.now ==>
      DatePart(district).Some? && ParseUkrDate(DatePart(district).value, c.today, c.utcOffset) == Parsed(r.instant)
  {
    if district != "" && DatePart(district).Some? then
      match ParseUkrDate(DatePart(district).value, c.today, c.utcOffset)
      case Parsed(t) => CreatedAt(t)
      case NotRecognised => CreatedAt(c.now)
      case Raises => DateRaises
    else CreatedAt(c.now)
  }

  /** The columns the upsert writes for a card. */
  function Values(c: Card, now: int, createdAt: int): CardValues {
    CardValues(Some(TextOr(c.title)), Some(TextOr(c.price)), Some(TextOr(c.district)),
               ImgUrl(c.img), now, Some(createdAt))
  }

  /** A location line `"<place> - <date>"` whose place has no hyphen gives
      the card the instant of that date. */
  lemma CreatedFromDistrict(place: string, d: Date, name: string, c: Clock)
    requires '-' !in place && ValidDate(d)
    requires name == UkrainianMonths[d.month - 1] || name == RussianMonths[d.month - 1]
    ensures CreatedAtOf(place + DateSeparator + AbsoluteText(d.day, name, d.year), c) == CreatedAt(DayStart(d))
  {
    var date := AbsoluteText(d.day, name, d.year);
    DatePartAfterPlace(place, date);
    AbsoluteRoundTrip(d, name, c.today, c.utcOffset);
  }

  /** The date part of `"<place> - <rest>"` is `rest` when the place has no
      hyphen. */
  lemma DatePartAfterPlace(place: string, rest: string)
    requires '-' !in place
    ensures DatePart(place + DateSeparator + rest) == Some(rest)
  {
    var s := place + DateSeparator + rest;
    assert OccursAt(s, DateSeparator, |place|);
    forall j | 0 <= j < |place| ensures !OccursAt(s, DateSeparator, j) {
      assert s[j..j + 3][1] == s[j + 1];
      if j + 1 < |place| {
        assert s[j + 1] == place[j + 1] && place[j + 1] in place;
      } else {
        assert s[j + 1] == DateSeparator[0];
      }
    }
    assert Find(s, DateSeparator) == Some(|place|);
    assert s[|place| + 3..] == rest;
  }

  /** What `parse_card` does to the table. */
  function CardEffect(t: Table, v: Visit): (t': Table)
    ensures CardId(v.card).None? ==> t' == t
    ensures CardId(v.card).Some? && CardId(v.card).value in t ==>
      t' == Touch(t, CardId(v.card).value, v.clock.checkedAt)
    ensures CardId(v.card).Some? && CardId(v.card).value !in t ==>
      var id := CardId(v.card).value;
      id in t' && OthersUnchanged(t, t', id) && t'[id].description.None?
      && match CreatedAtOf(TextOr(v.card.district), v.clock)
         case DateRaises => t'[id] == Stub(v.clock.checkedAt)
         case CreatedAt(ca) =>
           t'[id] == Row(Some(TextOr(v.card.title)), Some(TextOr(v.card.price)),
                         Some(TextOr(v.card.district)), ImgUrl(v.card.img), None,
                         Some(v.clock.now), Some(v.clock.now), Some(ca))
  {
    match CardId(v.card)
    case None => t
    case Some(id) =>
      var touched := Touch(t, id, v.clock.checkedAt);
      if id in t then touched
      else
        match CreatedAtOf(TextOr(v.card.district), v.clock)
        case DateRaises => touched
        case CreatedAt(ca) => Upsert(touched, id, Values(v.card, v.clock.now, ca))
  }

  /** The cards of one page, processed in order. */
  function ProcessCards(t: Table, vs: seq<Visit>): Table
    decreases |vs|
  {
    if vs == [] then t else CardEffect(ProcessCards(t, vs[..|vs| - 1]), vs[|vs| - 1])
  }

  /** The outcome of fetching and parsing one result page. */
  datatype PageFetch = Fetched(visits: seq<Visit>) | FetchFails

  /** The outcome for page `p` (1-based); pages past the end of the list
      fail. */
  function PageAt(fetch: seq<PageFetch>, p: int): PageFetch {
    if 1 <= p <= |fetch| then fetch[p - 1] else FetchFails
  }

  datatype Crawl = Crawl(table: Table, tried: seq<int>)

  /** `get_links` from page `p` on: the table it leaves and the pages it
      requests. */
  function CrawlFrom(t: Table, p: int, pages: int, fetch: seq<PageFetch>): Crawl
    decreases pages - p + 1
  {
    if p > pages then Crawl(t, [])
    else
      match PageAt(fetch, p)
      case FetchFails => Crawl(t, [p])
      case Fetched(vs) =>
        var rest := CrawlFrom(ProcessCards(t, vs), p + 1, pages, fetch);
        Crawl(rest.table, [p] + rest.tried)
  }

  /** `get_links(pages)`. */
  function GetLinksEffect(t: Table, pages: int, fetch: seq<PageFetch>): Crawl {
    CrawlFrom(t, 1, pages, fetch)
  }

  /** The pages requested are p, p + 1, … in order, none past `pages`;
      every one but the last was fetched, and the walk ends early only
      on a failed page. */
  lemma {:induction false} CrawlPages(t: Table, p: int, pages: int, fetch: seq<PageFetch>)
    ensures var r := CrawlFrom(t, p, pages, fetch).tried;
      (forall j :: 0 <= j < |r| ==> r[j] == p + j)
      && (p <= pages ==> |r| <= pages - p + 1) && (p > pages ==> r == [])
      && (forall j :: 0 <= j < |r| - 1 ==> PageAt(fetch, r[j]).Fetched?)
      && (|r| == pages - p + 1 || (|r| > 0 && PageAt(fetch, r[|r| - 1]).FetchFails?) || p > pages)
    decreases pages - p + 1
  {
    if p <= pages && PageAt(fetch, p).Fetched? {
      var vs := PageAt(fetch, p).visits;
      CrawlPages(ProcessCards(t, vs), p + 1, pages, fetch);
    }
  }

  /** Every page up to `pages` that fetches is requested when all the pages
      before it fetched too. */
  lemma {:induction false} CrawlReachesPage(t: Table, p: int, pages: int, fetch: seq<PageFetch>, q: int)
    requires p <= q <= pages
    requires forall k :: p <= k < q ==> PageAt(fetch, k).Fetched?
    ensures q in CrawlFrom(t, p, pages, fetch).tried
    decreases q - p
  {
    if p < q {
      var vs := PageAt(fetch, p).visits;
      CrawlReachesPage(ProcessCards(t, vs), p + 1, pages, fetch, q);
    }
  }

  /** All ids of the cards of the visits, among those that have one. */
  ghost predicate AllKnown(t: Table, vs: seq<Visit>) {
    forall i :: 0 <= i < |vs| && CardId(vs[i].card).Some? ==> CardId(vs[i].card).value in t
  }

  /** `t'` has the rows of `t`, each with at most `last_seen_dt` moved. */
  ghost predicate OnlyLastSeenMoved(t: Table, t': Table) {
    t'.Keys == t.Keys && forall k :: k in t ==> SameButLastSeen(t[k], t'[k])
  }

  /** A page whose cards are all known only touches `last_seen_dt`. */
  lemma {:induction false} KnownCardsOnlyTouch(t: Table, vs: seq<Visit>)
    requires AllKnown(t, vs)
    ensures OnlyLastSeenMoved(t, ProcessCards(t, vs))
    decreases |vs|
  {
    if vs != [] {
      var init := vs[..|vs| - 1];
      assert AllKnown(t, init) by {
        forall i | 0 <= i < |init| && CardId(init[i].card).Some? ensures CardId(init[i].card).value in t {
          assert init[i] == vs[i];
        }
      }
      KnownCardsOnlyTouch(t, init);
      var mid := ProcessCards(t, init);
      var v := vs[|vs| - 1];
      if CardId(v.card).Some? {
        assert CardId(v.card).value in mid;
      }
    }
  }

  /** Re-crawling pages whose cards are all in the table changes nothing
      but `last_seen_dt`. */
  lemma {:induction false} RecrawlOnlyTouches(t: Table, p: int, pages: int, fetch: seq<PageFetch>)
    requires forall k :: p <= k <= pages && PageAt(fetch, k).Fetched? ==> AllKnown(t, PageAt(fetch, k).visits)
    ensures OnlyLastSeenMoved(t, CrawlFrom(t, p, pages, fetch).table)
    decreases pages - p + 1
  {
    if p <= pages && PageAt(fetch, p).Fetched? {
      var vs := PageAt(fetch, p).visits;
      var t1 := ProcessCards(t, vs);
      KnownCardsOnlyTouch(t, vs);
      forall k | p + 1 <= k <= pages && PageAt(fetch, k).Fetched?
        ensures AllKnown(t1, PageAt(fetch, k).visits)
      {
        assert AllKnown(t, PageAt(fetch, k).visits);
      }
      RecrawlOnlyTouches(t1, p + 1, pages, fetch);
    }
  }

  /** `parse_card(card)` on the store, one visit. */
  method ParseCard(store: ListingStore, v: Visit)
    modifies store
    ensures store.rows == CardEffect(old(store.rows), v)
  {
    var card := v.card;
    if card.id.None? || card.id.value == "" {
      return;
    }
    var id := card.id.value;
    var isNew := store.IsNewListing(id, v.clock.checkedAt);
    if !isNew {
      return;
    }
    var title := if card.title.Some? then card.title.value else "";
    var price := if card.price.Some? then card.price.value else "";
    var district := if card.district.Some? then card.district.value else "";
    var imgUrl := if card.img.Some? then card.img.value.src else None;
    var createdAt := v.clock.now;
    if district != "" && Contains(district, DateSeparator) {
      var datePart := DatePart(district).value;
      var parsed := ParseUkrDate(datePart, v.clock.today, v.clock.utcOffset);
      if parsed.Raises? {
        return;
      }
      if parsed.Parsed? {
        createdAt := parsed.instant;
      }
    }
    store.UpsertCard(id, CardValues(Some(title), Some(price), Some(district), imgUrl, v.clock.now, Some(createdAt)));
  }

  /** `get_links(pages)`: returns the page numbers it requested. */
  method GetLinks(store: ListingStore, pages: int, fetch: seq<PageFetch>) returns (tried: seq<int>)
    modifies store
    ensures GetLinksEffect(old(store.rows), pages, fetch) == Crawl(store.rows, tried)
  {
    ghost var whole := CrawlFrom(store.rows, 1, pages, fetch);
    tried := [];
    var pageNum := 1;
    while pageNum <= pages
      invariant pageNum >= 1
      invariant whole == var rest := CrawlFrom(store.rows, pageNum, pages, fetch);
        Crawl(rest.table, tried + rest.tried)
      decreases pages - pageNum + 1
    {
      ghost var here := CrawlFrom(store.rows, pageNum, pages, fetch);
      var page := PageAt(fetch, pageNum);
      if page.FetchFails? {
        assert here == Crawl(store.rows, [pageNum]);
        tried := tried + [pageNum];
        return;
      }
      ParsePage(store, page.visits);
      ghost var rest := CrawlFrom(store.rows, pageNum + 1, pages, fetch);
      assert here == Crawl(rest.table, [pageNum] + rest.tried);
      assert tried + ([pageNum] + rest.tried) == (tried + [pageNum]) + rest.tried;
      tried := tried + [pageNum];
      pageNum := pageNum + 1;
    }
    assert CrawlFrom(store.rows, pageNum, pages, fetch) == Crawl(store.rows, []);
    assert tried + [] == tried;
  }

  /** The inner `for card in cards` loop of `get_links`: the cards of one
      page, in order. */
  method ParsePage(store: ListingStore, vs: seq<Visit>)
    modifies store
    ensures store.rows == ProcessCards(old(store.rows), vs)
  {
    var i := 0;
    while i < |vs|
      invariant 0 <= i <= |vs|
      invariant store.rows == ProcessCards(old(store.rows), vs[..i])
    {
      assert vs[..i + 1][..i] == vs[..i];
      ParseCard(store, vs[i]);
      i := i + 1;
    }
    assert vs[..i] == vs;
  }
}
