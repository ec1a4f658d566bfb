/**
 * `update_missing_descriptions_and_images` of bot.py: select the listings
 * of the wanted districts uploaded in the last half hour that still lack a
 * description, then open each advert once, mark it gone or store its
 * cleaned description and first image, and post it.
 */
module LegacyUpdate {
  import opened Wrappers
  import opened Text
  import opened Store
  import opened Backfill
  import opened LegacyMessage

  // ------------------------------------------------------------ selection

  const HalfHour: int := 1800

  /** The `WHERE` clause of bot.py: no description, uploaded within half an
      hour, created within two days, and a district that contains one of
      the names (`LIKE`, so case matters). There is no name filter. */
  predicate LegacySelected(r: Row, now: int) {
    MissingDescription(r)
    && r.upload.Some? && r.upload.value >= now - HalfHour
    && r.createdAt.Some? && r.createdAt.value >= now - 2 * OneDay
    && r.district.Some? && exists i :: 0 <= i < |Districts| && Contains(r.district.value, Districts[i])
  }

  /** `ids` is an answer the database may give: every selected row once and
      nothing else, in no particular order (there is no `ORDER BY`). */
  predicate IsLegacyQueryResult(t: Table, now: int, ids: seq<string>) {
    (forall i, j :: 0 <= i < j < |ids| ==> ids[i] != ids[j])
    && (forall i :: 0 <= i < |ids| ==> ids[i] in t && LegacySelected(t[ids[i]], now))
    && (forall k :: k in t && LegacySelected(t[k], now) ==> k in ids)
  }

  /** A case-sensitive match is also a case-insensitive one. */
  lemma ContainsFolds(s: string, p: string)
    requires Contains(s, p)
    ensures ContainsFolded(s, p)
  {
    var i :| 0 <= i <= |s| - |p| && OccursAt(s, p, i);
    var ls, lp := Lower(s), Lower(p);
    forall k | 0 <= k < |p| ensures ls[i..i + |p|][k] == lp[k] {
      assert s[i + k] == p[k];
    }
    assert ls[i..i + |p|] == lp;
    assert OccursAt(ls, lp, i);
  }

  /** bot.py's choice is narrower than bot/scraper.py's on the district, and
      coincides with it once the row also passes the name filter and was
      created within a day. */
  lemma LegacyWithinScraperSelection(r: Row, now: int)
    requires LegacySelected(r, now) && NotExcluded(r)
    requires r.createdAt.value >= now - OneDay
    ensures Selected(r, now)
  {
    var i :| 0 <= i < |Districts| && Contains(r.district.value, Districts[i]);
    ContainsFolds(r.district.value, Districts[i]);
  }

  /** A row only touched by the check-and-touch has no upload or creation
      time and is never chosen. */
  lemma StubNotLegacySelected(t: Table, id: string, now: int, later: int)
    requires id !in t
    ensures !LegacySelected(Touch(t, id, now)[id], later)
  {
  }

  // ------------------------------------------------------------ one listing

  /** The advert page as the loop meets it: the request times out, which
      the loop logs and skips without a pause; the request or a lookup
      raises anything else, after which the loop sleeps; or the page opens, with the inactive banner's text, the description
      block's inner HTML (`None` when it does not appear within the wait),
      the `src` of each slider image, the order in which the set of those
      sources is listed, and whether the database statement fails. */
  datatype DetailView =
    | OpenTimesOut
    | OpenRaises
    | Opened(inactiveMsg: Option<string>, descriptionHtml: Option<string>,
             srcs: seq<Option<string>>, listed: seq<Option<string>>, dbFault: bool)

  /** `listed` is `list(set(srcs))` in one of its orders. */
  ghost predicate ListedFrom(srcs: seq<Option<string>>, listed: seq<Option<string>>) {
    (forall i, j :: 0 <= i < j < |listed| ==> listed[i] != listed[j])
    && (forall x :: x in listed <==> x in srcs)
  }

  /** `img_urls[0] if img_urls else None`. */
  function FirstListed(listed: seq<Option<string>>): Option<string> {
    if listed == [] then None else listed[0]
  }

  /** The first image bot.py keeps is a source some slider image carries,
      and there is none exactly when the slider has no image with a
      `src`. */
  lemma FirstListedSpec(srcs: seq<Option<string>>, listed: seq<Option<string>>)
    requires ListedFrom(srcs, listed)
    ensures FirstListed(listed).Some? ==> FirstListed(listed) in srcs
    ensures srcs == [] ==> FirstListed(listed).None?
    ensures (forall k :: 0 <= k < |srcs| ==> srcs[k] == srcs[0]) && srcs != [] ==> FirstListed(listed) == srcs[0]
  {
    if listed != [] {
      assert listed[0] in listed;
    }
    if srcs != [] {
      assert srcs[0] in srcs;
      assert listed != [];
      assert listed[0] in listed;
    }
  }

  /** What the loop does besides writing the table. */
  datatype Note =
    | Posted(delivery: Delivery)
    | Paused(seconds: int)

  datatype Round = Round(table: Table, notes: seq<Note>)

  predicate InactiveView(v: DetailView) {
    v.Opened? && v.inactiveMsg.Some? && Contains(v.inactiveMsg.value, InactiveMarker)
  }

  /** One pass of the loop body for the selected listing `l`. */
  function UpdateStep(t: Table, l: Listing, v: DetailView): Round {
    match v
    case OpenTimesOut => Round(t, [])
    case OpenRaises => Round(t, [Paused(RetryPause)])
    case Opened(_, html, _, listed, dbFault) =>
      if InactiveView(v) then
        if dbFault then Round(t, [Paused(RetryPause)]) else Round(MarkedUnavailable(t, l.id), [])
      else if html.None? then Round(t, [])
      else if dbFault then Round(t, [Paused(RetryPause)])
      else
        var description := CleanDescription(html.value);
        var first := FirstListed(listed);
        var message := MessageText(l.name, l.district, l.price, description, AdvertUrl(l.id));
        Round(SetDetails(t, l.id, description, first), [Posted(DeliveryOf(message, first))])
  }

  /** One pass writes at most the listing's own row and leaves at most one
      note. */
  lemma UpdateStepWrites(t: Table, l: Listing, v: DetailView)
    ensures var o := UpdateStep(t, l, v);
      o.table.Keys == t.Keys && OthersUnchanged(t, o.table, l.id) && |o.notes| <= 1
  {
  }

  /** A post carries what was just stored: the message is built from the
      stored description, and it is a photo exactly when the stored image
      URL is present and not empty, that URL being the photo's. */
  lemma PostedMatchesRow(t: Table, l: Listing, v: DetailView, d: Delivery)
    requires l.id in t
    requires Posted(d) in UpdateStep(t, l, v).notes
    ensures var row := UpdateStep(t, l, v).table[l.id];
      row.description.Some?
      && Body(d) == MessageText(l.name, l.district, l.price, row.description.value, AdvertUrl(l.id))
      && (d.Photo? <==> row.imgUrl.Some? && row.imgUrl.value != "")
      && (d.Photo? ==> d.photoUrl == row.imgUrl.value)
      && row.description == Some(CleanDescription(v.descriptionHtml.value))
  {
  }

  /** A post of a page with some visible text takes the listing out of the
      next selection. */
  lemma PostedNotReselected(t: Table, l: Listing, v: DetailView, d: Delivery, later: int)
    requires l.id in t
    requires Posted(d) in UpdateStep(t, l, v).notes
    requires v.Opened? && v.descriptionHtml.Some?
    requires Visible(StripTags(Strip(v.descriptionHtml.value))) != ""
    ensures !LegacySelected(UpdateStep(t, l, v).table[l.id], later)
  {
    var html := v.descriptionHtml.value;
    PostedMatchesRow(t, l, v, d);
    CleanDescriptionSpec(html);
    assert CleanDescription(html) != "";
  }

  /** A page whose description block is blank is posted, yet stores `''`,
      which the `WHERE` clause treats as missing: a listing still inside the
      half-hour window is posted again by the next run. */
  lemma BlankPageReposted(t: Table, l: Listing, v: DetailView, now: int)
    requires l.id in t && LegacySelected(t[l.id], now)
    requires v.Opened? && !InactiveView(v) && !v.dbFault && v.descriptionHtml.Some?
    requires forall i :: 0 <= i < |v.descriptionHtml.value| ==> IsSpace(v.descriptionHtml.value[i])
    ensures var o := UpdateStep(t, l, v);
      |o.notes| == 1 && o.notes[0].Posted? && LegacySelected(o.table[l.id], now)
  {
    BlankHtmlCleansToEmpty(v.descriptionHtml.value);
  }

  /** An advert OLX reports as gone is marked so and not posted; a page
      that does not load in time, or whose description never appears, is
      skipped without a pause; one whose request raises otherwise, or
      whose statement fails, leaves the table as it was and pauses. */
  lemma UpdateStepCases(t: Table, l: Listing, v: DetailView, later: int)
    requires l.id in t
    ensures InactiveView(v) && !v.dbFault ==>
      UpdateStep(t, l, v) == Round(MarkedUnavailable(t, l.id), [])
      && !LegacySelected(UpdateStep(t, l, v).table[l.id], later)
    ensures v.OpenTimesOut? || (v.Opened? && !InactiveView(v) && v.descriptionHtml.None?) ==>
      UpdateStep(t, l, v) == Round(t, [])
    ensures v.OpenRaises? || (v.Opened? && v.dbFault && (InactiveView(v) || v.descriptionHtml.Some?)) ==>
      UpdateStep(t, l, v) == Round(t, [Paused(RetryPause)])
  {
  }

  /** The loop body for one listing. */
  method UpdateListing(store: ListingStore, l: Listing, v: DetailView) returns (notes: seq<Note>)
    modifies store
    ensures store.rows == UpdateStep(old(store.rows), l, v).table
    ensures notes == UpdateStep(old(store.rows), l, v).notes
  {
    if v.OpenTimesOut? {
      return [];
    }
    if v.OpenRaises? {
      return [Paused(RetryPause)];
    }
    if InactiveView(v) {
      if v.dbFault {
        return [Paused(RetryPause)];
      }
      store.MarkUnavailable(l.id);
      return [];
    }
    if v.descriptionHtml.None? {
      return [];
    }
    if v.dbFault {
      return [Paused(RetryPause)];
    }
    var description := CleanDescription(v.descriptionHtml.value);
    var first := if v.listed != [] then v.listed[0] else None;
    store.StoreDetails(l.id, description, first);
    var message := MessageText(l.name, l.district, l.price, description, AdvertUrl(l.id));
    notes := [Posted(DeliveryOf(message, first))];
  }

  // ------------------------------------------------------------ whole run

  function ViewAt(views: seq<DetailView>, k: int): DetailView {
    if 0 <= k < |views| then views[k] else OpenRaises
  }

  /** The listings `ids` processed in order, each from the row the
      `SELECT` returned. */
  function UpdateAll(t: Table, snapshot: Table, ids: seq<string>, views: seq<DetailView>): Round
    requires forall i :: 0 <= i < |ids| ==> ids[i] in snapshot
    decreases |ids|
  {
    if ids == [] then Round(t, [])
    else
      var n := |ids| - 1;
      var before := UpdateAll(t, snapshot, ids[..n], views);
      var step := UpdateStep(before.table, ListingOf(snapshot, ids[n]), ViewAt(views, n));
      Round(step.table, before.notes + step.notes)
  }

  /** Rows that were not selected keep their content through the run, and
      the run leaves at most one note per listing. */
  lemma {:induction false} UpdateAllWrites(t: Table, snapshot: Table, ids: seq<string>, views: seq<DetailView>, k: string)
    requires forall i :: 0 <= i < |ids| ==> ids[i] in snapshot
    requires k !in ids
    ensures var o := UpdateAll(t, snapshot, ids, views);
      o.table.Keys == t.Keys && (k in t ==> o.table[k] == t[k]) && |o.notes| <= |ids|
    decreases |ids|
  {
    if ids != [] {
      var n := |ids| - 1;
      assert forall i :: 0 <= i < n ==> ids[..n][i] == ids[i];
      assert k !in ids[..n];
      UpdateAllWrites(t, snapshot, ids[..n], views, k);
      var before := UpdateAll(t, snapshot, ids[..n], views);
      UpdateStepWrites(before.table, ListingOf(snapshot, ids[n]), ViewAt(views, n));
    }
  }

  /** `update_missing_descriptions_and_images(cursor, conn, driver)` given
      the answer `ids` of its `SELECT` and the page each advert shows. */
  method LegacyUpdateMissing(store: ListingStore, now: int, ids: seq<string>, views: seq<DetailView>)
    returns (notes: seq<Note>)
    requires IsLegacyQueryResult(store.rows, now, ids)
    modifies store
    ensures var o := UpdateAll(old(store.rows), old(store.rows), ids, views);
      store.rows == o.table && notes == o.notes
  {
    var snapshot := store.rows;
    notes := [];
    var i := 0;
    while i < |ids|
      invariant 0 <= i <= |ids|
      invariant forall j :: 0 <= j < |ids| ==> ids[j] in snapshot
      invariant var o := UpdateAll(snapshot, snapshot, ids[..i], views);
        store.rows == o.table && notes == o.notes
    {
      var l := Listing(ids[i], snapshot[ids[i]].name, snapshot[ids[i]].district, snapshot[ids[i]].price);
      var step := UpdateListing(store, l, ViewAt(views, i));
      notes := notes + step;
      assert ids[..i + 1][..i] == ids[..i];
      i := i + 1;
    }
    assert ids[..|ids|] == ids;
  }
}
