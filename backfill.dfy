/**
 * `update_missing_descriptions_and_images` of bot/scraper.py: select the
 * recent listings of the wanted districts that still lack a description,
 * then for each one fetch its page (at most twice), store the description
 * and first image or mark the advert gone, and announce it.
 */
module Backfill {
  import opened Wrappers
  import opened Text
  import opened Store
  import opened Crawler
  import opened Gallery

  // ------------------------------------------------------------ selection

  /** The districts of the `ILIKE` filter, Ukrainian and Russian spellings. */
  const Districts: seq<string> := [
    "Оболонський", "Оболонский", "Подільський", "Подольский",
    "Шевченківський", "Шевченковский", "Печерський", "Печерский",
    "Солом'янський", "Соломенский", "Голосіївський", "Голосеевский"]

  /** Housing complexes excluded by the `lower(name) NOT LIKE` filters. */
  const Excluded: seq<string> := [
    "ракетна", "світлопарк", "svitlopark", "навігатор", "навигатор",
    "паркове місто", "медовий", "новомост", "варшавс", "англія", "англия",
    "караває", "каравае", "британс", "orange", "нау", "швидкісни",
    "виноградар"]

  const OneDay: int := 86400

  predicate MissingDescription(r: Row) {
    r.description.None? || r.description.value == ""
  }

  predicate RecentlyCreated(r: Row, now: int) {
    r.createdAt.Some? && r.createdAt.value >= now - OneDay
  }

  predicate WantedDistrict(r: Row) {
    r.district.Some? && exists i :: 0 <= i < |Districts| && ContainsFolded(r.district.value, Districts[i])
  }

  predicate NotExcluded(r: Row) {
    r.name.Some? && forall i :: 0 <= i < |Excluded| ==> !Contains(Lower(r.name.value), Excluded[i])
  }

  /** The `WHERE` clause with SQL's NULL rules: a comparison with NULL is
      not true, so a row whose `created_at_dt`, `district` or `name` is NULL
      is never chosen. */
  predicate Selected(r: Row, now: int) {
    MissingDescription(r) && RecentlyCreated(r, now) && WantedDistrict(r) && NotExcluded(r)
  }

  /** `ORDER BY upload_dt` ascending, NULLs last. */
  predicate UploadNoLater(a: Option<int>, b: Option<int>) {
    b.None? || (a.Some? && a.value <= b.value)
  }

  /** `ids` is an answer the database may give to the `SELECT`: every
      selected row once, nothing else, in upload order (ties in any order). */
  predicate IsQueryResult(t: Table, now: int, ids: seq<string>) {
    (forall i, j :: 0 <= i < j < |ids| ==> ids[i] != ids[j])
    && (forall i :: 0 <= i < |ids| ==> ids[i] in t && Selected(t[ids[i]], now))
    && (forall k :: k in t && Selected(t[k], now) ==> k in ids)
    && (forall i, j :: 0 <= i < j < |ids| ==> UploadNoLater(t[ids[i]].upload, t[ids[j]].upload))
  }

  /** The check-and-touch of a new id leaves a row the backfill never
      picks: its `created_at_dt` is NULL. */
  lemma StubNotSelected(t: Table, id: string, now: int, later: int)
    requires id !in t
    ensures !Selected(Touch(t, id, now)[id], later)
  {
  }

  /** Once a page was stored with a non-empty description, or the advert
      was marked gone, the row is not picked again. */
  lemma DetailsLeaveSelection(t: Table, id: string, description: string, imgUrl: Option<string>, now: int)
    requires id in t && description != ""
    ensures !Selected(SetDetails(t, id, description, imgUrl)[id], now)
    ensures !Selected(MarkedUnavailable(t, id)[id], now)
  {
  }

  /** A description block whose text nodes are all blank stores `''`, which
      the `WHERE` clause treats as missing: the row stays selectable. */
  lemma BlankDescriptionStaysSelected(t: Table, id: string, nodes: seq<string>, imgUrl: Option<string>, now: int)
    requires id in t && Selected(t[id], now)
    requires forall i :: 0 <= i < |nodes| ==> Strip(nodes[i]) == []
    ensures Selected(SetDetails(t, id, ParseDescription(Some(DescriptionBlock(Some(nodes)))), imgUrl)[id], now)
  {
    BlankNodesText(nodes);
  }

  lemma {:induction false} BlankNodesText(nodes: seq<string>)
    requires forall i :: 0 <= i < |nodes| ==> Strip(nodes[i]) == []
    ensures StrippedNodes(nodes) == []
  {
    if nodes != [] {
      assert Strip(nodes[0]) == [];
      BlankNodesText(nodes[1..]);
    }
  }

  // ------------------------------------------------------------ one listing

  /** The columns the `SELECT` returns for one listing. */
  datatype Listing = Listing(id: string, name: Option<string>, district: Option<string>, price: Option<string>)

  function ListingOf(t: Table, id: string): Listing
    requires id in t
  {
    Listing(id, t[id].name, t[id].district, t[id].price)
  }

  /** The detail page: the inactive-advert banner, the description block
      and the slider images. */
  datatype DetailPage = DetailPage(
    inactiveMsg: Option<string>,
    description: Option<DescriptionBlock>,
    slider: seq<ImgTag>)

  /** One attempt: the page request raises, or the page arrives together
      with the outcome of each image download and whether sending the
      message raises. */
  datatype Attempt =
    | RequestRaises
    | Loaded(page: DetailPage, downloads: seq<Option<Thumb>>, sendRaises: bool)

  function AttemptAt(attempts: seq<Attempt>, k: int): Attempt {
    if 0 <= k < |attempts| then attempts[k] else RequestRaises
  }

  const InactiveMarker: string := "Це оголошення більше не доступне"
  const MaxImages: int := 6
  const RetryPause: int := 3
  const Attempts: int := 2

  predicate IsInactive(page: DetailPage) {
    page.inactiveMsg.Some? && Contains(page.inactiveMsg.value, InactiveMarker)
  }

  function AdvertUrl(id: string): string {
    "https://www.olx.ua/" + id
  }

  /** The arguments of one `send_message` call. */
  datatype Message = Message(
    name: Option<string>,
    district: Option<string>,
    price: Option<string>,
    description: string,
    url: string,
    collage: Option<Collage>)

  /** What the backfill does besides writing the table. */
  datatype Event =
    | Sent(msg: Message)
    | SendRaised(msg: Message)
    | Slept(seconds: int)

  /** The first slider image, stored as `img_url`. */
  function FirstImage(urls: seq<string>): Option<string> {
    if urls == [] then None else Some(urls[0])
  }

  /** The message built from a loaded page. */
  function MessageFor(l: Listing, page: DetailPage, downloads: seq<Option<Thumb>>): Message {
    var urls := SliderUrls(page.slider);
    var images := Downloaded(|SliceTo(urls, MaxImages)|, downloads);
    Message(l.name, l.district, l.price, ParseDescription(page.description), AdvertUrl(l.id),
            CollageOf(images, 3, 5))
  }

  datatype Outcome = Outcome(table: Table, events: seq<Event>, used: nat)

  /** What one attempt leaves behind: the table, the events, and whether
      the loop ends (`break`) after it. */
  datatype Step = Step(table: Table, events: seq<Event>, done: bool)

  /** Attempt `k` of the retry loop for listing `l`. A request that raises
      pauses after the first attempt; a gone advert is marked and ends the
      loop; otherwise the row is updated and the message sent, and a send
      that raises counts as a failed attempt. */
  function AttemptEffect(t: Table, l: Listing, a: Attempt, k: nat): Step {
    var pause := if k == 0 then [Slept(RetryPause)] else [];
    match a
    case RequestRaises => Step(t, pause, false)
    case Loaded(page, downloads, sendRaises) =>
      if IsInactive(page) then Step(MarkedUnavailable(t, l.id), [], true)
      else
        var msg := MessageFor(l, page, downloads);
        var t' := SetDetails(t, l.id, msg.description, FirstImage(SliderUrls(page.slider)));
        if sendRaises then Step(t', [SendRaised(msg)] + pause, false)
        else Step(t', [Sent(msg)], true)
  }

  /** Attempts `k` onwards of the retry loop for listing `l`. */
  function Retry(t: Table, l: Listing, attempts: seq<Attempt>, k: nat): Outcome
    decreases Attempts - k
  {
    if k >= Attempts then Outcome(t, [], k)
    else
      var s := AttemptEffect(t, l, AttemptAt(attempts, k), k);
      if s.done then Outcome(s.table, s.events, k + 1)
      else
        var rest := Retry(s.table, l, attempts, k + 1);
        Outcome(rest.table, s.events + rest.events, rest.used)
  }

  function CountSent(events: seq<Event>): nat {
    if events == [] then 0 else (if events[0].Sent? then 1 else 0) + CountSent(events[1..])
  }

  function CountSlept(events: seq<Event>): nat {
    if events == [] then 0 else (if events[0].Slept? then 1 else 0) + CountSlept(events[1..])
  }

  lemma {:induction false} CountAppend(a: seq<Event>, b: seq<Event>)
    ensures CountSent(a + b) == CountSent(a) + CountSent(b)
    ensures CountSlept(a + b) == CountSlept(a) + CountSlept(b)
    decreases |a|
  {
    if a != [] {
      var ab := a + b;
      assert ab[0] == a[0] && ab[1..] == a[1..] + b;
      CountAppend(a[1..], b);
    } else {
      assert a + b == b;
    }
  }

  /** The attempt `k` failed, by the request or by the send. */
  predicate Failed(attempts: seq<Attempt>, k: int) {
    var a := AttemptAt(attempts, k);
    a.RequestRaises? || (!IsInactive(a.page) && a.sendRaises)
  }

  /** One attempt writes only the listing's own row. */
  lemma AttemptWrites(t: Table, l: Listing, a: Attempt, k: nat)
    ensures var st := AttemptEffect(t, l, a, k);
      st.table.Keys == t.Keys && OthersUnchanged(t, st.table, l.id)
  {
  }

  /** The retry loop makes at most two attempts and writes only the
      listing's own row. */
  lemma {:induction false} RetryWrites(t: Table, l: Listing, attempts: seq<Attempt>, k: nat)
    requires k <= Attempts
    ensures var o := Retry(t, l, attempts, k);
      k <= o.used <= Attempts && o.table.Keys == t.Keys && OthersUnchanged(t, o.table, l.id)
    decreases Attempts - k
  {
    if k < Attempts {
      RetryUnfold(t, l, attempts, k);
      AttemptWrites(t, l, AttemptAt(attempts, k), k);
      var st := AttemptEffect(t, l, AttemptAt(attempts, k), k);
      if !st.done {
        RetryWrites(st.table, l, attempts, k + 1);
      }
    }
  }

  /** The last attempt neither pauses nor sends more than one message. */
  lemma LastAttemptEvents(t: Table, l: Listing, attempts: seq<Attempt>)
    ensures var o := Retry(t, l, attempts, Attempts - 1);
      CountSent(o.events) <= 1 && CountSlept(o.events) == 0
  {
    var o := Retry(t, l, attempts, Attempts - 1);
    var a := AttemptAt(attempts, Attempts - 1);
    assert Retry(t, l, attempts, Attempts).events == [];
    if a.Loaded? && !IsInactive(a.page) {
      var msg := MessageFor(l, a.page, a.downloads);
      if a.sendRaises {
        assert o.events == [SendRaised(msg)];
      } else {
        assert o.events == [Sent(msg)];
      }
      assert o.events[1..] == [];
    }
  }

  /** The retry loop sends at most one message and pauses exactly once,
      three seconds, when the first attempt fails. */
  lemma RetryEvents(t: Table, l: Listing, attempts: seq<Attempt>)
    ensures var o := Retry(t, l, attempts, 0);
      CountSent(o.events) <= 1
      && CountSlept(o.events) == (if Failed(attempts, 0) then 1 else 0)
  {
    var a := AttemptAt(attempts, 0);
    var pause: seq<Event> := [Slept(RetryPause)];
    assert pause[1..] == [];
    if a.RequestRaises? {
      var rest := Retry(t, l, attempts, 1);
      LastAttemptEvents(t, l, attempts);
      CountAppend(pause, rest.events);
    } else if !IsInactive(a.page) {
      var msg := MessageFor(l, a.page, a.downloads);
      var t' := SetDetails(t, l.id, msg.description, FirstImage(SliderUrls(a.page.slider)));
      var first: seq<Event> := if a.sendRaises then [SendRaised(msg)] else [Sent(msg)];
      assert first[1..] == [];
      if a.sendRaises {
        var rest := Retry(t', l, attempts, 1);
        LastAttemptEvents(t', l, attempts);
        CountAppend(pause, rest.events);
        CountAppend(first, pause + rest.events);
      }
    }
  }

  /** An advert OLX reports as gone on the first try is marked so, nothing
      is sent and there is no second request. */
  lemma InactiveAdvert(t: Table, l: Listing, attempts: seq<Attempt>)
    requires AttemptAt(attempts, 0).Loaded? && IsInactive(AttemptAt(attempts, 0).page)
    ensures Retry(t, l, attempts, 0) == Outcome(MarkedUnavailable(t, l.id), [], 1)
  {
  }

  /** A first attempt that goes through stores the description and first
      image and sends exactly one message carrying them. */
  lemma FirstAttemptSucceeds(t: Table, l: Listing, attempts: seq<Attempt>)
    requires AttemptAt(attempts, 0).Loaded? && !IsInactive(AttemptAt(attempts, 0).page)
    requires !AttemptAt(attempts, 0).sendRaises
    ensures var a := AttemptAt(attempts, 0);
      var o := Retry(t, l, attempts, 0);
      o.used == 1
      && o.table == SetDetails(t, l.id, ParseDescription(a.page.description), FirstImage(SliderUrls(a.page.slider)))
      && o.events == [Sent(MessageFor(l, a.page, a.downloads))]
  {
  }

  /** Two failed requests leave the table as it was, after one pause. */
  lemma BothRequestsFail(t: Table, l: Listing, attempts: seq<Attempt>)
    requires AttemptAt(attempts, 0).RequestRaises? && AttemptAt(attempts, 1).RequestRaises?
    ensures Retry(t, l, attempts, 0) == Outcome(t, [Slept(RetryPause)], 2)
  {
  }

  /** A send that raises after the update is retried: the second attempt
      requests the page again and writes the row again. */
  lemma SendFailureRetries(t: Table, l: Listing, attempts: seq<Attempt>)
    requires AttemptAt(attempts, 0).Loaded? && !IsInactive(AttemptAt(attempts, 0).page)
    requires AttemptAt(attempts, 0).sendRaises
    requires AttemptAt(attempts, 1).Loaded? && !IsInactive(AttemptAt(attempts, 1).page)
    requires !AttemptAt(attempts, 1).sendRaises
    ensures var a := AttemptAt(attempts, 0);
      var b := AttemptAt(attempts, 1);
      var o := Retry(t, l, attempts, 0);
      o.used == 2
      && o.events == [SendRaised(MessageFor(l, a.page, a.downloads)), Slept(RetryPause), Sent(MessageFor(l, b.page, b.downloads))]
  {
  }

  /** What one loaded, available page yields: the message and the first
      image URL. */
  method ReadPage(l: Listing, page: DetailPage, downloads: seq<Option<Thumb>>)
    returns (msg: Message, first: Option<string>)
    ensures msg == MessageFor(l, page, downloads)
    ensures first == FirstImage(SliderUrls(page.slider))
  {
    var description := ParseDescription(page.description);
    var urls := GetAllSliderImages(page.slider);
    var images := DownloadImages(urls, downloads, MaxImages);
    var collage := None;
    if images != [] {
      collage := CreateCollage(images, 3, 5);
    }
    first := if urls != [] then Some(urls[0]) else None;
    msg := Message(l.name, l.district, l.price, description, AdvertUrl(l.id), collage);
  }

  /** One attempt, then the attempts after it unless the loop breaks. */
  lemma RetryUnfold(t: Table, l: Listing, attempts: seq<Attempt>, k: nat)
    requires k < Attempts
    ensures var st := AttemptEffect(t, l, AttemptAt(attempts, k), k);
      var o := Retry(t, l, attempts, k);
      (st.done ==> o == Outcome(st.table, st.events, k + 1))
      && (!st.done ==> var rest := Retry(st.table, l, attempts, k + 1);
                       o == Outcome(rest.table, st.events + rest.events, rest.used))
  {
  }

  /** The loop of `BackfillListing` after attempt `k`: the events so far
      and what remains still add up to the whole retry loop. */
  lemma RetryLoopStep(whole: Outcome, t: Table, l: Listing, attempts: seq<Attempt>, k: nat, events: seq<Event>)
    requires k < Attempts
    requires whole == var o := Retry(t, l, attempts, k); Outcome(o.table, events + o.events, o.used)
    ensures var st := AttemptEffect(t, l, AttemptAt(attempts, k), k);
      (st.done ==> whole.table == st.table && whole.events == events + st.events)
      && (!st.done ==> whole == var o := Retry(st.table, l, attempts, k + 1);
                                Outcome(o.table, (events + st.events) + o.events, o.used))
  {
    RetryUnfold(t, l, attempts, k);
    var st := AttemptEffect(t, l, AttemptAt(attempts, k), k);
    if !st.done {
      var rest := Retry(st.table, l, attempts, k + 1);
      assert events + (st.events + rest.events) == (events + st.events) + rest.events;
    }
  }

  /** The body of `for attempt in range(2)` for one attempt; `done` is
      whether the loop breaks after it. */
  method TryAttempt(store: ListingStore, l: Listing, a: Attempt, k: nat) returns (events: seq<Event>, done: bool)
    modifies store
    ensures var st := AttemptEffect(old(store.rows), l, a, k);
      store.rows == st.table && events == st.events && done == st.done
  {
    var pause: seq<Event> := if k == 0 then [Slept(RetryPause)] else [];
    if a.RequestRaises? {
      return pause, false;
    }
    if IsInactive(a.page) {
      store.MarkUnavailable(l.id);
      return [], true;
    }
    var msg, first := ReadPage(l, a.page, a.downloads);
    store.StoreDetails(l.id, msg.description, first);
    if a.sendRaises {
      events, done := [SendRaised(msg)] + pause, false;
    } else {
      events, done := [Sent(msg)], true;
    }
  }

  /** Attempt loop for one listing (`for attempt in range(2)`). */
  method BackfillListing(store: ListingStore, l: Listing, attempts: seq<Attempt>) returns (events: seq<Event>)
    modifies store
    ensures var o := Retry(old(store.rows), l, attempts, 0);
      store.rows == o.table && events == o.events
  {
    var k := 0;
    events := [];
    ghost var whole := Retry(store.rows, l, attempts, 0);
    assert whole.events == events + whole.events;
    while k < Attempts
      invariant 0 <= k <= Attempts
      invariant whole == var o := Retry(store.rows, l, attempts, k); Outcome(o.table, events + o.events, o.used)
    {
      RetryLoopStep(whole, store.rows, l, attempts, k, events);
      var more, done := TryAttempt(store, l, AttemptAt(attempts, k), k);
      events := events + more;
      if done {
        return;
      }
      k := k + 1;
    }
    assert events + [] == events;
  }

  // ------------------------------------------------------------ whole run

  /** The listings `ids` processed in order, each from the row the
      `SELECT` returned. */
  function BackfillAll(t: Table, snapshot: Table, ids: seq<string>, inputs: seq<seq<Attempt>>): (o: Outcome)
    requires forall i :: 0 <= i < |ids| ==> ids[i] in snapshot
    decreases |ids|
  {
    if ids == [] then Outcome(t, [], 0)
    else
      var n := |ids| - 1;
      var before := BackfillAll(t, snapshot, ids[..n], inputs);
      var attempts := if n < |inputs| then inputs[n] else [];
      var step := Retry(before.table, ListingOf(snapshot, ids[n]), attempts, 0);
      Outcome(step.table, before.events + step.events, before.used + step.used)
  }

  /** Rows that were not selected keep their content through the whole
      run. */
  lemma {:induction false} UnselectedUntouched(t: Table, snapshot: Table, ids: seq<string>, inputs: seq<seq<Attempt>>, k: string)
    requires forall i :: 0 <= i < |ids| ==> ids[i] in snapshot
    requires k !in ids
    ensures BackfillAll(t, snapshot, ids, inputs).table.Keys == t.Keys
    ensures k in t ==> BackfillAll(t, snapshot, ids, inputs).table[k] == t[k]
    decreases |ids|
  {
    if ids != [] {
      var n := |ids| - 1;
      assert forall i :: 0 <= i < n ==> ids[..n][i] == ids[i];
      assert k !in ids[..n] && k != ids[n];
      UnselectedUntouched(t, snapshot, ids[..n], inputs, k);
      var before := BackfillAll(t, snapshot, ids[..n], inputs);
      var attempts := if n < |inputs| then inputs[n] else [];
      var l := ListingOf(snapshot, ids[n]);
      var step := Retry(before.table, l, attempts, 0);
      assert BackfillAll(t, snapshot, ids, inputs).table == step.table;
      RetryWrites(before.table, l, attempts, 0);
      assert l.id == ids[n];
      if k in t {
        assert k in before.table && step.table[k] == before.table[k];
      }
    }
  }

  /** At most one message per selected listing, and at most two requests
      per listing. */
  lemma {:induction false} BackfillBounds(t: Table, snapshot: Table, ids: seq<string>, inputs: seq<seq<Attempt>>)
    requires forall i :: 0 <= i < |ids| ==> ids[i] in snapshot
    ensures CountSent(BackfillAll(t, snapshot, ids, inputs).events) <= |ids|
    ensures BackfillAll(t, snapshot, ids, inputs).used <= Attempts * |ids|
    decreases |ids|
  {
    if ids != [] {
      var n := |ids| - 1;
      BackfillBounds(t, snapshot, ids[..n], inputs);
      var before := BackfillAll(t, snapshot, ids[..n], inputs);
      var attempts := if n < |inputs| then inputs[n] else [];
      var step := Retry(before.table, ListingOf(snapshot, ids[n]), attempts, 0);
      RetryWrites(before.table, ListingOf(snapshot, ids[n]), attempts, 0);
      RetryEvents(before.table, ListingOf(snapshot, ids[n]), attempts);
      CountAppend(before.events, step.events);
    }
  }

  /** The run over the first `i + 1` listings is the run over the first
      `i` followed by the retry loop of listing `i`. */
  lemma BackfillAllStep(t: Table, snapshot: Table, ids: seq<string>, inputs: seq<seq<Attempt>>, i: nat)
    requires i < |ids| && forall j :: 0 <= j < |ids| ==> ids[j] in snapshot
    ensures var before := BackfillAll(t, snapshot, ids[..i], inputs);
      var step := Retry(before.table, ListingOf(snapshot, ids[i]), if i < |inputs| then inputs[i] else [], 0);
      BackfillAll(t, snapshot, ids[..i + 1], inputs)
        == Outcome(step.table, before.events + step.events, before.used + step.used)
  {
    assert ids[..i + 1][..i] == ids[..i];
  }

  /** `update_missing_descriptions_and_images()` at the instant `now`: `ids`
      is the database's answer to the `SELECT`, `inputs[i]` what the
      attempts for listing `i` meet. */
  method UpdateMissing(store: ListingStore, now: int, ids: seq<string>, inputs: seq<seq<Attempt>>)
    returns (events: seq<Event>)
    requires IsQueryResult(store.rows, now, ids)
    modifies store
    ensures var o := BackfillAll(old(store.rows), old(store.rows), ids, inputs);
      store.rows == o.table && events == o.events
  {
    var snapshot := store.rows;
    var listings := seq(|ids|, i requires 0 <= i < |ids| => ListingOf(snapshot, ids[i]));
    events := [];
    ghost var used: nat := 0;
    var i := 0;
    while i < |ids|
      invariant 0 <= i <= |ids|
      invariant BackfillAll(snapshot, snapshot, ids[..i], inputs) == Outcome(store.rows, events, used)
    {
      var attempts := if i < |inputs| then inputs[i] else [];
      BackfillAllStep(snapshot, snapshot, ids, inputs, i);
      ghost var step := Retry(store.rows, listings[i], attempts, 0);
      var more := BackfillListing(store, listings[i], attempts);
      used := used + step.used;
      events := events + more;
      i := i + 1;
    }
    assert ids[..i] == ids;
  }
}
