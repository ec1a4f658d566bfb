/**
 * The `listings` table (bot/db.py) and the statements the scrapers run
 * against it. A row is keyed by its `id` (the PRIMARY KEY), so the table is
 * a map from id to the other eight columns; SQL NULL is `None`, and every
 * TIMESTAMPTZ is seconds since the Unix epoch.
 */
module Store {
  import opened Wrappers

  datatype Row = Row(
    name: Option<string>,
    price: Option<string>,
    district: Option<string>,
    imgUrl: Option<string>,
    description: Option<string>,
    lastSeen: Option<int>,
    upload: Option<int>,
    createdAt: Option<int>)

  type Table = map<string, Row>

  /** What `INSERT INTO listings (id, last_seen_dt)` leaves in the other
      columns: NULL. */
  function Stub(now: int): Row {
    Row(None, None, None, None, None, Some(now), None, None)
  }

  predicate IsStub(r: Row) {
    r.name.None? && r.price.None? && r.district.None? && r.imgUrl.None?
    && r.description.None? && r.upload.None? && r.createdAt.None?
  }

  /** `b` is `a` with at most `last_seen_dt` changed. */
  predicate SameButLastSeen(a: Row, b: Row) {
    a.name == b.name && a.price == b.price && a.district == b.district
    && a.imgUrl == b.imgUrl && a.description == b.description
    && a.upload == b.upload && a.createdAt == b.createdAt
  }

  /** Every row other than `id` is as it was, and no row appears or
      disappears except possibly `id`. */
  ghost predicate OthersUnchanged(t: Table, t': Table, id: string) {
    (forall k :: k != id ==> (k in t <==> k in t'))
    && (forall k :: k in t && k != id ==> t'[k] == t[k])
  }

  /** The check-and-touch of `is_new_listing`: a stub when the id is
      absent, otherwise only `last_seen_dt` moves to `now`. */
  function Touch(t: Table, id: string, now: int): (t': Table)
    ensures id in t' && t'[id].lastSeen == Some(now)
    ensures OthersUnchanged(t, t', id)
    ensures id !in t ==> IsStub(t'[id]) && |t'| == |t| + 1
    ensures id in t ==> SameButLastSeen(t[id], t'[id]) && |t'| == |t|
  {
    if id in t then t[id := t[id].(lastSeen := Some(now))]
    else t[id := Stub(now)]
  }

  /** The column values of one card upsert. */
  datatype CardValues = CardValues(
    name: Option<string>,
    price: Option<string>,
    district: Option<string>,
    imgUrl: Option<string>,
    now: int,
    createdAt: Option<int>)

  /** `INSERT … ON CONFLICT (id) DO UPDATE SET …`: a fresh row with NULL
      description, or every column but `description` refreshed;
      `last_seen_dt` and `upload_dt` both take `now`. */
  function Upsert(t: Table, id: string, v: CardValues): (t': Table)
    ensures id in t' && OthersUnchanged(t, t', id)
    ensures t'[id].description == (if id in t then t[id].description else None)
    ensures t'[id].name == v.name && t'[id].price == v.price && t'[id].district == v.district
    ensures t'[id].imgUrl == v.imgUrl && t'[id].createdAt == v.createdAt
    ensures t'[id].lastSeen == Some(v.now) && t'[id].upload == Some(v.now)
  {
    var description := if id in t then t[id].description else None;
    t[id := Row(v.name, v.price, v.district, v.imgUrl, description, Some(v.now), Some(v.now), v.createdAt)]
  }

  const NotAvailable: string := "NOT AVAILABLE"

  /** `UPDATE listings SET description = %s, img_url = %s WHERE id = %s`:
      changes nothing when no row has that id. */
  function SetDetails(t: Table, id: string, description: string, imgUrl: Option<string>): (t': Table)
    ensures t'.Keys == t.Keys && OthersUnchanged(t, t', id)
    ensures id in t ==>
      t'[id] == t[id].(description := Some(description), imgUrl := imgUrl)
  {
    if id in t then t[id := t[id].(description := Some(description), imgUrl := imgUrl)] else t
  }

  /** The row of an advert OLX reports as gone: `'NOT AVAILABLE'` and no
      image. */
  function MarkedUnavailable(t: Table, id: string): (t': Table)
    ensures t'.Keys == t.Keys && OthersUnchanged(t, t', id)
    ensures id in t ==> t'[id].description == Some(NotAvailable) && t'[id].imgUrl.None?
  {
    SetDetails(t, id, NotAvailable, None)
  }

  /** Two checks of an id that was absent: the first reports it new, the
      second finds it, and the table has grown by exactly one row. */
  lemma TouchTwice(t: Table, id: string, first: int, second: int)
    requires id !in t
    ensures id in Touch(t, id, first)
    ensures |Touch(Touch(t, id, first), id, second)| == |t| + 1
    ensures Touch(Touch(t, id, first), id, second)[id] == Stub(second)
  {
  }

  /** Touching is idempotent up to the clock: touching an id again at the
      same instant changes nothing. */
  lemma TouchAgain(t: Table, id: string, now: int)
    ensures Touch(Touch(t, id, now), id, now) == Touch(t, id, now)
  {
  }

  /** A card upsert never writes `description`: after an upsert of an id
      that was only touched, the description is still NULL. */
  lemma UpsertAfterTouchHasNoDescription(t: Table, id: string, now: int, v: CardValues)
    requires id !in t
    ensures Upsert(Touch(t, id, now), id, v)[id].description.None?
  {
  }

  /**
   * The listings table of bot/db.py. `rows` is the table's content; the
   * methods are the statements the scrapers issue.
   */
  class ListingStore {
    var rows: Table

    constructor(initial: Table)
      ensures rows == initial
    {
      rows := initial;
    }

    /** `is_new_listing(listing_id)` at the instant `now`. */
    method IsNewListing(id: string, now: int) returns (isNew: bool)
      modifies this
      ensures isNew <==> id !in old(rows)
      ensures rows == Touch(old(rows), id, now)
    {
      if id !in rows {
        rows := rows[id := Stub(now)];
        isNew := true;
      } else {
        rows := rows[id := rows[id].(lastSeen := Some(now))];
        isNew := false;
      }
    }

    /** The variant of `is_new_listing` that reports a database error as
        "not new": `fault` says whether a statement fails, in which case
        nothing is written. */
    method IsNewListingGuarded(id: string, now: int, fault: bool) returns (isNew: bool)
      modifies this
      ensures fault ==> !isNew && rows == old(rows)
      ensures !fault ==> (isNew <==> id !in old(rows)) && rows == Touch(old(rows), id, now)
    {
      if fault {
        return false;
      }
      isNew := IsNewListing(id, now);
    }

    /** The card upsert of `parse_card`. */
    method UpsertCard(id: string, v: CardValues)
      modifies this
      ensures rows == Upsert(old(rows), id, v)
    {
      var description := if id in rows then rows[id].description else None;
      rows := rows[id := Row(v.name, v.price, v.district, v.imgUrl, description, Some(v.now), Some(v.now), v.createdAt)];
    }

    /** The backfill update of description and first image. */
    method StoreDetails(id: string, description: string, imgUrl: Option<string>)
      modifies this
      ensures rows == SetDetails(old(rows), id, description, imgUrl)
    {
      if id in rows {
        rows := rows[id := rows[id].(description := Some(description), imgUrl := imgUrl)];
      }
    }

    /** The backfill update for an advert that is no longer available. */
    method MarkUnavailable(id: string)
      modifies this
      ensures rows == MarkedUnavailable(old(rows), id)
    {
      StoreDetails(id, NotAvailable, None);
    }
  }
}
