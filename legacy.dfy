/**
 * The single-file scraper bot.py: its `parse_ukr_date`, which returns the
 * date as text for the database to convert, its `parse_card`, and its
 * `get_links`, which runs until a page has no cards or fails.
 */
module Legacy {
  import opened Wrappers
  import opened Text
  import opened Calendar
  import opened Utils
  import opened Store
  import opened Crawler

  // ------------------------------------------------------------ parse_ukr_date

  /** The Cyrillic letter `о` ("at") that must precede the clock time. */
  const AtLetter: char := 'о'

  /** The first index from `i` on that is not whitespace. */
  function SkipSpaces(s: string, i: nat): (j: nat)
    ensures i <= j && (j == i || j <= |s|)
    ensures forall k :: i <= k < j ==> IsSpace(s[k])
    ensures j < |s| ==> !IsSpace(s[j])
    decreases |s| - i
  {
    if i < |s| && IsSpace(s[i]) then SkipSpaces(s, i + 1) else i
  }

  /** A match of `о\s*(\d{1,2}:\d{2})` starting at `i`: the clock part. */
  function AtClock(s: string, i: nat): Option<ClockMatch> {
    if i < |s| && s[i] == AtLetter then ClockAt(s, SkipSpaces(s, i + 1)) else None
  }

  /** `re.search(r'о\s*(\d{1,2}:\d{2})', s)`: the leftmost match. */
  function FindAtClock(s: string, from: nat): (r: Option<ClockMatch>)
    ensures r.Some? ==>
      exists i :: from <= i && AtClock(s, i) == r && forall j :: from <= j < i ==> AtClock(s, j).None?
    ensures r.None? ==> forall j :: from <= j ==> AtClock(s, j).None?
    decreases |s| - from
  {
    if from >= |s| then None
    else if AtClock(s, from).Some? then AtClock(s, from)
    else FindAtClock(s, from + 1)
  }

  /** What the parser found, before it is printed: a clock time of the
      reference day as the digits matched, or a whole date. */
  datatype Stamp =
    | TodayAt(day: Day, hourText: string, minuteText: string)
    | DateOnly(date: Day)

  /** `%Y-%m-%d`. */
  function DateText(d: Day): string {
    ZeroPad(d.year, 4) + "-" + ZeroPad(d.month, 2) + "-" + ZeroPad(d.day, 2)
  }

  /** The text returned: `strftime(f"%Y-%m-%d {time_part}:00")` for today,
      `isoformat()` of a midnight otherwise. */
  function StampText(st: Stamp): string {
    match st
    case TodayAt(day, h, m) => DateText(day) + " " + h + ":" + m + ":00"
    case DateOnly(d) => DateText(d) + "T00:00:00"
  }

  /** `parse_ukr_date` of bot.py up to the final formatting. */
  function ReadStamp(raw: string, today: Day): Option<Stamp> {
    var s := Clean(raw);
    if IsTodayText(s) then Some(StampOfToday(s, today))
    else
      var parts := Split(s);
      if |parts| >= 3 && Lower(parts[1]) in Months then
        match AbsoluteDate(parts[0], Months[Lower(parts[1])], parts[2])
        case Some(d) => Some(DateOnly(d))
        case None => None
      else None
  }

  /** The "today" path on the cleaned text: the reference day at the
      digits of the first clock after `о`, or at `00:00`. */
  function StampOfToday(s: string, today: Day): (r: Stamp)
    ensures r.TodayAt? && r.day == today
  {
    match FindAtClock(s, 0)
    case None => TodayAt(today, "00", "00")
    case Some(c) =>
      TodayAt(today, s[c.start..c.start + c.hourDigits],
              s[c.start + c.hourDigits + 1..c.start + c.hourDigits + 3])
  }

  /** `parse_ukr_date(date_str)` of bot.py on the local date `today`. */
  function LegacyParseUkrDate(raw: string, today: Day): Option<string> {
    match ReadStamp(raw, today)
    case Some(st) => Some(StampText(st))
    case None => None
  }

  /** A clock time the database accepts: up to 23:59, and 24:00. */
  predicate ClockAccepted(h: int, m: int) {
    (0 <= h <= 23 && 0 <= m <= 59) || (h == 24 && m == 0)
  }

  /** The database's reading of the text as a `TIMESTAMPTZ` in a session
      zone `sessionOffset` seconds east of UTC; `None` when it rejects it. */
  function CastStamp(st: Stamp, sessionOffset: int): Option<int> {
    match st
    case TodayAt(day, h, m) =>
      if 1 <= |h| <= 2 && |m| == 2 && AllDigits(h) && AllDigits(m)
         && ClockAccepted(DigitsValue(h), DigitsValue(m))
      then Some(EpochSeconds(day, DigitsValue(h), DigitsValue(m)) - sessionOffset)
      else None
    case DateOnly(d) => Some(DayStart(d) - sessionOffset)
  }

  /** The leftmost match is the first position where the pattern
      matches. */
  lemma FirstAtClock(s: string, from: nat, i: nat)
    requires from <= i && AtClock(s, i).Some?
    requires forall j :: from <= j < i ==> AtClock(s, j).None?
    ensures FindAtClock(s, from) == AtClock(s, i)
  {
    var r := FindAtClock(s, from);
    assert r.Some?;
    var k :| from <= k && AtClock(s, k) == r && forall j :: from <= j < k ==> AtClock(s, j).None?;
    assert k == i;
  }

  /** The letters of `TodayText` up to the clock. */
  lemma TodayTextLetters(h: nat, m: nat)
    requires h < 100 && m < 100
    ensures var s := TodayText(h, m);
      |s| == 16 && s[9] == AtLetter && SkipSpaces(s, 10) == 11
      && forall j :: 0 <= j < 9 && s[j] == AtLetter ==> !IsSpace(s[j + 1]) && !IsDigit(s[j + 1])
  {
    var s := TodayText(h, m);
    TodayTextShape(h, m);
    assert s[..11] == TodayUkrainian + " о ";
    forall j | 0 <= j < 9 && s[j] == AtLetter ensures !IsSpace(s[j + 1]) && !IsDigit(s[j + 1]) {
      assert s[j] == s[..11][j] && s[j + 1] == s[..11][j + 1];
    }
    assert s[10] == s[..11][10];
    assert s[11] == ZeroPad(h, 2)[0];
    assert IsSpace(s[10]) && !IsSpace(s[11]);
  }

  /** In `TodayText` the pattern matches at the `о` before the clock. */
  lemma TodayAtClockFound(h: nat, m: nat)
    requires h < 100 && m < 100
    ensures FindAtClock(TodayText(h, m), 0) == Some(ClockMatch(11, 2, h, m))
  {
    var s := TodayText(h, m);
    TodayTextShape(h, m);
    TodayTextLetters(h, m);
    forall j | 0 <= j < 9 ensures AtClock(s, j).None? {
      if s[j] == AtLetter {
        NoClockAtNonDigit(s, j + 1);
      }
    }
    ClockOfFields(s, 11, ZeroPad(h, 2), ZeroPad(m, 2));
    FirstAtClock(s, 0, 9);
  }

  /** Unlike bot/utils.py, the text variant does not check the clock: any
      two-digit hour and minute after `о` are copied into the text. */
  lemma LegacyTodayClock(h: nat, m: nat, today: Day)
    requires h < 100 && m < 100
    ensures ReadStamp(TodayText(h, m), today) == Some(TodayAt(today, ZeroPad(h, 2), ZeroPad(m, 2)))
    ensures LegacyParseUkrDate(TodayText(h, m), today)
            == Some(DateText(today) + " " + ZeroPad(h, 2) + ":" + ZeroPad(m, 2) + ":00")
  {
    var s := TodayText(h, m);
    TodayTextShape(h, m);
    CleanOfPlain(s);
    assert IsTodayText(s);
    TodayAtClockFound(h, m);
    ReadStampToday(s, today);
  }

  /** A one-digit hour is copied as it is: `"YYYY-MM-DD H:MM:00"`. */
  lemma LegacyShortHourClock(h: nat, m: nat, today: Day)
    requires h <= 9 && m < 100
    ensures ReadStamp(TodayTextShortHour(h, m), today) == Some(TodayAt(today, Decimal(h), ZeroPad(m, 2)))
    ensures LegacyParseUkrDate(TodayTextShortHour(h, m), today)
            == Some(DateText(today) + " " + Decimal(h) + ":" + ZeroPad(m, 2) + ":00")
  {
    var s := TodayTextShortHour(h, m);
    ShortHourFields(h, m);
    ShortHourClean(h, m);
    ShortHourAtClockFound(h, m);
    ReadStampToday(s, today);
  }

  /** In the text the pattern matches at the `о` before the one-digit
      clock. */
  lemma ShortHourAtClockFound(h: nat, m: nat)
    requires h <= 9 && m < 100
    ensures FindAtClock(TodayTextShortHour(h, m), 0) == Some(ClockMatch(11, 1, h, m))
  {
    var s := TodayTextShortHour(h, m);
    ShortHourAtLetters(h, m);
    ShortHourClockFound(h, m);
    forall j | 0 <= j < 9 ensures AtClock(s, j).None? {
      if s[j] == AtLetter {
        NoClockAtNonDigit(s, j + 1);
      }
    }
    FirstAtClock(s, 0, 9);
  }

  /** The letters of the text up to the clock. */
  lemma ShortHourAtLetters(h: nat, m: nat)
    requires h <= 9 && m < 100
    ensures var s := TodayTextShortHour(h, m);
      |s| == 15 && s[9] == AtLetter && SkipSpaces(s, 10) == 11
      && forall j :: 0 <= j < 9 && s[j] == AtLetter ==> !IsSpace(s[j + 1]) && !IsDigit(s[j + 1])
  {
    var s := TodayTextShortHour(h, m);
    ShortHourFields(h, m);
    forall j | 0 <= j < 9 && s[j] == AtLetter ensures !IsSpace(s[j + 1]) && !IsDigit(s[j + 1]) {
      assert s[j] == s[..11][j] && s[j + 1] == s[..11][j + 1];
    }
    assert s[9] == s[..11][9] && s[10] == s[..11][10];
    assert s[11] == s[11..12][0];
    DigitNotSpace(s[11]);
  }

  /** For a one-digit hour too, the database reads bot.py's text as the
      instant bot/utils.py computes when its zone is the session's. */
  lemma ShortHourVariantsAgree(h: nat, m: nat, today: Day, utcOffset: int)
    requires h <= 9 && ValidClock(h, m)
    ensures ParseUkrDate(TodayTextShortHour(h, m), today, utcOffset) == Parsed(EpochSeconds(today, h, m) - utcOffset)
    ensures CastStamp(ReadStamp(TodayTextShortHour(h, m), today).value, utcOffset)
            == Some(EpochSeconds(today, h, m) - utcOffset)
  {
    LegacyShortHourClock(h, m, today);
    ShortHourParse(h, m, today, utcOffset);
    CastShortHour(h, m, today, utcOffset);
  }

  /** The database's reading of a one-digit-hour clock text. */
  lemma CastShortHour(h: nat, m: nat, today: Day, sessionOffset: int)
    requires h <= 9 && m < 100
    ensures CastStamp(TodayAt(today, Decimal(h), ZeroPad(m, 2)), sessionOffset)
      == if ClockAccepted(h, m) then Some(EpochSeconds(today, h, m) - sessionOffset) else None
  {
    assert |Decimal(h)| == 1 && |ZeroPad(m, 2)| == 2;
  }

  /** A text that reads as "today" once cleaned and has no digits left
      is midnight of the reference day as text. */
  lemma LegacyTodayWithoutClock(raw: string, today: Day)
    requires IsTodayText(Clean(raw))
    requires forall i :: 0 <= i < |Clean(raw)| ==> !IsDigit(Clean(raw)[i])
    ensures LegacyParseUkrDate(raw, today) == Some(DateText(today) + " 00:00:00")
  {
    NoAtClock(Clean(raw));
    ReadStampToday(raw, today);
    MidnightText(today);
  }

  lemma MidnightText(today: Day)
    ensures StampText(TodayAt(today, "00", "00")) == DateText(today) + " 00:00:00"
  {
    assert DateText(today) + " " + "00" + ":" + "00" + ":00" == DateText(today) + " 00:00:00";
  }

  /** A text that reads as "today" once cleaned takes the "today" path. */
  lemma ReadStampToday(raw: string, today: Day)
    requires IsTodayText(Clean(raw))
    ensures ReadStamp(raw, today) == Some(StampOfToday(Clean(raw), today))
  {
  }

  lemma NoAtClock(s: string)
    requires forall i :: 0 <= i < |s| ==> !IsDigit(s[i])
    ensures FindAtClock(s, 0).None?
  {
    forall j | 0 <= j ensures AtClock(s, j).None? {
      var k := SkipSpaces(s, j + 1);
      if j < |s| && k < |s| {
        NoClockAtNonDigit(s, k);
      }
    }
  }

  /** The text variant on an absolute-date text: the fields go to
      `strptime`, and a failure is caught. */
  lemma LegacyAbsoluteParse(day: nat, name: string, year: nat, today: Day)
    requires name in Months && Lower(name) == name && year <= 9999
    ensures ReadStamp(AbsoluteText(day, name, year), today)
      == match AbsoluteDate(Decimal(day), Months[name], ZeroPad(year, 4))
         case Some(d) => Some(DateOnly(d))
         case None => None
  {
    AbsoluteTextFields(day, name, year);
  }

  /** An absolute date becomes the ISO text of its midnight. */
  lemma LegacyAbsoluteRoundTrip(d: Day, name: string, today: Day)
    requires name == UkrainianMonths[d.month - 1] || name == RussianMonths[d.month - 1]
    ensures LegacyParseUkrDate(AbsoluteText(d.day, name, d.year), today) == Some(DateText(d) + "T00:00:00")
  {
    MonthOfName(name, d.month);
    LegacyAbsoluteParse(d.day, name, d.year, today);
    DateFields(d.day, d.year);
  }

  /** A known month with a day it does not have is caught: `None`, where
      bot/utils.py raises. */
  lemma LegacyImpossibleDate(day: nat, month: int, year: nat, today: Day)
    requires 1 <= month <= 12 && 1 <= year <= 9999
    requires DaysInMonth(year, month) < day <= 31
    ensures LegacyParseUkrDate(AbsoluteText(day, UkrainianMonths[month - 1], year), today) == None
  {
    MonthOfName(UkrainianMonths[month - 1], month);
    LegacyAbsoluteParse(day, UkrainianMonths[month - 1], year, today);
    DateFields(day, year);
  }

  /** Away from the "today" path both parsers agree: bot.py gives a text
      exactly when bot/utils.py gives an instant, and a UTC database reads
      that text as the same instant. */
  lemma AbsoluteVariantsAgree(raw: string, today: Day, utcOffset: int)
    requires !IsTodayText(Clean(raw))
    ensures ReadStamp(raw, today).Some? <==> ParseUkrDate(raw, today, utcOffset).Parsed?
    ensures ReadStamp(raw, today).Some? ==>
      CastStamp(ReadStamp(raw, today).value, 0) == Some(ParseUkrDate(raw, today, utcOffset).instant)
  {
    var parts := Split(Clean(raw));
    if |parts| >= 3 && Lower(parts[1]) in Months {
      var date := AbsoluteDate(parts[0], Months[Lower(parts[1])], parts[2]);
      assert ReadStamp(raw, today) == if date.Some? then Some(DateOnly(date.value)) else None;
      assert ParseUkrDate(raw, today, utcOffset) == if date.Some? then Parsed(DayStart(date.value)) else Raises;
    } else {
      assert ReadStamp(raw, today) == None;
    }
  }

  /** On the "today" path, for a valid clock, the database reads the text
      as the instant bot/utils.py computes when its zone is the session's. */
  lemma TodayVariantsAgree(h: nat, m: nat, today: Day, utcOffset: int)
    requires ValidClock(h, m)
    ensures ParseUkrDate(TodayText(h, m), today, utcOffset) == Parsed(EpochSeconds(today, h, m) - utcOffset)
    ensures LegacyParseUkrDate(TodayText(h, m), today).Some?
    ensures CastStamp(ReadStamp(TodayText(h, m), today).value, utcOffset) == Some(EpochSeconds(today, h, m) - utcOffset)
  {
    LegacyTodayClock(h, m, today);
    TodayParse(h, m, today, utcOffset);
    CastTodayClock(h, m, today, utcOffset);
  }

  /** The pattern of bot.py wants the letter `о` before the clock, which
      the Russian text `"Сегодня в HH:MM"` does not have: bot.py stores
      midnight of the local day where bot/utils.py reads the clock. */
  lemma RussianTodayDiffers(h: nat, m: nat, today: Day, utcOffset: int)
    requires ValidClock(h, m)
    ensures ParseUkrDate(RussianTodayText(h, m), today, utcOffset) == Parsed(EpochSeconds(today, h, m) - utcOffset)
    ensures LegacyParseUkrDate(RussianTodayText(h, m), today) == Some(DateText(today) + " 00:00:00")
  {
    var s := RussianTodayText(h, m);
    RussianTodayParse(h, m, today, utcOffset);
    RussianTextClean(h, m);
    RussianNoAtClock(h, m);
    ReadStampToday(s, today);
    MidnightText(today);
  }

  /** The only `о` of the Russian text is followed by a letter. */
  lemma RussianNoAtClock(h: nat, m: nat)
    requires h < 100 && m < 100
    ensures FindAtClock(RussianTodayText(h, m), 0).None?
  {
    var s := RussianTodayText(h, m);
    RussianTextAtLetter(h, m);
    forall j | 0 <= j ensures AtClock(s, j).None? {
      if j < |s| && s[j] == AtLetter {
        NoClockAtNonDigit(s, j + 1);
      }
    }
  }

  lemma RussianTextAtLetter(h: nat, m: nat)
    requires h < 100 && m < 100
    ensures var s := RussianTodayText(h, m);
      forall j :: 0 <= j < |s| && s[j] == AtLetter ==>
        j + 1 < |s| && !IsSpace(s[j + 1]) && !IsDigit(s[j + 1])
  {
    var s := RussianTodayText(h, m);
    RussianTextShape(h, m);
    RussianClockNoAtLetter(h, m);
    forall j | 0 <= j < |s| && s[j] == AtLetter
      ensures j + 1 < |s| && !IsSpace(s[j + 1]) && !IsDigit(s[j + 1])
    {
      if j < 10 {
        assert s[j] == s[..10][j] && s[j + 1] == s[..10][j + 1];
      } else {
        assert false;
      }
    }
  }

  lemma RussianClockNoAtLetter(h: nat, m: nat)
    requires h < 100 && m < 100
    ensures var s := RussianTodayText(h, m);
      |s| == 15 && forall i :: 10 <= i < 15 ==> s[i] != AtLetter
  {
    var s := RussianTodayText(h, m);
    var hh, mm := ZeroPad(h, 2), ZeroPad(m, 2);
    RussianTextFields(h, m);
    forall i | 10 <= i < 15 ensures s[i] != AtLetter {
      if i < 12 {
        assert s[i] == hh[i - 10];
      } else if 13 <= i {
        assert s[i] == mm[i - 13];
      }
    }
  }

  /** `24:00` is accepted by the database as the next midnight, where
      bot/utils.py raises. */
  lemma MidnightClock(h: nat, m: nat, today: Day, utcOffset: int)
    requires ClockAccepted(h, m) && !ValidClock(h, m)
    ensures ParseUkrDate(TodayText(h, m), today, utcOffset) == Raises
    ensures ReadStamp(TodayText(h, m), today) == Some(TodayAt(today, ZeroPad(h, 2), ZeroPad(m, 2)))
    ensures CastStamp(TodayAt(today, ZeroPad(h, 2), ZeroPad(m, 2)), utcOffset)
            == Some(DayStart(today) + SecondsPerDay - utcOffset)
  {
    LegacyTodayClock(h, m, today);
    TodayParse(h, m, today, utcOffset);
    MidnightCast(h, m, today, utcOffset);
  }

  lemma MidnightCast(h: nat, m: nat, today: Day, sessionOffset: int)
    requires ClockAccepted(h, m) && !ValidClock(h, m)
    ensures CastStamp(TodayAt(today, ZeroPad(h, 2), ZeroPad(m, 2)), sessionOffset)
            == Some(DayStart(today) + SecondsPerDay - sessionOffset)
  {
    CastTodayClock(h, m, today, sessionOffset);
    NextMidnight(today, h, m);
  }

  /** Any other clock past 23:59 yields a text the database rejects, so the
      insert raises. */
  lemma RejectedClock(h: nat, m: nat, today: Day, utcOffset: int)
    requires h < 100 && m < 100 && !ClockAccepted(h, m)
    ensures ParseUkrDate(TodayText(h, m), today, utcOffset) == Raises
    ensures LegacyParseUkrDate(TodayText(h, m), today).Some?
    ensures CastStamp(ReadStamp(TodayText(h, m), today).value, utcOffset).None?
  {
    LegacyTodayClock(h, m, today);
    TodayParse(h, m, today, utcOffset);
    CastTodayClock(h, m, today, utcOffset);
  }

  lemma NextMidnight(d: Day, h: int, m: int)
    requires ClockAccepted(h, m) && !ValidClock(h, m)
    ensures EpochSeconds(d, h, m) == DayStart(d) + SecondsPerDay
  {
  }

  /** The database's reading of a two-digit clock text. */
  lemma CastTodayClock(h: nat, m: nat, today: Day, sessionOffset: int)
    requires h < 100 && m < 100
    ensures CastStamp(TodayAt(today, ZeroPad(h, 2), ZeroPad(m, 2)), sessionOffset)
      == if ClockAccepted(h, m) then Some(EpochSeconds(today, h, m) - sessionOffset) else None
  {
    assert |ZeroPad(h, 2)| == 2 && |ZeroPad(m, 2)| == 2;
  }

  // ------------------------------------------------------------ parse_card

  /** One card as bot.py meets it: the card, whether the database fails in
      `is_new_listing`, the two clock readings, the local date and the
      database session's zone offset. */
  datatype LegacyVisit = LegacyVisit(
    card: Card,
    dbFault: bool,
    checkedAt: int,
    now: int,
    today: Day,
    sessionOffset: int)

  /** The created-at text's stamp: only when the district has `" - "`. */
  function CreatedStamp(district: string, today: Day): Option<Stamp> {
    match DatePart(district)
    case Some(text) => ReadStamp(text, today)
    case None => None
  }

  /** The `created_at_dt` the insert writes, or `None` when the database
      rejects the text and the statement raises. */
  function CreatedColumn(st: Option<Stamp>, sessionOffset: int): Option<Option<int>> {
    match st
    case None => Some(None)
    case Some(x) =>
      match CastStamp(x, sessionOffset)
      case Some(v) => Some(Some(v))
      case None => None
  }

  /** Every element `find_element` looks for is on the card. */
  predicate Complete(c: Card) {
    c.title.Some? && c.price.Some? && c.district.Some? && c.img.Some?
  }

  /** `parse_card(card, cursor)` of bot.py. */
  function LegacyCardEffect(t: Table, v: LegacyVisit): (t': Table)
    ensures CardId(v.card).None? || v.dbFault ==> t' == t
    ensures CardId(v.card).Some? && !v.dbFault ==>
      var id := CardId(v.card).value;
      id in t' && OthersUnchanged(t, t', id)
      && (t'[id].lastSeen == Some(v.checkedAt) || t'[id].lastSeen == Some(v.now))
      && (id in t ==> SameButLastSeen(t[id], t'[id]))
      && (id !in t ==> t'[id].description.None?)
  {
    match CardId(v.card)
    case None => t
    case Some(id) =>
      if v.dbFault then t
      else
        var touched := Touch(t, id, v.checkedAt);
        if id in t || !Complete(v.card) then touched
        else
          var c := v.card;
          match CreatedColumn(CreatedStamp(c.district.value, v.today), v.sessionOffset)
          case None => touched
          case Some(created) =>
            Upsert(touched, id, CardValues(c.title, c.price, c.district, c.img.value.src, v.now, created))
  }

  /** A new card is stored with its title, price, district and image, no
      description, `upload_dt` and `last_seen_dt` of now and the database's
      reading of its created-at text; it stays the stub the check inserted
      when an element is missing or the database rejects the text. */
  lemma LegacyNewCardStored(t: Table, v: LegacyVisit)
    requires CardId(v.card).Some? && CardId(v.card).value !in t && !v.dbFault
    ensures var r := LegacyCardEffect(t, v)[CardId(v.card).value];
      if !Complete(v.card) then r == Stub(v.checkedAt)
      else match CreatedColumn(CreatedStamp(v.card.district.value, v.today), v.sessionOffset)
        case None => r == Stub(v.checkedAt)
        case Some(created) =>
          r == Row(v.card.title, v.card.price, v.card.district, v.card.img.value.src,
                   None, Some(v.now), Some(v.now), created)
  {
  }

  /** A new card whose district reads `"<place> - Сьогодні о HH:MM"` with a
      valid clock is stored with every element, a NULL description and, as
      `created_at_dt`, that clock of the local day read in the session's
      zone. */
  lemma TodayCardStored(t: Table, v: LegacyVisit, place: string, h: nat, m: nat)
    requires CardId(v.card).Some? && CardId(v.card).value !in t && !v.dbFault && Complete(v.card)
    requires v.card.district.value == place + DateSeparator + TodayText(h, m) && '-' !in place
    requires ValidClock(h, m)
    ensures var r := LegacyCardEffect(t, v)[CardId(v.card).value];
      r == Row(v.card.title, v.card.price, v.card.district, v.card.img.value.src, None,
               Some(v.now), Some(v.now), Some(EpochSeconds(v.today, h, m) - v.sessionOffset))
  {
    TodayCreated(place, h, m, v.today, v.sessionOffset);
    LegacyNewCardStored(t, v);
  }

  /** The created-at column of a district `"<place> - Сьогодні о HH:MM"`. */
  lemma TodayCreated(place: string, h: nat, m: nat, today: Day, sessionOffset: int)
    requires '-' !in place && ValidClock(h, m)
    ensures CreatedColumn(CreatedStamp(place + DateSeparator + TodayText(h, m), today), sessionOffset)
            == Some(Some(EpochSeconds(today, h, m) - sessionOffset))
  {
    DatePartAfterPlace(place, TodayText(h, m));
    LegacyTodayClock(h, m, today);
    CastTodayClock(h, m, today, sessionOffset);
  }

  /** A card already in the table, or one the database check fails on,
      changes at most `last_seen_dt`. */
  lemma LegacySeenOnlyTouches(t: Table, v: LegacyVisit)
    requires CardId(v.card).Some? && CardId(v.card).value in t
    ensures var id := CardId(v.card).value;
      LegacyCardEffect(t, v) == (if v.dbFault then t else Touch(t, id, v.checkedAt))
  {
  }

  /** A new card with a complete set of elements whose district has no
      `" - "` is stored with a NULL `created_at_dt` (bot/scraper.py uses the
      current time instead). */
  lemma NoDateGivesNull(t: Table, v: LegacyVisit)
    requires CardId(v.card).Some? && CardId(v.card).value !in t && !v.dbFault
    requires Complete(v.card) && !Contains(v.card.district.value, DateSeparator)
    ensures var t' := LegacyCardEffect(t, v); var id := CardId(v.card).value;
      t'[id].createdAt.None? && t'[id].name == v.card.title && t'[id].description.None?
  {
  }

  /** A new card whose element is missing, or whose "today" clock the
      database rejects, stays the stub the check inserted: it is never
      completed, since on later visits it is no longer new. */
  lemma FailedInsertLeavesStub(t: Table, v: LegacyVisit, later: LegacyVisit)
    requires CardId(v.card).Some? && CardId(v.card).value !in t && !v.dbFault
    requires !Complete(v.card)
      || CreatedColumn(CreatedStamp(v.card.district.value, v.today), v.sessionOffset).None?
    requires CardId(later.card) == CardId(v.card)
    ensures var id := CardId(v.card).value;
      var t1 := LegacyCardEffect(t, v);
      var t2 := LegacyCardEffect(t1, later);
      IsStub(t1[id]) && IsStub(t2[id])
  {
  }

  /** `parse_card(card, cursor)`. */
  method LegacyParseCard(store: ListingStore, v: LegacyVisit)
    modifies store
    ensures store.rows == LegacyCardEffect(old(store.rows), v)
  {
    var id := CardId(v.card);
    if id.None? {
      return;
    }
    var isNew := store.IsNewListingGuarded(id.value, v.checkedAt, v.dbFault);
    if !isNew {
      return;
    }
    var c := v.card;
    if !Complete(c) {
      return;
    }
    var stamp := CreatedStamp(c.district.value, v.today);
    var created := CreatedColumn(stamp, v.sessionOffset);
    if created.None? {
      return;
    }
    store.UpsertCard(id.value, CardValues(c.title, c.price, c.district, c.img.value.src, v.now, created.value));
  }

  // ------------------------------------------------------------ get_links

  /** One results page: its cards, or the load raises (a page without
      cards is the empty list). */
  datatype ListingPage = CardsShown(visits: seq<LegacyVisit>) | PageRaises

  /** Page `p` (counting from 1); pages past the end raise. */
  function ListingPageAt(fetch: seq<ListingPage>, p: int): ListingPage {
    if 1 <= p <= |fetch| then fetch[p - 1] else PageRaises
  }

  /** Whether the loop stops at page `p`: the load raised or there were no
      cards. */
  predicate Halts(fetch: seq<ListingPage>, p: int) {
    ListingPageAt(fetch, p).PageRaises? || ListingPageAt(fetch, p).visits == []
  }

  /** The cards of one page, in order. */
  function LegacyProcess(t: Table, vs: seq<LegacyVisit>): Table
    decreases |vs|
  {
    if vs == [] then t else LegacyCardEffect(LegacyProcess(t, vs[..|vs| - 1]), vs[|vs| - 1])
  }

  /** The `while True` loop from page `p` on, with an optional page
      bound. */
  function LegacyCrawlFrom(t: Table, p: int, pages: Option<int>, fetch: seq<ListingPage>): Crawl
    decreases |fetch| + 1 - p
  {
    if pages.Some? && p > pages.value then Crawl(t, [])
    else if Halts(fetch, p) then Crawl(t, [p])
    else
      var rest := LegacyCrawlFrom(LegacyProcess(t, ListingPageAt(fetch, p).visits), p + 1, pages, fetch);
      Crawl(rest.table, [p] + rest.tried)
  }

  /** Pages are tried one by one from `p`, never past the bound; every page
      but the last had cards; the loop ends on a failing or empty page, or
      on the bound, and without a bound only on such a page. */
  lemma {:induction false} LegacyCrawlPages(t: Table, p: int, pages: Option<int>, fetch: seq<ListingPage>)
    ensures var r := LegacyCrawlFrom(t, p, pages, fetch).tried;
      (forall j :: 0 <= j < |r| ==> r[j] == p + j)
      && (pages.Some? ==> forall j :: 0 <= j < |r| ==> r[j] <= pages.value)
      && (forall j :: 0 <= j < |r| - 1 ==> !Halts(fetch, r[j]))
      && (r == [] ==> pages.Some? && p > pages.value)
      && (r != [] ==> Halts(fetch, r[|r| - 1]) || (pages.Some? && r[|r| - 1] == pages.value))
  {
    LegacyCrawlOrder(t, p, pages, fetch);
    LegacyCrawlStops(t, p, pages, fetch);
  }

  lemma {:induction false} LegacyCrawlOrder(t: Table, p: int, pages: Option<int>, fetch: seq<ListingPage>)
    ensures var r := LegacyCrawlFrom(t, p, pages, fetch).tried;
      (forall j :: 0 <= j < |r| ==> r[j] == p + j)
      && (pages.Some? ==> forall j :: 0 <= j < |r| ==> r[j] <= pages.value)
    decreases |fetch| + 1 - p
  {
    if !(pages.Some? && p > pages.value) && !Halts(fetch, p) {
      var next := LegacyProcess(t, ListingPageAt(fetch, p).visits);
      LegacyCrawlOrder(next, p + 1, pages, fetch);
      var rest := LegacyCrawlFrom(next, p + 1, pages, fetch).tried;
      assert var q := LegacyCrawlFrom(next, p + 1, pages, fetch).tried;
        forall k :: 0 <= k < |q| ==> q[k] == p + 1 + k;
      var r := LegacyCrawlFrom(t, p, pages, fetch).tried;
      assert r == [p] + rest;
      forall j | 0 <= j < |r| ensures r[j] == p + j {
        if j > 0 {
          assert r[j] == rest[j - 1];
        }
      }
    } else if pages.Some? && p > pages.value {
      assert LegacyCrawlFrom(t, p, pages, fetch).tried == [];
    } else {
      assert LegacyCrawlFrom(t, p, pages, fetch).tried == [p];
    }
  }

  lemma {:induction false} LegacyCrawlStops(t: Table, p: int, pages: Option<int>, fetch: seq<ListingPage>)
    ensures var r := LegacyCrawlFrom(t, p, pages, fetch).tried;
      (forall j :: 0 <= j < |r| - 1 ==> !Halts(fetch, r[j]))
      && (r == [] ==> pages.Some? && p > pages.value)
      && (r != [] ==> Halts(fetch, r[|r| - 1]) || (pages.Some? && r[|r| - 1] == pages.value))
    decreases |fetch| + 1 - p
  {
    if !(pages.Some? && p > pages.value) && !Halts(fetch, p) {
      LegacyCrawlOrder(LegacyProcess(t, ListingPageAt(fetch, p).visits), p + 1, pages, fetch);
      LegacyCrawlStops(LegacyProcess(t, ListingPageAt(fetch, p).visits), p + 1, pages, fetch);
    }
  }

  /** `get_links(pages)` of bot.py; `pages` is `None` for no bound. */
  method LegacyGetLinks(store: ListingStore, pages: Option<int>, fetch: seq<ListingPage>) returns (tried: seq<int>)
    modifies store
    ensures LegacyCrawlFrom(old(store.rows), 1, pages, fetch) == Crawl(store.rows, tried)
  {
    ghost var whole := LegacyCrawlFrom(store.rows, 1, pages, fetch);
    tried := [];
    var pageNum := 1;
    while true
      invariant pageNum >= 1
      invariant whole == var rest := LegacyCrawlFrom(store.rows, pageNum, pages, fetch);
        Crawl(rest.table, tried + rest.tried)
      decreases |fetch| + 1 - pageNum
    {
      ghost var here := LegacyCrawlFrom(store.rows, pageNum, pages, fetch);
      if pages.Some? && pageNum > pages.value {
        assert here == Crawl(store.rows, []);
        assert tried + [] == tried;
        break;
      }
      var page := ListingPageAt(fetch, pageNum);
      if page.PageRaises? || page.visits == [] {
        assert here == Crawl(store.rows, [pageNum]);
        tried := tried + [pageNum];
        break;
      }
      LegacyParsePage(store, page.visits);
      ghost var rest := LegacyCrawlFrom(store.rows, pageNum + 1, pages, fetch);
      assert here == Crawl(rest.table, [pageNum] + rest.tried);
      assert tried + ([pageNum] + rest.tried) == (tried + [pageNum]) + rest.tried;
      tried := tried + [pageNum];
      pageNum := pageNum + 1;
    }
  }

  /** The inner `for card in cards` loop of `get_links`: the cards of one
      page, in order. */
  method LegacyParsePage(store: ListingStore, vs: seq<LegacyVisit>)
    modifies store
    ensures store.rows == LegacyProcess(old(store.rows), vs)
  {
    var i := 0;
    while i < |vs|
      invariant 0 <= i <= |vs|
      invariant store.rows == LegacyProcess(old(store.rows), vs[..i])
    {
      assert vs[..i + 1][..i] == vs[..i];
      LegacyParseCard(store, vs[i]);
      i := i + 1;
    }
    assert vs[..i] == vs;
  }
}
