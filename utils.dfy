/**
 * bot/utils.py: `parse_ukr_date`, which reads the publication-date text of a
 * listing card ("Сьогодні о 14:30", "12 травня 2024 р."), and
 * `resize_image_url`, which rewrites the `s=WxH` size suffix of an image URL.
 *
 * The clock is a parameter: `today` is the local calendar date
 * `datetime.now()` would report and `utcOffset` the local zone's offset from
 * UTC in seconds, which `astimezone(timezone.utc)` subtracts.
 */
module Utils {
  import opened Wrappers
  import opened Text
  import opened Calendar

  // ------------------------------------------------------------ month table

  /** The MONTHS dictionary: genitive month names, Ukrainian then Russian. */
  const Months: map<string, int> := map[
    "січня" := 1, "лютого" := 2, "березня" := 3, "квітня" := 4, "травня" := 5, "червня" := 6,
    "липня" := 7, "серпня" := 8, "вересня" := 9, "жовтня" := 10, "листопада" := 11, "грудня" := 12,
    "января" := 1, "февраля" := 2, "марта" := 3, "апреля" := 4, "мая" := 5, "июня" := 6,
    "июля" := 7, "августа" := 8, "сентября" := 9, "октября" := 10, "ноября" := 11, "декабря" := 12
  ]

  /** The month names by language, month m at index m - 1. */
  const UkrainianMonths: seq<string> := [
    "січня", "лютого", "березня", "квітня", "травня", "червня",
    "липня", "серпня", "вересня", "жовтня", "листопада", "грудня"
  ]
  const RussianMonths: seq<string> := [
    "января", "февраля", "марта", "апреля", "мая", "июня",
    "июля", "августа", "сентября", "октября", "ноября", "декабря"
  ]

  /** Month m is named by exactly two keys, its Ukrainian and its Russian
      name. */
  lemma MonthNames()
    ensures forall i :: 0 <= i < 12 ==>
      UkrainianMonths[i] in Months && Months[UkrainianMonths[i]] == i + 1
      && RussianMonths[i] in Months && Months[RussianMonths[i]] == i + 1
      && UkrainianMonths[i] != RussianMonths[i]
  {
  }

  lemma MonthKeysNamed()
    ensures forall k :: k in Months ==>
      1 <= Months[k] <= 12
      && (k == UkrainianMonths[Months[k] - 1] || k == RussianMonths[Months[k] - 1])
  {
  }

  /** Lower-case Cyrillic letters only. */
  predicate CyrillicWord(k: string) {
    forall i :: 0 <= i < |k| ==> ('а' <= k[i] <= 'я' || k[i] == 'і' || k[i] == 'ї' || k[i] == 'є')
  }

  lemma MonthKeysCyrillic()
    ensures forall k :: k in Months ==> |k| > 0 && CyrillicWord(k)
  {
    MonthKeysNamed();
    UkrainianNamesCyrillic();
    RussianNamesCyrillic();
  }

  lemma UkrainianNamesCyrillic()
    ensures forall i :: 0 <= i < 12 ==> |UkrainianMonths[i]| > 0 && CyrillicWord(UkrainianMonths[i])
  {
  }

  lemma RussianNamesCyrillic()
    ensures forall i :: 0 <= i < 12 ==> |RussianMonths[i]| > 0 && CyrillicWord(RussianMonths[i])
  {
  }

  /** Every key is already lower case, so `MONTHS.get(name.lower())` finds
      a month whatever the case of `name`'s Cyrillic letters. */
  lemma MonthKeysLowerCase()
    ensures forall k :: k in Months ==> Lower(k) == k
  {
    MonthKeysCyrillic();
    forall k | k in Months ensures Lower(k) == k {
      LowerCyrillicFixed(k);
    }
  }

  /** Lower-case Cyrillic letters are their own lower case. */
  lemma LowerCyrillicFixed(k: string)
    requires CyrillicWord(k)
    ensures Lower(k) == k
  {
  }

  // ------------------------------------------------------------ parse_ukr_date

  /** The outcome of `parse_ukr_date`: a UTC instant (seconds since the Unix
      epoch), `None`, or a `ValueError` escaping from `strptime`. */
  datatype DateResult = Parsed(instant: int) | NotRecognised | Raises

  const YearSuffix: string := "р."
  const TodayUkrainian: string := "Сьогодні"
  const TodayRussian: string := "Сегодня"

  /** The text after `replace("р.", "").strip()`. */
  function Clean(raw: string): string {
    Strip(RemoveAll(raw, YearSuffix))
  }

  predicate IsTodayText(s: string) {
    StartsWith(s, TodayUkrainian) || StartsWith(s, TodayRussian)
  }

  /** One match of `\d{1,2}:\d{2}`: where it starts, how many hour digits
      it has and the two numbers it spells. */
  datatype ClockMatch = ClockMatch(start: nat, hourDigits: nat, hour: nat, minute: nat)

  /** The match of `\d{1,2}:\d{2}` starting at `i`, if any; the greedy
      `\d{1,2}` tries two hour digits before one. */
  function ClockAt(s: string, i: nat): (r: Option<ClockMatch>)
    ensures r.Some? ==>
      (r.value.start == i && (r.value.hourDigits == 1 || r.value.hourDigits == 2)
       && i + r.value.hourDigits + 3 <= |s| && r.value.minute <= 99
       && (r.value.hourDigits == 1 ==> r.value.hour <= 9))
  {
    if i + 5 <= |s| && IsDigit(s[i]) && IsDigit(s[i + 1]) && s[i + 2] == ':'
       && IsDigit(s[i + 3]) && IsDigit(s[i + 4])
    then Some(ClockMatch(i, 2, DigitsValue(s[i..i + 2]), DigitsValue(s[i + 3..i + 5])))
    else if i + 4 <= |s| && IsDigit(s[i]) && s[i + 1] == ':' && IsDigit(s[i + 2]) && IsDigit(s[i + 3])
    then Some(ClockMatch(i, 1, DigitsValue(s[i..i + 1]), DigitsValue(s[i + 2..i + 4])))
    else None
  }

  /** `re.search(r'(\d{1,2}:\d{2})', s[from..])`: the leftmost match. */
  function FindClock(s: string, from: nat): (r: Option<ClockMatch>)
    ensures r.Some? ==>
      (from <= r.value.start && ClockAt(s, r.value.start) == r
       && forall j :: from <= j < r.value.start ==> ClockAt(s, j).None?)
    ensures r.None? ==> forall j :: from <= j ==> ClockAt(s, j).None?
    decreases |s| - from
  {
    if from >= |s| then None
    else if ClockAt(s, from).Some? then ClockAt(s, from)
    else FindClock(s, from + 1)
  }

  /** The day field `%d` of `strptime`: `3[01]|[12]\d|0[1-9]|[1-9]`. */
  function DayField(token: string): (r: Option<int>)
    ensures r.Some? ==> 1 <= r.value <= 31
  {
    if 1 <= |token| <= 2 && AllDigits(token) && 1 <= DigitsValue(token) <= 31
    then Some(DigitsValue(token)) else None
  }

  /** The year field `%Y` of `strptime`: exactly four digits. */
  function YearField(token: string): (r: Option<int>)
    ensures r.Some? ==> 0 <= r.value <= 9999
  {
    if |token| == 4 && AllDigits(token) then Some(DigitsValue(token)) else None
  }

  /** `datetime.strptime(f"{day}.{month}.{year}", "%d.%m.%Y")` with the
      month number taken from the table: a date, or `ValueError`. */
  function AbsoluteDate(day: string, month: int, year: string): Option<Date> {
    if DayField(day).Some? && YearField(year).Some?
       && 1 <= month <= 12 && ValidDate(Date(YearField(year).value, month, DayField(day).value))
    then Some(Date(YearField(year).value, month, DayField(day).value))
    else None
  }

  /** `parse_ukr_date(raw)` at local date `today` in a zone `utcOffset`
      seconds east of UTC. */
  function ParseUkrDate(raw: string, today: Date, utcOffset: int): (r: DateResult)
    requires ValidDate(today)
    ensures var s := Clean(raw);
      r.NotRecognised? <==>
        (!IsTodayText(s) && (|Split(s)| < 3 || Lower(Split(s)[1]) !in Months))
    ensures IsTodayText(Clean(raw)) && r.Parsed? ==>
      DayStart(today) <= r.instant + utcOffset < DayStart(today) + SecondsPerDay
    ensures !IsTodayText(Clean(raw)) && r.Parsed? ==>
      exists d :: ValidDate(d) && r.instant == DayStart(d)
  {
    var s := Clean(raw);
    if IsTodayText(s) then ReadToday(s, today, utcOffset)
    else
      var parts := Split(s);
      if |parts| >= 3 then ReadFields(parts[0], parts[1], parts[2]) else NotRecognised
  }

  /** The "today" path on the cleaned text: the first clock time in it on
      the reference day, or midnight when there is none. */
  function ReadToday(s: string, today: Date, utcOffset: int): (r: DateResult)
    requires ValidDate(today)
    ensures r.Parsed? ==> DayStart(today) <= r.instant + utcOffset < DayStart(today) + SecondsPerDay
    ensures !r.NotRecognised?
  {
    match FindClock(s, 0)
    case None => Parsed(DayStart(today) - utcOffset)
    case Some(c) =>
      if ValidClock(c.hour, c.minute) then Parsed(EpochSeconds(today, c.hour, c.minute) - utcOffset)
      else Raises
  }

  /** The absolute path on its three tokens: day, month name, year. */
  function ReadFields(day: string, monthName: string, year: string): DateResult {
    if Lower(monthName) in Months then
      match AbsoluteDate(day, Months[Lower(monthName)], year)
      case Some(d) => Parsed(DayStart(d))
      case None => Raises
    else NotRecognised
  }

  /** The card text for today at `h:m` is read back as that instant. */
  lemma TodayRoundTrip(h: nat, m: nat, today: Date, utcOffset: int)
    requires ValidDate(today) && ValidClock(h, m)
    ensures ParseUkrDate(TodayText(h, m), today, utcOffset) == Parsed(EpochSeconds(today, h, m) - utcOffset)
  {
    TodayParse(h, m, today, utcOffset);
  }

  /** A clock time past 23:59 on the "today" path makes `strptime` raise
      rather than return `None`. */
  lemma TodayClockOutOfRange(h: nat, m: nat, today: Date, utcOffset: int)
    requires ValidDate(today) && h <= 99 && m <= 99 && !ValidClock(h, m)
    ensures ParseUkrDate(TodayText(h, m), today, utcOffset) == Raises
  {
    TodayParse(h, m, today, utcOffset);
  }

  /** A text that reads as "today" once cleaned and has no digits left
      is midnight of the reference day. */
  lemma TodayWithoutClock(raw: string, today: Date, utcOffset: int)
    requires ValidDate(today) && IsTodayText(Clean(raw))
    requires forall i :: 0 <= i < |Clean(raw)| ==> !IsDigit(Clean(raw)[i])
    ensures ParseUkrDate(raw, today, utcOffset) == Parsed(DayStart(today) - utcOffset)
  {
    NoClockInPlain(Clean(raw));
    MidnightWithoutClock(Clean(raw), today, utcOffset);
    TodayPath(raw, today, utcOffset);
  }

  lemma MidnightWithoutClock(s: string, today: Date, utcOffset: int)
    requires ValidDate(today) && FindClock(s, 0).None?
    ensures ReadToday(s, today, utcOffset) == Parsed(DayStart(today) - utcOffset)
  {
  }

  /** A text without digits holds no clock time. */
  lemma NoClockInPlain(s: string)
    requires forall i :: 0 <= i < |s| ==> !IsDigit(s[i])
    ensures FindClock(s, 0).None?
  {
    forall j | 0 <= j < |s| ensures ClockAt(s, j).None? {
      NoClockAtNonDigit(s, j);
    }
  }

  /** A text that reads as "today" once cleaned takes the "today" path. */
  lemma TodayPath(raw: string, today: Date, utcOffset: int)
    requires ValidDate(today) && IsTodayText(Clean(raw))
    ensures ParseUkrDate(raw, today, utcOffset) == ReadToday(Clean(raw), today, utcOffset)
  {
  }

  /** The "today" text with a two-digit hour and minute: that time of the
      reference day, or `ValueError` when it is not a clock time. */
  lemma TodayParse(h: nat, m: nat, today: Date, utcOffset: int)
    requires ValidDate(today) && h <= 99 && m <= 99
    ensures ParseUkrDate(TodayText(h, m), today, utcOffset)
            == if ValidClock(h, m) then Parsed(EpochSeconds(today, h, m) - utcOffset) else Raises
  {
    var s := TodayText(h, m);
    TodayTextShape(h, m);
    CleanOfPlain(s);
    assert IsTodayText(s);
    TodayPath(s, today, utcOffset);
    TodayClockFound(h, m);
  }

  /** The first clock time in the "today" text is the one it was written
      with. */
  lemma TodayClockFound(h: nat, m: nat)
    requires h <= 99 && m <= 99
    ensures FindClock(TodayText(h, m), 0) == Some(ClockMatch(11, 2, h, m))
  {
    var s := TodayText(h, m);
    TodayTextShape(h, m);
    ClockOfFields(s, 11, ZeroPad(h, 2), ZeroPad(m, 2));
    forall j | 0 <= j < 11 ensures ClockAt(s, j).None? {
      NoClockAtNonDigit(s, j);
    }
  }

  /** `replace` makes one left-to-right pass, so removing `р.` can bring
      a new `р.` together: the cleaned text is not free of the suffix. */
  lemma SuffixCanSurvive()
    ensures Clean("рр..") == YearSuffix
  {
    assert "рр.."[1] != YearSuffix[1];
    assert "рр.."[1..] == YearSuffix + ".";
    assert ("р" + RemoveAll(YearSuffix + ".", YearSuffix)) == YearSuffix;
    StripTrimmed(YearSuffix);
  }

  /** Only the first three tokens matter on the absolute path: texts whose
      splits agree on them parse alike. */
  lemma ExtraTokensIgnored(a: string, b: string, today: Date, utcOffset: int)
    requires ValidDate(today)
    requires !IsTodayText(Clean(a)) && !IsTodayText(Clean(b))
    requires |Split(Clean(a))| >= 3 && |Split(Clean(b))| >= 3
    requires Split(Clean(a))[..3] == Split(Clean(b))[..3]
    ensures ParseUkrDate(a, today, utcOffset) == ParseUkrDate(b, today, utcOffset)
  {
    var p, q := Split(Clean(a)), Split(Clean(b));
    assert p[0] == q[0] && p[1] == q[1] && p[2] == q[2] by {
      assert p[..3][0] == q[..3][0] && p[..3][1] == q[..3][1] && p[..3][2] == q[..3][2];
    }
    assert ParseUkrDate(a, today, utcOffset) == ReadFields(p[0], p[1], p[2]);
    assert ParseUkrDate(b, today, utcOffset) == ReadFields(q[0], q[1], q[2]);
  }

  /** The card text for today at `h:m`, as OLX writes it. */
  function TodayText(h: nat, m: nat): string {
    TodayUkrainian + " о " + ZeroPad(h, 2) + ":" + ZeroPad(m, 2)
  }

  lemma TodayTextShape(h: nat, m: nat)
    requires h < 100 && m < 100
    ensures var s := TodayText(h, m);
      |s| == 16 && s[..8] == TodayUkrainian && !IsSpace(s[0]) && !IsSpace(s[15])
      && s[11..13] == ZeroPad(h, 2) && s[13] == ':' && s[14..16] == ZeroPad(m, 2)
      && (forall i :: 0 <= i < |s| ==> s[i] != 'р')
      && (forall i :: 0 <= i < 11 ==> !IsDigit(s[i]))
  {
    TodayTextFields(h, m);
    TodayTextEnds(h, m);
    TodayTextNoSuffixLetter(h, m);
    TodayTextDigits(h, m);
  }

  lemma TodayTextFields(h: nat, m: nat)
    requires h < 100 && m < 100
    ensures var s := TodayText(h, m);
      |s| == 16 && s[..8] == TodayUkrainian
      && s[11..13] == ZeroPad(h, 2) && s[13] == ':' && s[14..16] == ZeroPad(m, 2)
  {
    var hh, mm := ZeroPad(h, 2), ZeroPad(m, 2);
    var lead := TodayUkrainian + " о ";
    var s := lead + hh + ":" + mm;
    assert |lead| == 11 && |hh| == 2 && |mm| == 2;
    assert s[..11] == lead;
    assert s[11..13] == hh;
    assert s[14..16] == mm;
  }

  lemma TodayTextEnds(h: nat, m: nat)
    requires h < 100 && m < 100
    ensures var s := TodayText(h, m); |s| == 16 && !IsSpace(s[0]) && !IsSpace(s[15])
  {
    var s := TodayText(h, m);
    TodayTextFields(h, m);
    assert s[0] == s[..8][0];
    assert s[15] == s[14..16][1];
    DigitNotSpace(s[15]);
  }

  lemma TodayTextNoSuffixLetter(h: nat, m: nat)
    requires h < 100 && m < 100
    ensures var s := TodayText(h, m); forall i :: 0 <= i < |s| ==> s[i] != 'р'
  {
    var hh, mm := ZeroPad(h, 2), ZeroPad(m, 2);
    var s := TodayText(h, m);
    assert |hh| == 2 && |mm| == 2;
    forall i | 0 <= i < |s| ensures s[i] != 'р' {
      if 11 <= i < 13 {
        assert s[i] == hh[i - 11];
      } else if 14 <= i {
        assert s[i] == mm[i - 14];
      }
    }
  }

  lemma TodayTextDigits(h: nat, m: nat)
    requires h < 100 && m < 100
    ensures var s := TodayText(h, m); |s| == 16 && forall i :: 0 <= i < 11 ==> !IsDigit(s[i])
  {
    assert |ZeroPad(h, 2)| == 2 && |ZeroPad(m, 2)| == 2;
  }

  /** The card text for today with a one-digit hour, `"Сьогодні о 9:05"`. */
  function TodayTextShortHour(h: nat, m: nat): string {
    TodayUkrainian + " о " + Decimal(h) + ":" + ZeroPad(m, 2)
  }

  /** `\d{1,2}` also matches a single hour digit: the text is read as that
      clock of the reference day, or raises when the minute is out of
      range. */
  lemma ShortHourParse(h: nat, m: nat, today: Date, utcOffset: int)
    requires ValidDate(today) && h <= 9 && m <= 99
    ensures ParseUkrDate(TodayTextShortHour(h, m), today, utcOffset)
            == if ValidClock(h, m) then Parsed(EpochSeconds(today, h, m) - utcOffset) else Raises
  {
    var s := TodayTextShortHour(h, m);
    ShortHourClean(h, m);
    TodayPath(s, today, utcOffset);
    ShortHourClockFound(h, m);
  }

  lemma ShortHourClean(h: nat, m: nat)
    requires h <= 9 && m <= 99
    ensures Clean(TodayTextShortHour(h, m)) == TodayTextShortHour(h, m)
    ensures IsTodayText(TodayTextShortHour(h, m))
  {
    var s := TodayTextShortHour(h, m);
    ShortHourFields(h, m);
    ShortHourLetters(h, m);
    CleanOfPlain(s);
    assert s[..8] == s[..11][..8] == TodayUkrainian;
  }

  /** The first clock time in the text is the one-digit match at the
      hour. */
  lemma ShortHourClockFound(h: nat, m: nat)
    requires h <= 9 && m <= 99
    ensures FindClock(TodayTextShortHour(h, m), 0) == Some(ClockMatch(11, 1, h, m))
  {
    var s := TodayTextShortHour(h, m);
    ShortHourFields(h, m);
    ShortHourLetters(h, m);
    assert s[11] == s[11..12][0] && s[13] == s[13..15][0] && s[14] == s[13..15][1];
    assert ClockAt(s, 11) == Some(ClockMatch(11, 1, h, m));
    forall j | 0 <= j < 11 ensures ClockAt(s, j).None? {
      NoClockAtNonDigit(s, j);
    }
  }

  lemma ShortHourFields(h: nat, m: nat)
    requires h <= 9 && m <= 99
    ensures var s := TodayTextShortHour(h, m);
      |s| == 15 && s[..11] == TodayUkrainian + " о "
      && s[11..12] == Decimal(h) && s[12] == ':' && s[13..15] == ZeroPad(m, 2)
      && AllDigits(s[11..12]) && AllDigits(s[13..15])
  {
    var hh, mm := Decimal(h), ZeroPad(m, 2);
    var lead := TodayUkrainian + " о ";
    var s := lead + hh + ":" + mm;
    assert |lead| == 11 && |hh| == 1 && |mm| == 2;
    assert s[..11] == lead;
    assert s[11..12] == hh;
    assert s[13..15] == mm;
  }

  lemma ShortHourLetters(h: nat, m: nat)
    requires h <= 9 && m <= 99
    ensures var s := TodayTextShortHour(h, m);
      |s| == 15 && !IsSpace(s[0]) && !IsSpace(s[14])
      && (forall i :: 0 <= i < |s| ==> s[i] != 'р')
      && (forall i :: 0 <= i < 11 ==> !IsDigit(s[i]))
  {
    var hh, mm := Decimal(h), ZeroPad(m, 2);
    var s := TodayTextShortHour(h, m);
    ShortHourFields(h, m);
    forall i | 0 <= i < |s| ensures s[i] != 'р' && (i < 11 ==> !IsDigit(s[i])) {
      if i < 11 {
        assert s[i] == s[..11][i];
      } else if i == 11 {
        assert s[i] == hh[0];
      } else if 13 <= i {
        assert s[i] == mm[i - 13];
      }
    }
    assert s[0] == s[..11][0];
    assert s[14] == mm[1];
    DigitNotSpace(s[14]);
  }

  /** The Russian card text for today at `h:m`, `"Сегодня в HH:MM"`. */
  function RussianTodayText(h: nat, m: nat): string {
    TodayRussian + " в " + ZeroPad(h, 2) + ":" + ZeroPad(m, 2)
  }

  /** The Russian text is read like the Ukrainian one: the first clock time
      in it is the one it was written with. */
  lemma RussianTodayParse(h: nat, m: nat, today: Date, utcOffset: int)
    requires ValidDate(today) && h <= 99 && m <= 99
    ensures ParseUkrDate(RussianTodayText(h, m), today, utcOffset)
            == if ValidClock(h, m) then Parsed(EpochSeconds(today, h, m) - utcOffset) else Raises
  {
    var s := RussianTodayText(h, m);
    RussianTextClean(h, m);
    TodayPath(s, today, utcOffset);
    RussianClockFound(h, m);
  }

  lemma RussianTextClean(h: nat, m: nat)
    requires h < 100 && m < 100
    ensures Clean(RussianTodayText(h, m)) == RussianTodayText(h, m)
    ensures IsTodayText(RussianTodayText(h, m))
  {
    var s := RussianTodayText(h, m);
    RussianTextShape(h, m);
    CleanOfPlain(s);
    assert s[..7] == s[..10][..7];
  }

  lemma RussianClockFound(h: nat, m: nat)
    requires h < 100 && m < 100
    ensures FindClock(RussianTodayText(h, m), 0) == Some(ClockMatch(10, 2, h, m))
  {
    var s := RussianTodayText(h, m);
    RussianTextShape(h, m);
    ClockOfFields(s, 10, ZeroPad(h, 2), ZeroPad(m, 2));
    forall j | 0 <= j < 10 ensures ClockAt(s, j).None? {
      NoClockAtNonDigit(s, j);
    }
  }

  lemma RussianTextShape(h: nat, m: nat)
    requires h < 100 && m < 100
    ensures var s := RussianTodayText(h, m);
      |s| == 15 && s[..10] == TodayRussian + " в "
      && s[10..12] == ZeroPad(h, 2) && s[12] == ':' && s[13..15] == ZeroPad(m, 2)
      && !IsSpace(s[0]) && !IsSpace(s[14])
      && (forall i :: 0 <= i < |s| ==> s[i] != 'р')
      && (forall i :: 0 <= i < 10 ==> !IsDigit(s[i]))
  {
    RussianTextFields(h, m);
    RussianTextLetters(h, m);
  }

  lemma RussianTextFields(h: nat, m: nat)
    requires h < 100 && m < 100
    ensures var s := RussianTodayText(h, m);
      |s| == 15 && s[..10] == TodayRussian + " в "
      && s[10..12] == ZeroPad(h, 2) && s[12] == ':' && s[13..15] == ZeroPad(m, 2)
  {
    var hh, mm := ZeroPad(h, 2), ZeroPad(m, 2);
    var lead := TodayRussian + " в ";
    var s := lead + hh + ":" + mm;
    assert |lead| == 10 && |hh| == 2 && |mm| == 2;
    assert s[..10] == lead;
    assert s[10..12] == hh;
    assert s[13..15] == mm;
  }

  lemma RussianTextLetters(h: nat, m: nat)
    requires h < 100 && m < 100
    ensures var s := RussianTodayText(h, m);
      |s| == 15 && !IsSpace(s[0]) && !IsSpace(s[14])
      && (forall i :: 0 <= i < |s| ==> s[i] != 'р')
      && (forall i :: 0 <= i < 10 ==> !IsDigit(s[i]))
  {
    var hh, mm := ZeroPad(h, 2), ZeroPad(m, 2);
    var s := RussianTodayText(h, m);
    RussianTextFields(h, m);
    forall i | 0 <= i < |s| ensures s[i] != 'р' && (i < 10 ==> !IsDigit(s[i])) {
      if i < 10 {
        assert s[i] == s[..10][i];
      } else if i < 12 {
        assert s[i] == hh[i - 10];
      } else if 13 <= i {
        assert s[i] == mm[i - 13];
      }
    }
    assert s[0] == s[..10][0];
    assert s[14] == mm[1];
    DigitNotSpace(s[14]);
  }

  lemma DigitNotSpace(c: char)
    requires IsDigit(c)
    ensures !IsSpace(c)
  {
  }

  /** A text without the letter `р` and without surrounding whitespace is
      left as it is by the cleaning step. */
  lemma CleanOfPlain(s: string)
    requires |s| > 0 && !IsSpace(s[0]) && !IsSpace(s[|s| - 1])
    requires forall i :: 0 <= i < |s| ==> s[i] != 'р'
    ensures Clean(s) == s
  {
    forall i ensures !OccursAt(s, YearSuffix, i) {
      if 0 <= i && i + 2 <= |s| {
        assert s[i..i + 2][0] == s[i];
      }
    }
    RemoveAllAbsent(s, YearSuffix);
    StripTrimmed(s);
  }

  /** Two digits, a colon and two digits at `i` are a two-digit-hour match
      there. */
  lemma ClockOfFields(s: string, i: nat, hh: string, mm: string)
    requires |hh| == 2 && |mm| == 2 && AllDigits(hh) && AllDigits(mm)
    requires i + 5 <= |s| && s[i..i + 2] == hh && s[i + 2] == ':' && s[i + 3..i + 5] == mm
    ensures ClockAt(s, i) == Some(ClockMatch(i, 2, DigitsValue(hh), DigitsValue(mm)))
  {
    assert s[i] == hh[0] && s[i + 1] == hh[1] && s[i + 3] == mm[0] && s[i + 4] == mm[1];
  }

  lemma NoClockAtNonDigit(s: string, j: nat)
    requires j < |s| && !IsDigit(s[j])
    ensures ClockAt(s, j).None?
  {
  }

  /** The card text of an absolute date, `"12 травня 2024 р."`, with the
      day as `str(day)` and the month in either language. */
  function AbsoluteText(day: nat, name: string, year: nat): string {
    Join(" ", [Decimal(day), name, ZeroPad(year, 4), YearSuffix])
  }

  /** What the parser sees of such a text: the suffix goes, and the three
      fields are the words of the split. */
  lemma AbsoluteTextFields(day: nat, name: string, year: nat)
    requires name in Months && year <= 9999
    ensures var s := Clean(AbsoluteText(day, name, year));
      !IsTodayText(s) && Split(s) == [Decimal(day), name, ZeroPad(year, 4)]
  {
    MonthKeysCyrillic();
    FieldsText(Decimal(day), name, ZeroPad(year, 4));
  }

  lemma FieldsText(dd: string, name: string, yy: string)
    requires |dd| > 0 && AllDigits(dd) && |yy| > 0 && AllDigits(yy)
    requires |name| > 0 && CyrillicWord(name)
    ensures var s := Clean(Join(" ", [dd, name, yy, YearSuffix]));
      !IsTodayText(s) && Split(s) == [dd, name, yy]
  {
    WordsNoSpace(dd, name, yy);
    CleanFields(dd, name, yy);
    DigitFirstNotToday(Join(" ", [dd, name, yy]));
    SplitFields(dd, name, yy);
  }

  lemma WordsNoSpace(dd: string, name: string, yy: string)
    requires AllDigits(dd) && AllDigits(yy) && CyrillicWord(name)
    ensures NoSpace(dd) && NoSpace(name) && NoSpace(yy)
  {
  }

  /** Cleaning drops the year suffix and the space before it. */
  lemma CleanFields(dd: string, name: string, yy: string)
    requires |dd| > 0 && AllDigits(dd) && |yy| > 0 && AllDigits(yy)
    requires |name| > 0 && CyrillicWord(name)
    ensures var y := Join(" ", [dd, name, yy]);
      Clean(Join(" ", [dd, name, yy, YearSuffix])) == y && y[0] == dd[0]
  {
    var fields := [dd, name, yy];
    var y := Join(" ", fields);
    assert fields[1..] == [name, yy] && [name, yy][1..] == [yy];
    assert Join(" ", [name, yy]) == name + " " + yy;
    assert y == dd + " " + (name + " " + yy);
    assert fields + [YearSuffix] == [dd, name, yy, YearSuffix];
    JoinSnoc(" ", fields, YearSuffix);
    assert '.' !in dd && '.' !in name && '.' !in yy;
    SuffixOnlyAtEnd(y + " ");
    RemoveAllTail(y + " ", YearSuffix);
    assert y[0] == dd[0] && y[|y| - 1] == yy[|yy| - 1];
    StripTrailingSpace(y, ' ');
  }

  lemma SplitFields(a: string, b: string, c: string)
    requires |a| > 0 && NoSpace(a) && |b| > 0 && NoSpace(b) && |c| > 0 && NoSpace(c)
    ensures Split(Join(" ", [a, b, c])) == [a, b, c]
  {
    SplitJoin([a, b, c]);
  }

  /** A text that starts with a digit is not a "today" text. */
  lemma DigitFirstNotToday(s: string)
    requires |s| > 0 && IsDigit(s[0])
    ensures !IsTodayText(s)
  {
    if |s| >= |TodayUkrainian| {
      assert s[..|TodayUkrainian|][0] == s[0];
    }
    if |s| >= |TodayRussian| {
      assert s[..|TodayRussian|][0] == s[0];
    }
  }

  /** With no `.` before it, the suffix occurs only where it was appended. */
  lemma SuffixOnlyAtEnd(x: string)
    requires '.' !in x
    ensures forall i :: 0 <= i < |x| ==> !OccursAt(x + YearSuffix, YearSuffix, i)
  {
    forall i | 0 <= i < |x| ensures !OccursAt(x + YearSuffix, YearSuffix, i) {
      if i + 2 <= |x + YearSuffix| {
        assert (x + YearSuffix)[i..i + 2][1] == (x + YearSuffix)[i + 1];
        if i + 1 < |x| {
          assert x[i + 1] in x;
        }
      }
    }
  }

  /** An absolute date on a card is read back as midnight UTC of that
      day. */
  lemma AbsoluteRoundTrip(d: Date, name: string, today: Date, utcOffset: int)
    requires ValidDate(d) && ValidDate(today)
    requires name == UkrainianMonths[d.month - 1] || name == RussianMonths[d.month - 1]
    ensures ParseUkrDate(AbsoluteText(d.day, name, d.year), today, utcOffset) == Parsed(DayStart(d))
  {
    MonthOfName(name, d.month);
    AbsoluteParse(d.day, name, d.year, today, utcOffset);
    DateFields(d.day, d.year);
  }

  /** A known month with a day it does not have (`"31 лютого 2024 р."`) makes
      `strptime` raise rather than return `None`. */
  lemma ImpossibleDateRaises(day: nat, month: int, year: nat, today: Date, utcOffset: int)
    requires ValidDate(today) && 1 <= month <= 12 && 1 <= year <= 9999
    requires DaysInMonth(year, month) < day <= 31
    ensures ParseUkrDate(AbsoluteText(day, UkrainianMonths[month - 1], year), today, utcOffset) == Raises
  {
    MonthOfName(UkrainianMonths[month - 1], month);
    AbsoluteParse(day, UkrainianMonths[month - 1], year, today, utcOffset);
    DateFields(day, year);
  }

  /** The month a name from either list stands for. */
  lemma MonthOfName(name: string, m: int)
    requires 1 <= m <= 12 && (name == UkrainianMonths[m - 1] || name == RussianMonths[m - 1])
    ensures name in Months && Months[name] == m && Lower(name) == name
  {
    MonthNames();
    MonthKeysLowerCase();
  }

  /** `str(day)` and the four-digit year are read back by `%d` and `%Y`. */
  lemma DateFields(day: nat, year: nat)
    requires 1 <= day <= 31 && year <= 9999
    ensures DayField(Decimal(day)) == Some(day) && YearField(ZeroPad(year, 4)) == Some(year)
  {
  }

  /** The parser on an absolute-date text: the fields go to `strptime`. */
  lemma AbsoluteParse(day: nat, name: string, year: nat, today: Date, utcOffset: int)
    requires ValidDate(today) && name in Months && Lower(name) == name && year <= 9999
    ensures var r := ParseUkrDate(AbsoluteText(day, name, year), today, utcOffset);
      match AbsoluteDate(Decimal(day), Months[name], ZeroPad(year, 4))
      case Some(d) => r == Parsed(DayStart(d))
      case None => r == Raises
  {
    AbsoluteTextFields(day, name, year);
  }

  // ------------------------------------------------------------ resize_image_url

  /** Where `$` can match: the end of the string, or just before a final
      newline. */
  function MatchEnd(url: string): (e: nat)
    ensures e <= |url|
  {
    if |url| > 0 && url[|url| - 1] == '\n' then |url| - 1 else |url|
  }

  /** `t` matches `\d+x\d+`. */
  predicate IsSizeSpec(t: string) {
    exists j :: 0 < j < |t| - 1 && t[j] == 'x' && AllDigits(t[..j]) && AllDigits(t[j + 1..])
  }

  /** The reference definition: `(s=\d+x\d+)$` matches `url[i..e]`. */
  predicate SuffixMatch(url: string, i: int, e: int) {
    0 <= i && i + 2 <= e <= |url| && url[i..i + 2] == "s=" && IsSizeSpec(url[i + 2..e])
    && (e == |url| || (e == |url| - 1 && url[e] == '\n'))
  }

  /** The number of digits in the run that ends just before `e`. */
  function DigitsBefore(s: string, e: nat): (k: nat)
    requires e <= |s|
    ensures k <= e && AllDigits(s[e - k..e])
    ensures k < e ==> !IsDigit(s[e - k - 1])
  {
    if e == 0 || !IsDigit(s[e - 1]) then 0
    else
      var k := DigitsBefore(s, e - 1);
      DigitRunGrows(s, e, k);
      1 + k
  }

  /** A digit run ending just before `e - 1`, followed by the digit at
      `e - 1`, is a digit run ending just before `e`. */
  lemma DigitRunGrows(s: string, e: nat, k: nat)
    requires 0 < e <= |s| && k <= e - 1 && AllDigits(s[e - 1 - k..e - 1]) && IsDigit(s[e - 1])
    ensures AllDigits(s[e - (1 + k)..e])
  {
    var run := s[e - (1 + k)..e];
    forall i | 0 <= i < |run| ensures IsDigit(run[i]) {
      if i < k {
        assert run[i] == s[e - 1 - k..e - 1][i];
      } else {
        assert run[i] == s[e - 1];
      }
    }
  }

  /** Where the size suffix starts, found from the right: digits, `x`,
      digits, `s=`. */
  function SizeSuffixStart(url: string): Option<nat> {
    var e := MatchEnd(url);
    var h := DigitsBefore(url, e);
    if h == 0 || h == e || url[e - h - 1] != 'x' then None
    else
      var xAt := e - h - 1;
      var w := DigitsBefore(url, xAt);
      if w == 0 || w + 2 > xAt || url[xAt - w - 2..xAt - w] != "s=" then None
      else Some(xAt - w - 2)
  }

  /** `resize_image_url(url, new_size)`. */
  function ResizeImageUrl(url: string, newSize: string): (r: string)
    ensures forall i, e :: SuffixMatch(url, i, e) ==> r == url[..i] + "s=" + newSize + url[e..]
    ensures (forall i, e :: !SuffixMatch(url, i, e)) ==> r == url
  {
    SuffixStartMatches(url);
    match SizeSuffixStart(url)
    case Some(i) => url[..i] + "s=" + newSize + url[MatchEnd(url)..]
    case None => url
  }

  const DefaultSize: string := "600x300"

  /** After a rewrite the URL ends in the new size suffix. */
  lemma ResizedHasSize(url: string, newSize: string)
    requires IsSizeSpec(newSize) && SizeSuffixStart(url).Some?
    ensures var i := SizeSuffixStart(url).value;
      SuffixMatch(ResizeImageUrl(url, newSize), i, i + 2 + |newSize|)
  {
    SuffixStartMatches(url);
    var i := SizeSuffixStart(url).value;
    var e := MatchEnd(url);
    var r := ResizeImageUrl(url, newSize);
    assert SuffixMatch(url, i, e);
    assert r == url[..i] + "s=" + newSize + url[e..];
    assert r[i..i + 2] == "s=" && r[i + 2..i + 2 + |newSize|] == newSize;
  }

  /** Resizing to a size twice is resizing once. */
  lemma ResizeIdempotent(url: string, newSize: string)
    requires IsSizeSpec(newSize)
    ensures ResizeImageUrl(ResizeImageUrl(url, newSize), newSize) == ResizeImageUrl(url, newSize)
  {
    SuffixStartMatches(url);
    var r := ResizeImageUrl(url, newSize);
    if SizeSuffixStart(url).Some? {
      var i := SizeSuffixStart(url).value;
      var e := MatchEnd(url);
      assert SuffixMatch(url, i, e);
      ResizedHasSize(url, newSize);
      var e' := i + 2 + |newSize|;
      assert r[..i] == url[..i] && r[e'..] == url[e..];
      assert ResizeImageUrl(r, newSize) == r[..i] + "s=" + newSize + r[e'..];
    } else {
      assert r == url;
    }
  }

  /** `SizeSuffixStart` finds exactly the matches of the regular expression:
      there is at most one, and it ends where `$` can match. */
  lemma SuffixStartMatches(url: string)
    ensures forall i :: SizeSuffixStart(url) == Some(i) ==> SuffixMatch(url, i, MatchEnd(url))
    ensures forall i, e :: SuffixMatch(url, i, e) ==> SizeSuffixStart(url) == Some(i) && e == MatchEnd(url)
  {
    if SizeSuffixStart(url).Some? {
      FoundIsMatch(url);
    }
    forall i, e' | SuffixMatch(url, i, e') ensures SizeSuffixStart(url) == Some(i) && e' == MatchEnd(url) {
      MatchIsFound(url, i, e');
    }
  }

  /** What `SizeSuffixStart` finds is a match of the regular expression. */
  lemma FoundIsMatch(url: string)
    requires SizeSuffixStart(url).Some?
    ensures SuffixMatch(url, SizeSuffixStart(url).value, MatchEnd(url))
  {
    var e := MatchEnd(url);
    var h := DigitsBefore(url, e);
    var xAt := e - h - 1;
    var w := DigitsBefore(url, xAt);
    var i := xAt - w - 2;
    assert SizeSuffixStart(url) == Some(i);
    var t := url[i + 2..e];
    assert |t| == w + 1 + h;
    assert t[w] == url[xAt];
    assert t[..w] == url[xAt - w..xAt];
    assert t[w + 1..] == url[e - h..e];
    assert IsSizeSpec(t);
  }

  /** Every match of the regular expression ends where `$` matches and is
      the one `SizeSuffixStart` finds. */
  lemma MatchIsFound(url: string, i: int, e: int)
    requires SuffixMatch(url, i, e)
    ensures SizeSuffixStart(url) == Some(i) && e == MatchEnd(url)
  {
    var j := SizeSpecParts(url, i, e);
    var xAt := i + 2 + j;
    var h := e - xAt - 1;
    MatchEndsAtEnd(url, i, e, j);
    DigitsBeforeExact(url, e, h);
    assert url[i + 1] == url[i..i + 2][1];
    DigitsBeforeExact(url, xAt, j);
    StartFromRuns(url, e, h, j);
  }

  /** A match ends with a digit, so it ends where `$` matches. */
  lemma MatchEndsAtEnd(url: string, i: int, e: int, j: int)
    requires SuffixMatch(url, i, e) && 0 < j && i + 2 + j + 1 < e
    requires AllDigits(url[i + 3 + j..e])
    ensures e == MatchEnd(url)
  {
    assert IsDigit(url[i + 3 + j..e][e - (i + 3 + j) - 1]);
  }

  /** The digit runs around the `x`, preceded by `s=`, are what
      `SizeSuffixStart` looks for. */
  lemma StartFromRuns(url: string, e: nat, h: nat, j: nat)
    requires e == MatchEnd(url) && 0 < h < e && DigitsBefore(url, e) == h && url[e - h - 1] == 'x'
    requires 0 < j && j + 2 <= e - h - 1 && DigitsBefore(url, e - h - 1) == j
    requires url[e - h - 1 - j - 2..e - h - 1 - j] == "s="
    ensures SizeSuffixStart(url) == Some(e - h - 1 - j - 2)
  {
  }

  /** The two digit runs and the `x` of a match, located in `url`. */
  lemma SizeSpecParts(url: string, i: int, e: int) returns (j: int)
    requires SuffixMatch(url, i, e)
    ensures 0 < j && i + 2 + j + 1 < e && url[i + 2 + j] == 'x'
    ensures AllDigits(url[i + 2..i + 2 + j]) && AllDigits(url[i + 3 + j..e])
  {
    var t := url[i + 2..e];
    j :| 0 < j < |t| - 1 && t[j] == 'x' && AllDigits(t[..j]) && AllDigits(t[j + 1..]);
    SliceOfSlice(url, i + 2, e, 0, j);
    SliceOfSlice(url, i + 2, e, j + 1, |t|);
    assert url[i + 2 + j] == t[j];
  }

  lemma SliceOfSlice(s: string, a: nat, b: nat, c: nat, d: nat)
    requires a <= b <= |s| && c <= d <= b - a
    ensures s[a..b][c..d] == s[a + c..a + d]
  {
    forall k | 0 <= k < d - c ensures s[a..b][c..d][k] == s[a + c..a + d][k] {
      assert s[a..b][c..d][k] == s[a..b][c + k];
    }
  }

  /** A digit run that is preceded by a non-digit (or the start) is the
      whole run `DigitsBefore` measures. */
  lemma {:induction false} DigitsBeforeExact(s: string, e: nat, k: nat)
    requires k <= e <= |s| && AllDigits(s[e - k..e])
    requires k == e || !IsDigit(s[e - k - 1])
    ensures DigitsBefore(s, e) == k
    decreases k
  {
    if k > 0 {
      assert IsDigit(s[e - k..e][k - 1]);
      assert s[e - 1 - (k - 1)..e - 1] == s[e - k..e][..k - 1];
      DigitsBeforeExact(s, e - 1, k - 1);
    }
  }
}
