# OLX rental listings: a verified model of the listing lifecycle

This project models, in Dafny, the core of a scraper that watches OLX rental
adverts for Kyiv and announces new ones in a Telegram chat. It has two
generations of code: the package under `bot/` (`utils.py`, `db.py`,
`scraper.py`) and the older single-file `bot.py`.

Each listing goes through the same lifecycle in both generations:

- A listing page is walked page by page.
- Every card on a page goes through a check-and-touch of the `listings`
  table (`is_new_listing`). New cards are then inserted with their title,
  price, district, thumbnail and creation date. The creation date is read
  from the card's location line by `parse_ukr_date`, which understands
  "Сьогодні о 14:05" and "12 березня 2024 р.".
- A second pass selects the recent listings of the wanted districts that
  still lack a description.
- For each of them the pass opens the advert, and either marks it
  `NOT AVAILABLE` or stores its description and first image and posts a
  message.

Time is an integer number of seconds since the Unix epoch. The table is a
map from `id` (the primary key, so there is at most one row per id) to the
other eight columns. SQL NULL is `None`. Whatever comes from the network, the
browser, the clock or the database engine is a parameter: the cards of a
page, the outcome of each request, the reference day and zone offset, and,
for bot.py, whether its guarded `is_new_listing` fails. The statements of
bot/scraper.py are modelled as never failing (see "Left out").

| file | module | models |
|---|---|---|
| text.dfy | Text | the Python `str` operations the code relies on: `strip`, `split`, `join`, `replace(…, "")`, `lower`, `in` |
| calendar.dfy | Calendar | the proleptic Gregorian calendar of `datetime`, and seconds since the epoch |
| utils.dfy | Utils | `parse_ukr_date` and `resize_image_url` of bot/utils.py |
| store.dfy | Store | the `listings` table, `is_new_listing` (both variants) and the scrapers' `INSERT`/`UPDATE` statements |
| crawler.dfy | Crawler | `parse_card` and `get_links` of bot/scraper.py |
| gallery.dfy | Gallery | slider images, description text, image download bound and collage geometry of bot/scraper.py |
| backfill.dfy | Backfill | the selection and retry loop of `update_missing_descriptions_and_images` in bot/scraper.py |
| legacy.dfy | Legacy | `parse_ukr_date`, `parse_card` and `get_links` of bot.py, including how the database reads bot.py's date text |
| legacy_message.dfy | LegacyMessage | the tag stripping and whitespace collapsing of bot.py, and the text of its `send_message` |
| legacy_update.dfy | LegacyUpdate | the selection and update loop of bot.py |

Where the code and its documentation disagree, the model follows the code:

- **Only new ids get the card upsert.** bot/scraper.py:53 returns early when
  `is_new_listing` reports the id as seen, so the upsert runs only for new
  ids. A card seen again only gets its `last_seen_dt` moved; its price and
  title are not refreshed (`Crawler.KnownCardsOnlyTouch`).
- **Where created_at comes from.** bot/scraper.py defaults `created_at_dt` to
  the current time. bot.py defaults it to NULL, and stores the text its own
  `parse_ukr_date` returns, which the database then casts.
- **The "р." suffix is not always removed.** The removal is a single
  left-to-right pass, so a suffix can survive it (`Utils.SuffixCanSurvive`).
- **The Russian "today" text loses its clock in bot.py.** bot/utils.py:43
  looks for any `HH:MM`, so "Сегодня в 14:30" is read as 14:30. The pattern
  of bot.py:121 wants the letter `о` before the clock, which the Russian
  text lacks, so bot.py stores midnight of that day
  (`Legacy.RussianTodayDiffers`).
- **Midnight as 24:00.** bot/utils.py raises on a clock of 24:00 through
  `strptime`. bot.py passes it on as text, and the database reads it as the
  next midnight (`Legacy.MidnightClock`).
- **Blank descriptions are picked again.** An advert whose description is
  blank gets `''` stored, which both selections treat as missing. In bot.py,
  where every successful update posts a message, the listing is posted again
  on every run while it is inside the half-hour window
  (`LegacyUpdate.BlankPageReposted`).
- **bot.py does not compile.** At bot.py:293, `global driver` follows the use
  of `driver` as a parameter of the same function. CPython rejects that when
  it compiles the file, so bot.py as written cannot be loaded. The model
  describes its functions as written apart from that statement, and leaves
  out the driver restart it belongs to.

## Model

| member | source | states |
|---|---|---|
| Utils.MonthNames | bot/utils.py:31-36 | every month number 1–12 has a Ukrainian and a Russian name, different from each other, both mapping to it |
| Utils.MonthKeysNamed | bot/utils.py:31-36 | every key maps into 1–12 and is the Ukrainian or the Russian name of its month |
| Utils.MonthKeysLowerCase | bot/utils.py:31-36 | every key is already lower case, so `parts[1].lower()` can find each of them |
| Utils.DayField | bot/utils.py:61 | a day accepted by `%d` lies in 1–31 |
| Utils.YearField | bot/utils.py:61 | a year accepted by `%Y` lies in 0–9999 |
| Utils.FindClock | bot/utils.py:43 | the clock found is the leftmost `\d{1,2}:\d{2}` match, and none means no position matches |
| Utils.ParseUkrDate | bot/utils.py:30-67 | None exactly when the cleaned text is not a "today" text and has fewer than three tokens or an unknown month; a "today" result lies within the reference day; an absolute result is the midnight UTC of a valid date |
| Utils.ReadToday | bot/utils.py:42-52 | the "today" path never gives None, and an instant it gives lies within the reference day |
| Utils.TodayClockFound | bot/utils.py:43 | in "Сьогодні о HH:MM" the leftmost clock match is the HH:MM written there |
| Utils.TodayRoundTrip | bot/utils.py:42-52 | "Сьогодні о HH:MM" with a valid clock gives that time on the reference day, converted to UTC |
| Utils.TodayParse | bot/utils.py:42-52 | a two-digit "today" clock gives the reference day at that time when valid, and raises otherwise |
| Utils.ShortHourParse | bot/utils.py:39-52 | a one-digit "today" hour ("Сьогодні о 9:05") gives the reference day at that time when valid, and raises otherwise |
| Utils.TodayClockOutOfRange | bot/utils.py:49 | a "today" clock past 23:59 raises instead of returning None |
| Utils.TodayWithoutClock | bot/utils.py:39-49 | a text that is a "today" text once cleaned, with no digits left, gives 00:00 of the reference day |
| Utils.RussianTodayParse | bot/utils.py:39-52 | "Сегодня в HH:MM" is read as that clock of the reference day, or raises when the clock is out of range |
| Utils.SuffixCanSurvive | bot/utils.py:39 | removing "р." is a single pass: "рр.." cleans to "р." |
| Utils.ExtraTokensIgnored | bot/utils.py:54-58 | two absolute texts that agree on their first three tokens parse alike |
| Utils.AbsoluteRoundTrip | bot/utils.py:54-64 | "D <month> YYYY р." with either name of the month gives midnight UTC of that date |
| Utils.AbsoluteParse | bot/utils.py:54-64 | an absolute text with a known month gives the date `strptime` builds from its fields, or raises when there is none |
| Utils.ImpossibleDateRaises | bot/utils.py:61 | a known month with a day it does not have raises rather than returning None |
| Utils.ResizeImageUrl | bot/utils.py:70-74 | a trailing `s=<digits>x<digits>` is replaced by `s=<size>` with the prefix kept; any other URL is returned unchanged |
| Utils.MatchIsFound | bot/utils.py:71-72 | the size suffix the pattern can match is unique and is the one the rewrite finds |
| Utils.ResizedHasSize | bot/utils.py:70-74 | after the rewrite the URL ends in a size suffix whose size is the new one |
| Utils.ResizeIdempotent | bot/utils.py:70-74 | rewriting twice with the same size is rewriting once |
| Text.Strip | bot/utils.py:39 | `strip()` leaves no whitespace at either end and keeps every visible character |
| Text.SplitWords | bot/utils.py:54 | `split()` yields non-empty words without whitespace |
| Text.SplitJoin | bot/utils.py:54 | words joined by single spaces split back into the same words |
| Text.SplitKeepsVisible | bot/utils.py:54 | the words of `split()`, put back together, are exactly the visible characters |
| Text.RemoveAllAbsent | bot/utils.py:39 | removing a substring that does not occur changes nothing |
| Text.Lower | bot/utils.py:57 | lower-casing maps each character on its own and keeps the length |
| Calendar.DaysInMonth | bot/utils.py:61 | every month has 28 to 31 days |
| Calendar.OrdinalIncreasing | bot/utils.py:61-62 | a later date has a larger day number |
| Calendar.EpochSecondsInjective | bot/utils.py:49-50 | distinct valid date-and-clock pairs are distinct instants |
| Calendar.EpochIsUnixEpoch | bot/utils.py:62 | day numbers are counted so that 1970-01-01 is the epoch |
| Store.Touch | bot/db.py:55-68 | after the check-and-touch the id has a row whose `last_seen_dt` is now; an absent id gets a stub and the table grows by one; an existing row changes only `last_seen_dt`; no other row changes |
| Store.TouchTwice | bot/db.py:55-68 | two checks of an absent id: the table grows by exactly one row, a stub |
| Store.TouchAgain | bot/db.py:66-67 | touching again at the same instant changes nothing |
| Store.Upsert | bot/scraper.py:83-104 | the upsert sets every column but `description`, which stays as it was (NULL for a new row); no other row changes |
| Store.UpsertAfterTouchHasNoDescription | bot/scraper.py:83-104 | after a touch then an upsert, the new row's description is still NULL |
| Store.SetDetails | bot/scraper.py:302-305 | the update sets description and image of that id only, and changes nothing when the id is absent |
| Store.MarkedUnavailable | bot/scraper.py:279-282 | the gone advert gets `NOT AVAILABLE` and a NULL image; no other row changes |
| Store.ListingStore.constructor | bot/db.py:36-48 | the table starts with the given rows |
| Store.ListingStore.IsNewListing | bot/db.py:55-68 | returns true exactly when no row had the id, and the table becomes the check-and-touch of the old table |
| Store.ListingStore.IsNewListingGuarded | bot.py:68-83 | a failing statement makes the call return false and write nothing; otherwise it behaves as `is_new_listing` |
| Store.ListingStore.UpsertCard | bot/scraper.py:83-104 | the table becomes the upsert of the old table |
| Store.ListingStore.StoreDetails | bot/scraper.py:302-306 | the table becomes the old one with the description and first image stored |
| Store.ListingStore.MarkUnavailable | bot/scraper.py:279-283 | the table becomes the old one with the advert marked gone |
| Crawler.DatePart | bot/scraper.py:75-77 | there is a date part exactly when the location line holds `" - "`, and it is the text after the first occurrence |
| Crawler.CreatedAtOf | bot/scraper.py:72-80 | `created_at_dt` is now unless the date part parses to an instant; it raises exactly when the date part raises |
| Crawler.CreatedFromDistrict | bot/scraper.py:75-80 | "place - D <month> YYYY р." gives midnight UTC of that date as the creation time |
| Crawler.CardEffect | bot/scraper.py:49-107 | a card without id writes nothing; a known id is only touched; a new id gets the upsert with "" for missing text and NULL description, or only its stub when the date raises |
| Crawler.CrawlFrom | bot/scraper.py:116-147 | the page walk; its order, bound and stopping rule are stated by `CrawlPages` and `CrawlReachesPage`, its writes by `RecrawlOnlyTouches` |
| Crawler.KnownCardsOnlyTouch | bot/scraper.py:51-54 | a page of cards that are all known moves only `last_seen_dt` |
| Crawler.CrawlPages | bot/scraper.py:116-147 | pages are requested in increasing order from the first, none past the limit, every one but the last fetched, and the walk stops early only on a failure |
| Crawler.CrawlReachesPage | bot/scraper.py:116-147 | every page before which all fetches succeed is requested |
| Crawler.RecrawlOnlyTouches | bot/scraper.py:109-147 | re-walking pages whose cards are all known moves only `last_seen_dt` |
| Crawler.ParseCard | bot/scraper.py:49-107 | the table becomes the card's effect on the old table |
| Crawler.ParsePage | bot/scraper.py:140-141 | the table becomes the effect of the page's cards, one after another in page order |
| Crawler.GetLinks | bot/scraper.py:109-147 | the table and the pages tried are those of the page walk |
| Gallery.DedupSpec | bot/scraper.py:151-159 | de-duplication keeps each URL once, loses none, and keeps first-occurrence order |
| Gallery.CandidatesFromSources | bot/scraper.py:152-156 | every candidate is the resized form of a non-empty `src`, and every non-empty `src` yields one |
| Gallery.SliderUrlsSpec | bot/scraper.py:149-161 | the slider URLs hold no duplicate and are exactly the resized non-empty sources |
| Gallery.SliderUrls | bot/scraper.py:149-161 | the resized non-empty sources without duplicates; stated by `SliderUrlsSpec`, `CandidatesFromSources` and `DedupSpec` |
| Gallery.GetAllSliderImages | bot/scraper.py:149-161 | the loop returns the de-duplicated resized sources |
| Gallery.ParseDescription | bot/scraper.py:163-170 | a missing block gives "Опис не знайдено"; otherwise the block's text nodes joined |
| Gallery.StrippedNodes | bot/scraper.py:169 | every node kept is stripped and non-empty |
| Gallery.NodeTextSpec | bot/scraper.py:169 | the description keeps every visible character of the nodes and has no whitespace at either end |
| Gallery.SliceTo | bot/scraper.py:174 | `[:k]` is a prefix of length min(k, n) for k ≥ 0 |
| Gallery.DownloadImages | bot/scraper.py:172-189 | the images are the successful downloads among the first `max_images` URLs, never more than `max_images` |
| Gallery.Downloaded | bot/scraper.py:174-189 | never more images than the first `max_images` URLs; that all successes are kept in order is `AllDownloaded` |
| Gallery.AllDownloaded | bot/scraper.py:174-184 | when every download succeeds, all of them are kept, in order |
| Gallery.Rows | bot/scraper.py:198 | rows is the ceiling of n / cols |
| Gallery.CreateCollage | bot/scraper.py:191-217 | None exactly for no images; otherwise the canvas size and each image's paste offset |
| Gallery.CollageOf | bot/scraper.py:191-217 | the collage the code builds; its layout is stated by `OffsetParts`, `CellInside`, `CellsDisjoint` and `CollageSound`, its flaw by `LargerImageOverflows` |
| Gallery.OffsetParts | bot/scraper.py:208-209 | image idx is pasted at column idx mod cols and row idx div cols |
| Gallery.CellInside | bot/scraper.py:201-210 | every cell of the layout lies inside the canvas, with the margin around it |
| Gallery.CellsDisjoint | bot/scraper.py:207-210 | the cells of two different images are at least a margin apart |
| Gallery.LayoutSound | bot/scraper.py:196-210 | images no larger than the cell are pasted inside the canvas and never overlap |
| Gallery.CollageSound | bot/scraper.py:196-210 | when no image is larger than the first, every image is inside the canvas and no two overlap |
| Gallery.LargerImageOverflows | bot/scraper.py:183-210 | a later image larger than the first can leave the canvas and cover another image |
| Gallery.LargestSize | bot/scraper.py:196 | the largest width and height among the images, each attained by some image |
| Gallery.LargestSound | bot/scraper.py:191-210 | with cells of the largest size, every image is inside the canvas and no two overlap, for any sizes |
| Gallery.LargestAgrees | bot/scraper.py:196-210 | when no image is larger than the first, the corrected layout is the one the code builds |
| Backfill.StubNotSelected | bot/scraper.py:225-226 | a row only touched by the check-and-touch is never selected |
| Backfill.Selected | bot/scraper.py:222-253 | the `SELECT` of the backfill; who leaves and who stays in it is stated by `StubNotSelected`, `DetailsLeaveSelection` and `BlankDescriptionStaysSelected` |
| Backfill.DetailsLeaveSelection | bot/scraper.py:225 | a stored non-empty description, or `NOT AVAILABLE`, takes the row out of the selection |
| Backfill.BlankDescriptionStaysSelected | bot/scraper.py:225 | a description whose text nodes are all blank stores `''` and the row stays selected |
| Backfill.RetryWrites | bot/scraper.py:268-319 | at most two attempts, and only the listing's own row is written |
| Backfill.AttemptEffect | bot/scraper.py:269-317 | one attempt of the loop; its table, events and stop flag are tied to `TryAttempt`, and `AttemptWrites` states that it writes only the listing's own row |
| Backfill.Retry | bot/scraper.py:268-319 | the two-attempt loop; stated by `RetryWrites`, `RetryEvents`, `LastAttemptEvents`, `InactiveAdvert`, `FirstAttemptSucceeds`, `BothRequestsFail` and `SendFailureRetries` |
| Backfill.LastAttemptEvents | bot/scraper.py:313-319 | the second attempt never sleeps and sends at most once |
| Backfill.RetryEvents | bot/scraper.py:268-319 | at most one message per listing, and one 3-second sleep exactly when the first attempt fails |
| Backfill.InactiveAdvert | bot/scraper.py:276-284 | a gone advert is marked, nothing is sent and no second request is made |
| Backfill.FirstAttemptSucceeds | bot/scraper.py:286-312 | a successful first attempt stores description and first image and sends one message |
| Backfill.BothRequestsFail | bot/scraper.py:313-319 | two failed requests leave the table unchanged after one sleep |
| Backfill.SendFailureRetries | bot/scraper.py:302-317 | a send that raises after the update leads to a second request and update |
| Backfill.ReadPage | bot/scraper.py:287-300 | the message and first image built from one loaded page |
| Backfill.TryAttempt | bot/scraper.py:269-317 | one pass of the attempt loop: the table, the events and whether the loop stops are those of one attempt |
| Backfill.BackfillListing | bot/scraper.py:268-319 | the attempt loop's table and events are those of the retry function |
| Backfill.UnselectedUntouched | bot/scraper.py:263-324 | rows not selected keep their content through the run |
| Backfill.BackfillBounds | bot/scraper.py:263-324 | at most one message and two requests per selected listing |
| Backfill.UpdateMissing | bot/scraper.py:219-324 | given a valid answer of the `SELECT`, the table and events are those of processing each listing in order |
| Legacy.FindAtClock | bot.py:121 | the clock found is the leftmost `о\s*\d{1,2}:\d{2}` match |
| Legacy.LegacyParseUkrDate | bot.py:109-141 | bot.py's parser; its "today" texts are stated by `LegacyTodayClock`, `LegacyShortHourClock`, `LegacyTodayWithoutClock` and `RussianTodayDiffers`, its absolute texts by `LegacyAbsoluteParse` and `LegacyImpossibleDate`, and its agreement with bot/utils.py by `AbsoluteVariantsAgree` and `TodayVariantsAgree` |
| Legacy.CastStamp | bot.py:167-188 | the database's reading of the stored text; stated by `CastTodayClock`, `CastShortHour`, `MidnightCast` and `RejectedClock` |
| Legacy.LegacyTodayClock | bot.py:120-125 | "Сьогодні о HH:MM" gives the text `YYYY-MM-DD HH:MM:00` of the reference day |
| Legacy.LegacyShortHourClock | bot.py:118-125 | "Сьогодні о H:MM" with a one-digit hour gives the text `YYYY-MM-DD H:MM:00` of the reference day |
| Legacy.ShortHourVariantsAgree | bot.py:120-125 | for a one-digit hour with a valid clock, the database reads bot.py's text as bot/utils.py's instant |
| Legacy.CastShortHour | bot.py:167-188 | the database reads a one-digit-hour clock as that time of the day when it accepts the clock, and rejects it otherwise |
| Legacy.LegacyTodayWithoutClock | bot.py:118-125 | a text that is a "today" text once cleaned, with no digits left, gives `YYYY-MM-DD 00:00:00` |
| Legacy.StampOfToday | bot.py:120-123 | the "today" path always stamps a time of the reference day |
| Legacy.LegacyAbsoluteParse | bot.py:127-139 | an absolute text with a known month gives the ISO date `strptime` builds, or None when it fails |
| Legacy.LegacyAbsoluteRoundTrip | bot.py:127-136 | "D <month> YYYY р." gives `YYYY-MM-DDT00:00:00` |
| Legacy.LegacyImpossibleDate | bot.py:133-139 | an impossible day with a known month is caught and gives None |
| Legacy.AbsoluteVariantsAgree | bot.py:109-141 | away from "today", bot.py gives a text exactly when bot/utils.py gives an instant, and the database reads it as that instant |
| Legacy.TodayVariantsAgree | bot.py:120-125 | for "Сьогодні о HH:MM" with a valid clock, the database reads bot.py's text as bot/utils.py's instant |
| Legacy.RussianTodayDiffers | bot.py:120-125 | for "Сегодня в HH:MM" bot/utils.py reads the clock, while bot.py gives midnight of the day |
| Legacy.MidnightClock | bot.py:120-125 | 24:00 raises in bot/utils.py but is read by the database as the next midnight |
| Legacy.MidnightCast | bot.py:167-188 | the database reads a 24:00 clock as the start of the next day |
| Legacy.RejectedClock | bot.py:120-125 | any other clock past 23:59 gives a text the database rejects |
| Legacy.NextMidnight | bot.py:167-188 | 24:00 of a day is the start of the following day |
| Legacy.CastTodayClock | bot.py:167-188 | the database accepts clocks up to 23:59 and 24:00, and rejects any other |
| Legacy.LegacyCardEffect | bot.py:143-193 | no id or a failing check writes nothing; otherwise the id's row exists, a known row changes only `last_seen_dt`, and a new row has no description |
| Legacy.LegacyNewCardStored | bot.py:150-193 | a new card is stored with its title, price, district and image, no description, `upload_dt` and `last_seen_dt` of now and the database's reading of its created-at text; it stays the stub when an element is missing or the database rejects the text |
| Legacy.TodayCardStored | bot.py:159-193 | a new card located "<place> - Сьогодні о HH:MM" is stored with that clock of the local day in the session's zone as created-at |
| Legacy.TodayCreated | bot.py:159-188 | the created-at column of such a location is that clock read in the session's zone |
| Legacy.LegacySeenOnlyTouches | bot.py:146-151 | a known id is only touched, or left alone when the check fails |
| Legacy.NoDateGivesNull | bot.py:159-163 | a location line without `" - "` stores a NULL creation time |
| Legacy.FailedInsertLeavesStub | bot.py:143-193 | a card missing an element, or whose date text the database rejects, leaves a stub that later visits do not fill |
| Legacy.LegacyParseCard | bot.py:143-193 | the table becomes the card's effect on the old table |
| Legacy.LegacyCrawlPages | bot.py:302-340 | pages advance by one from the first, none past the limit, and the walk ends at the limit, on a page without cards, or on a failure |
| Legacy.LegacyParsePage | bot.py:325-326 | the table becomes the effect of the page's cards, one after another in page order |
| Legacy.LegacyGetLinks | bot.py:302-340 | the `while True` loop's table and pages tried are those of the page walk |
| LegacyMessage.StripTags | bot.py:271 | removing tags never lengthens the text |
| LegacyMessage.NoCloseUnchanged | bot.py:271 | a text without `>` holds no tag and is left alone |
| LegacyMessage.StripTagsTagFree | bot.py:271 | no `<…>` tag is left after the single pass |
| LegacyMessage.StripTagsFixed | bot.py:271 | the substitution changes a text exactly when it holds a tag |
| LegacyMessage.StripTagsIdempotent | bot.py:271 | stripping tags twice is stripping once |
| LegacyMessage.CollapseSpec | bot.py:272 | collapsing keeps the words and visible characters, leaves only single spaces between words, and is idempotent |
| LegacyMessage.CleanDescriptionSpec | bot.py:270-272 | the stored description holds the words of the tag-free text, single spaced |
| LegacyMessage.CleanDescription | bot.py:270-272 | the stored description; stated by `CleanDescriptionSpec` and `BlankHtmlCleansToEmpty` |
| LegacyMessage.BlankHtmlCleansToEmpty | bot.py:270-272 | a blank description block stores `''` |
| LegacyMessage.LinesJoin | bot.py:196-202 | splitting at line breaks undoes joining lines that hold none |
| LegacyMessage.MessageLines | bot.py:196-202 | the message is six lines (name, district, blank, price, description, link), each field readable from its line and the description cut to 500 characters |
| LegacyMessage.MessageText | bot.py:196-202 | the six-line message; its lines are stated by `MessageLines` and `LinesJoin` |
| LegacyMessage.DeliveryOf | bot.py:204-215 | a photo with the message as caption exactly when the first image URL is non-empty, else a text message; stated by `PostedMatchesRow` |
| LegacyUpdate.ContainsFolds | bot.py:228-239 | a case-sensitive `LIKE` match is also a case-insensitive one |
| LegacyUpdate.LegacyWithinScraperSelection | bot.py:222-242 | a row bot.py selects that passes the name filter and is at most a day old is also selected by bot/scraper.py |
| LegacyUpdate.StubNotLegacySelected | bot.py:225-227 | a row only touched by the check-and-touch is never selected |
| LegacyUpdate.LegacySelected | bot.py:222-242 | the `SELECT` of bot.py; stated by `StubNotLegacySelected`, `LegacyWithinScraperSelection`, `PostedNotReselected` and `BlankPageReposted` |
| LegacyUpdate.FirstListedSpec | bot.py:274-277 | the first image kept is the `src` of some slider image, none when the slider is empty, and the only `src` when all images share one |
| LegacyUpdate.UpdateStep | bot.py:247-300 | one pass of the loop body; stated by `UpdateStepCases`, `UpdateStepWrites`, `PostedMatchesRow`, `PostedNotReselected` and `BlankPageReposted` |
| LegacyUpdate.UpdateStepWrites | bot.py:246-300 | one pass writes only the listing's own row and leaves at most one note |
| LegacyUpdate.PostedMatchesRow | bot.py:270-286 | a posted message is built from the description just stored, and is a photo exactly when the stored image URL is non-empty, with that URL |
| LegacyUpdate.PostedNotReselected | bot.py:279-286 | a post of a page with visible text takes the listing out of the next selection |
| LegacyUpdate.BlankPageReposted | bot.py:266-286 | a blank description is posted yet leaves the listing selected, so it is posted again |
| LegacyUpdate.UpdateStepCases | bot.py:250-300 | a gone advert is marked, not posted and leaves the selection; a page that does not load in time, or whose description element does not appear in time, writes and posts nothing and is skipped without a pause; a request that raises anything else, or a failing statement, writes nothing and pauses 3 seconds |
| LegacyUpdate.UpdateListing | bot.py:246-300 | the loop body's table and notes are those of one pass, including a load timeout that is skipped without a pause |
| LegacyUpdate.UpdateAllWrites | bot.py:246-300 | rows not selected keep their content, and there is at most one note per listing |
| LegacyUpdate.LegacyUpdateMissing | bot.py:220-300 | given a valid answer of the `SELECT`, the table and notes are those of processing each listing in order, each page loaded, timed out without a pause, or raising with a pause |

## Left out

- HTTP requests, Selenium and BeautifulSoup: the cards of a page, the parts of an advert page and the outcome of every request are inputs. The CSS selectors are not modelled.
- PIL decoding, `thumbnail`, the black canvas and `paste`: only the integer geometry of the collage is modelled.
- Telegram delivery (`bot.telegram_bot.send_message` is not part of this model): bot/scraper.py's call is an event that may raise; bot.py's call is the text and photo-or-plain choice it hands over, since its errors are only logged.
- psycopg2 connections, `commit`, autocommit and the table creation, apart from the schema: statements are functions on the table. A failed statement aborting later statements of the same transaction is not modelled.
- `NOW()` and `INTERVAL`: the current time is a parameter, with a day as 86400 seconds and half an hour as 1800.
- `datetime.now()` and the local zone of `astimezone`: the reference day and a fixed zone offset are parameters. Daylight-saving changes within a day are not modelled.
- Unicode case folding of `lower()` and `ILIKE`: lower-casing maps ASCII and Cyrillic letters only. `\d` matches ASCII digits only.
- The lock file, `gc.collect`, `time.sleep` (an event carrying its seconds), logging, `locale.setlocale`, `build_url` and `urlencode`, bot/config.py, bot/run.py and test.py.
- The webdriver restarts of bot.py (bot.py:288-294, bot.py:330-335): they touch only the browser, and the one in the update loop is the statement that stops bot.py from compiling.
- Legacy.DateText: assumes `strftime('%Y')` writes four digits, which holds for the years 1–9999 that `datetime` allows.
- Crawler.PageAt and Legacy.ListingPageAt: a page beyond the supplied outcomes is a failed request, so every walk is finite even when bot.py's `pages` is None.
- LegacyUpdate.ViewAt and Backfill.AttemptAt: a listing beyond the supplied page outcomes meets a request that raises.
- Crawler.CardEffect: the statements of bot/scraper.py are modelled as never failing. bot/db.py:55-68 has no guard, so a failing statement in `is_new_listing` or in the card upsert raises into the handler at bot/scraper.py:106, which skips the rest of the card.
- Backfill.AttemptEffect: the `UPDATE` statements of the backfill are modelled as never failing; a failing one would have the same effect as a request that raises.
- The order of `list(set(...))` in bot.py is an input (`listed`); `LegacyUpdate.ListedFrom` states which orders are possible.

## Findings

| source | as written | input that shows it | evidently intended | confidence | as-written member | corrected member |
|---|---|---|---|---|---|---|
| bot/scraper.py:196-210 | every cell takes the first image's size, but `thumbnail` at bot/scraper.py:183 keeps each image's aspect ratio, so later images can be larger | thumbnails 200×300, 300×200, 300×200 with 3 columns and margin 5: the third is pasted at x = 415 on a canvas 620 wide and covers the second | cells as large as the largest image, so every image fits its cell | medium, not executed | Gallery.LargerImageOverflows | Gallery.LargestSound |

`Gallery.CreateCollage` keeps the layout of the code. `Gallery.CollageOfLargest` is the corrected layout, and `Gallery.LargestAgrees` shows that the two coincide whenever no image is larger than the first.
