# Salon booking bot: slot grid, booking ledger and date helpers

A Telegram bot takes bookings for a nail salon. It handles the chat through aiogram handlers
and keeps everything in one SQLite file. This project models the three pieces under the chat
glue and proves properties of them.

- **The slot grid and the availability engine** (`src/utils/schedule_utils.py`), module `Schedule`.
  - `init_schedule` fills the schedule_slots table over a horizon of days. Thursday to Saturday
    are closed, Sunday uses the weekend hours and other days use the weekday hours. Every insert
    is INSERT OR IGNORE on the unique (date, time) pair.
  - `get_available_time_slots` expands every pending or confirmed booking of a date into busy
    HH:MM keys, ceil(duration / 30) half-hour steps each. It then scans the day's ordered slot
    list for index runs of ceil(service_duration / 30) entries that are all available and not
    busy. It drops past dates, and on today it drops starts earlier than now plus 30 minutes.
  - `get_available_dates_with_slots` keeps the candidate dates on which that scan finds a start.
  - Each is a method over the store, proved equal to a specification function of the tables.
    The lemmas about those functions state what the engine offers.
- **The booking database** (`database/database.py`), module `Database`.
  - The five tables live in the fields of a class, `Store`; the AUTOINCREMENT ids are counters.
  - The writes are methods: `init_db`, `save_user`, `create_booking`, `update_booking_status`,
    `add_admin`, and the slot insert of `init_schedule`.
  - The lookups, listings, counts and statistics are functions of the current contents. They
    model the inner joins, the ORDER BY, the LIMIT/OFFSET, the LIKE search and the GROUP BY.
- **The date and time string helpers** (`utils/helpers.py`), module `Helpers`.
  - `format_booking_datetime`, `calculate_end_time`, `validate_date` and `validate_time`.
  - Each is a function. A Python exception is `None`, and the parsers read strptime's formats
    with a strict fixed-width grammar.

Supporting modules:

- `Wrappers`: `Option`, `Result` and the Python errors that can escape.
- `Sequences`: the generic WHERE, stable ORDER BY, DISTINCT and LIMIT/OFFSET.
- `Calendar`: dates as proleptic Gregorian ordinals (Python's `toordinal`), with both weekday
  numberings. Also times of day as minutes 0..1439, and the two-digit and four-digit fields
  with the HH:MM codec.

Clock readings and configuration are parameters:

- `today` is a `Date`. `now` is a `Moment`, a date plus the microseconds since its midnight.
- The two working-hour lists of the `config` module are sequences of `TimeOfDay` values.
- The CURRENT_TIMESTAMP of a write is an integer `clock` or `createdAt`.

Bookings store their timestamp as a `DateTime` value: a date, a minute of the day and a second.
The text form 'YYYY-MM-DD HH:MM:SS' is modelled, with its round trip, in `Helpers`.

## Model

| member | source | states |
|---|---|---|
| Schedule.SlotsNeeded | src/utils/schedule_utils.py:67-69 | the number of steps n satisfies (n - 1) * 30 < duration <= n * 30, that is ceil(duration / 30); n >= 1 exactly when duration >= 1 |
| Schedule.DayPairsMembers | src/utils/schedule_utils.py:24-28 | the pairs one date contributes are that date with exactly the listed hours |
| Schedule.CandidatesMembers | src/utils/schedule_utils.py:13-24 | the pairs offered over the horizon are exactly (today + k, h) for 0 <= k < days_ahead and h an hour of that day: none on weekday 3, 4 or 5, the weekend list on Sunday, the weekday list otherwise |
| Schedule.GeneratePrefix | src/utils/schedule_utils.py:24-28 | INSERT OR IGNORE of a run of pairs keeps every existing row as it was, in place |
| Schedule.GenerateValid | database/database.py:57-64 | the inserts keep (slot_date, slot_time) unique |
| Schedule.GenerateAdds | src/utils/schedule_utils.py:24-28 | after the inserts every offered pair is present, and each added row is available, unbooked and for an offered pair |
| Schedule.GeneratePresent | src/utils/schedule_utils.py:24-28 | when every offered pair is already present the table is unchanged |
| Schedule.GenerateIdempotent | src/utils/schedule_utils.py:24-28 | inserting the same pairs a second time leaves the table as it is |
| Schedule.GenerateAppend | src/utils/schedule_utils.py:13-28 | inserting a + b is inserting a and then b |
| Schedule.CandidatesNext | src/utils/schedule_utils.py:13-28 | the generated table after day + 1 days is the one after day days with that day's pairs inserted |
| Schedule.InitScheduleShape | src/utils/schedule_utils.py:13-28 | the old rows stay as they were; each added row lies in [today, today + days_ahead), is not on weekday 3, 4 or 5, has a weekend hour on Sunday and a weekday hour on other days, and is available and unbooked; every pair of the horizon is present afterwards |
| Schedule.InitScheduleIdempotent | src/utils/schedule_utils.py:24-28 | running init_schedule again over the same horizon changes nothing, so no pair is duplicated and no is_available or booking_id is reset |
| Schedule.InitScheduleValid | database/database.py:57-64 | init_schedule keeps the slot key unique |
| Schedule.InsertHours | src/utils/schedule_utils.py:24-28 | the inner loop leaves the slot table equal to the inserts of that date with each hour in order; the other tables and counters are unchanged |
| Schedule.InitDay | src/utils/schedule_utils.py:14-28 | one iteration of the day loop extends the generated table by one day; nothing else changes |
| Schedule.InitSchedule | src/utils/schedule_utils.py:6-31 | the slot table becomes the inserts of every candidate pair of the horizon into the old table; the store stays valid; nothing else changes |
| Schedule.CandidatesAtExit | src/utils/schedule_utils.py:13 | range(days_ahead) with a negative days_ahead runs no iteration, as for zero |
| Schedule.BlockingRows | src/utils/schedule_utils.py:49-55 | the rows that block a date are exactly the bookings joined with an existing service, dated that day, with status confirmed or pending |
| Schedule.StepNext | src/utils/schedule_utils.py:74-75 | adding 30 minutes to a step, modulo a day, gives the next step |
| Schedule.SpanNext | src/utils/schedule_utils.py:72-75 | the times covered by n + 1 steps are those of n steps plus the next one |
| Schedule.BusyOfExactly | src/utils/schedule_utils.py:60-75 | a time is busy exactly when some blocking booking covers it with one of its ceil(duration / 30) steps from its start |
| Schedule.BusyAsText | src/utils/schedule_utils.py:73 | a set of HH:MM keys and the set of minutes it names test membership alike |
| Schedule.BusyTimes | src/utils/schedule_utils.py:61-75 | the nested loop builds exactly the busy set of the blocking rows |
| Schedule.DaySlots | src/utils/schedule_utils.py:39-46 | the day's slots are exactly the rows of that date, as a permutation of them, in ascending slot_time |
| Schedule.DaySlotsStrict | src/utils/schedule_utils.py:39-44 | with unique (date, time), the day's times strictly increase as minutes and as HH:MM text |
| Schedule.RunExtends | src/utils/schedule_utils.py:94-99 | a free run followed by a free slot is a longer free run |
| Schedule.RunBlocked | src/utils/schedule_utils.py:94-98 | one slot in the run that is unavailable or busy makes the run not free |
| Schedule.StartsBelowExactly | src/utils/schedule_utils.py:87-110 | t is among the starts found below index n exactly when some index i < n has time t, a free run from i and t bookable |
| Schedule.StartsBelowNext | src/utils/schedule_utils.py:87-110 | one more index appends that index's time exactly when its run is free and it is bookable |
| Schedule.StartsBelowNoneBookable | src/utils/schedule_utils.py:109 | on a date before today no start is found |
| Schedule.StartsBelowIncreasing | src/utils/schedule_utils.py:87-110 | the starts come in index order, so they strictly increase when the day's times do |
| Schedule.AvailableTimeSlotsExactly | src/utils/schedule_utils.py:33-112 | an error exactly when service_duration <= 0; otherwise t is returned exactly when it is the time of slot i with i + ceil(duration / 30) <= the number of slots, every slot of that run is available and not busy, and t is bookable |
| Schedule.AvailableTimeSlotsAscending | src/utils/schedule_utils.py:39-44 | the returned starts strictly increase in slot_time order |
| Schedule.AvailableTimeSlotsClock | src/utils/schedule_utils.py:102-110 | a date before today yields nothing; a later date is not filtered by the clock; on today every returned start is at least now plus 30 minutes |
| Schedule.StartsAntitone | src/utils/schedule_utils.py:87-100 | a smaller busy set never loses a start |
| Schedule.BusyOfMonotone | src/utils/schedule_utils.py:60-75 | fewer blocking rows give fewer busy times |
| Schedule.CancellingShrinksBlocking | src/utils/schedule_utils.py:53-54 | after cancelling a booking, every blocking row was already blocking |
| Schedule.CancellingKeepsStarts | src/utils/schedule_utils.py:49-110 | cancelling a booking never removes an offered start |
| Schedule.AvailableTimeSlots | src/utils/schedule_utils.py:33-112 | the time search fails exactly when the duration is not positive, with IndexError (the scan reads past the slot list) |
| Schedule.GetAvailableTimeSlots | src/utils/schedule_utils.py:33-112 | the method returns exactly the specified result for the store's tables |
| Schedule.ScanStarts | src/utils/schedule_utils.py:87-110 | the scan raises IndexError when ceil(duration / 30) <= 0, and otherwise returns the starts of every qualifying start index in order |
| Schedule.RunIsFree | src/utils/schedule_utils.py:91-98 | with at least one step, the flag is true exactly when the run from i is all available and not busy |
| Schedule.SlotDates | src/utils/schedule_utils.py:122-130 | the slot_date column holds exactly the dates that have a slot row |
| Schedule.CandidateDates | src/utils/schedule_utils.py:122-130 | the candidates strictly increase and are exactly the slot dates in [today, today + days_ahead] whose %w is not 4, 5 or 6 |
| Schedule.AvailableDates | src/utils/schedule_utils.py:114-139 | IndexError exactly when the duration is not positive and some slot date lies in the window; otherwise the dates strictly increase |
| Schedule.AvailableDatesOfExactly | src/utils/schedule_utils.py:134-137 | over increasing candidates, the loop fails exactly when there is a candidate and the duration is not positive; otherwise it returns, strictly increasing, exactly the candidates with a non-empty list of starts |
| Schedule.AvailableDatesExactly | src/utils/schedule_utils.py:114-139 | X is returned exactly when X has a slot row, lies in [today, today + days_ahead], has weekday not 3, 4 or 5, and offers a start; ascending and duplicate-free; IndexError exactly for a non-positive duration with a candidate |
| Schedule.DatesErrPersists | src/utils/schedule_utils.py:135-136 | an error on a candidate ends the whole call with that error |
| Schedule.AvailableDatesOfNext | src/utils/schedule_utils.py:135-137 | one more iteration appends the date exactly when its list of starts is non-empty, or fails with its error |
| Schedule.GetAvailableDatesWithSlots | src/utils/schedule_utils.py:114-139 | the method returns exactly the specified result for the store's tables |
| Calendar.Weekday | src/utils/schedule_utils.py:17 | Python's weekday is in 0..6, Monday (0) being the ordinals 1 modulo 7 |
| Calendar.SqlWeekdayAgrees | src/utils/schedule_utils.py:126 | %w is weekday() + 1 modulo 7, so %w in {4, 5, 6} exactly when weekday() in {3, 4, 5}, the days init_schedule closes |
| Calendar.WeekdayPeriodic | src/utils/schedule_utils.py:17 | seven days later is the same weekday |
| Calendar.DaysInMonth | utils/helpers.py:17 | months have 28 to 31 days, February 29 exactly in leap years, and 30 exactly April, June, September and November |
| Calendar.LeapDay | utils/helpers.py:17 | 29 February is a valid date exactly in leap years |
| Calendar.OrdinalRange | utils/helpers.py:11 | the valid dates are numbered 1 .. 3652059 (9999-12-31) |
| Calendar.OrdinalNextDay | utils/helpers.py:11 | consecutive calendar dates have consecutive ordinals, across month and year ends |
| Calendar.AtKeyOrder | database/database.py:168 | ordering by the sort key is chronological order, and equal keys are equal timestamps |
| Calendar.Pad2OfNum2 | utils/helpers.py:6 | two digits are the zero-padded rendering of the number they spell |
| Calendar.Pad4OfNum4 | utils/helpers.py:6 | four digits are the zero-padded rendering of the number they spell |
| Calendar.ParseFormatHHMM | utils/helpers.py:12 | parsing a %H:%M rendering gives the time back |
| Calendar.FormatParseHHMM | utils/helpers.py:25 | every accepted HH:MM text is the rendering of the time it parses to |
| Calendar.FormatHHMMInjective | src/utils/schedule_utils.py:73 | distinct times have distinct HH:MM keys |
| Calendar.FormatHHMMOrder | src/utils/schedule_utils.py:43 | ORDER BY slot_time on the HH:MM text is the numeric order of the minutes |
| Helpers.ParseDMY | utils/helpers.py:17 | a date parsed from DD.MM.YYYY is a real calendar date |
| Helpers.ParseFormatDMY | utils/helpers.py:6 | parsing the DD.MM.YYYY rendering of fields recovers them exactly when they form a real date |
| Helpers.FormatParseDMY | utils/helpers.py:17 | every accepted DD.MM.YYYY text is the rendering of the date it parses to |
| Helpers.ParseIso | utils/helpers.py:5 | a timestamp parsed from YYYY-MM-DD HH:MM:SS has a real date and an hour, minute and second in range |
| Helpers.ParseFormatIso | utils/helpers.py:5 | a stored timestamp written out parses back to the same fields |
| Helpers.FormatParseIso | utils/helpers.py:5 | every accepted timestamp text is the rendering of its fields |
| Helpers.FormatBookingDatetime | utils/helpers.py:3-6 | a result exactly when the input parses; then it has 16 characters, its first ten parse as DD.MM.YYYY to the same date, a space follows, and the last five parse as HH:MM to the same hour and minute, the seconds dropped |
| Helpers.CalculateEndTime | utils/helpers.py:8-12 | no result exactly when the text does not parse or the end leaves the years 1 .. 9999 (OverflowError); a result is the HH:MM of the start's minute of the day plus the duration, modulo a day |
| Helpers.ClockOfEnd | utils/helpers.py:11-12 | the clock time of start plus minutes depends only on the start's minute of the day plus the minutes, modulo a day; the seconds never carry |
| Helpers.ValidIsRepresentable | utils/helpers.py:10 | every parsed timestamp lies within the years 1 .. 9999 |
| Helpers.EndTimeSameDay | utils/helpers.py:8-12 | an end within the same day never overflows and is the HH:MM of the plain sum |
| Helpers.ValidateDate | utils/helpers.py:14-20 | validate_date accepts exactly the DD.MM.YYYY renderings of real calendar dates |
| Helpers.ValidateDateOfFields | utils/helpers.py:14-20 | for fields of the right width, validate_date accepts exactly the real dates; 29 February passes exactly in leap years |
| Helpers.ValidateTime | utils/helpers.py:22-28 | validate_time accepts exactly the HH:MM renderings of 00:00 .. 23:59 |
| Helpers.ValidateTimeRanges | utils/helpers.py:22-28 | for two-digit fields, validate_time accepts exactly an hour below 24 and a minute below 60 |
| Database.Seeded | database/database.py:76-92 | the ten catalog rows get consecutive ids from the next id, with positive prices and durations |
| Database.WithStatusEffect | database/database.py:180 | the update reaches exactly the bookings with that id and changes only their status; an unknown id leaves the table as it was |
| Database.InsertSlotEffect | database/database.py:57-64 | INSERT OR IGNORE keeps every row, leaves the pair present, and adds one available unbooked row exactly when the pair was missing |
| Database.InsertSlotValid | database/database.py:57-64 | INSERT OR IGNORE keeps (slot_date, slot_time) unique |
| Database.InsertAdmin | database/database.py:194-200 | the admin list stays ascending and holds exactly the old admins and the new one; an existing admin is not inserted again |
| Database.InsertAdminIdempotent | database/database.py:194-200 | adding the same admin twice is adding it once |
| Database.FindService | database/database.py:128-135 | a found service is in the table with that id; nothing is found exactly when no service has that id |
| Database.FindServiceUnique | database/database.py:31-32 | with unique ids, the service found by an id is the only one with it |
| Database.JoinServices | database/database.py:166 | bookings JOIN services holds exactly the bookings with an existing service, joined with it, each as often as the booking occurs |
| Database.JoinClients | database/database.py:407-408 | bookings JOIN users JOIN services holds exactly the bookings whose user and service both exist, each as often as the booking occurs |
| Database.JoinsDistinct | database/database.py:42-43 | the bookings table's increasing ids make both joins duplicate-free |
| Database.SelectNoDuplicates | database/database.py:295-296 | WHERE then ORDER BY over duplicate-free rows is duplicate-free |
| Database.AscIsChronological | database/database.py:296 | a listing sorted by ascending key is earliest first |
| Database.DescIsNewestFirst | database/database.py:439 | a listing sorted by descending key is latest first |
| Database.SliceNewestFirst | database/database.py:439-440 | a run of consecutive rows of a latest-first listing is latest first |
| Database.Page | database/database.py:439-440 | LIMIT/OFFSET gives the rows [offset, offset + limit) of the listing, cut at its end (a negative limit is no limit, a negative offset none), still latest first |
| Database.Select | database/database.py:295-296 | WHERE then ORDER BY holds exactly the matching rows, sorted, as a permutation of them |
| Database.CountStatus | database/database.py:220-225 | a status count is at most the number of bookings and is zero exactly when no booking has that status |
| Database.CountTwoStatuses | database/database.py:220-225 | confirmed plus pending is at most the number of bookings |
| Database.RevenueSign | database/database.py:233-234 | with positive prices the revenue is non-negative and zero exactly when no row contributes (the 'or 0') |
| Database.StatusCounts | database/database.py:621-626 | the GROUP BY dictionary has exactly the statuses that occur, each with its positive count |
| Database.MapSumRemove | database/database.py:626 | the sum of a dictionary's values does not depend on the order of its keys |
| Database.MapSumUpdate | database/database.py:626 | updating one key changes the sum by the difference |
| Database.CountStatusSnoc | database/database.py:621-626 | appending a booking adds one to its status's count and nothing to the others |
| Database.StatusCountsSnoc | database/database.py:621-626 | appending a booking adds one to its status's entry, creating it if needed |
| Database.StatusCountsSum | database/database.py:612-626 | the per-status counts add up to the total count |
| Database.UserIds | database/database.py:268 | the user_id column holds exactly the users that have a booking |
| Database.Lowered | database/database.py:468-470 | lowering the case keeps the length |
| Database.LikeProperties | database/database.py:468-470 | an empty term matches everything, and matching ignores the case of ASCII letters in term and field |
| Database.LoweredIdempotent | database/database.py:468-470 | lowering twice is lowering once |
| Database.TodayConfirmedBound | database/database.py:229 | today's confirmed bookings are at most all confirmed bookings |
| Database.Store.constructor | database/database.py:17-73 | a new database has empty tables and both id counters at 1 |
| Database.Store.InitDb | database/database.py:11-95 | init_db appends the ten default services with new ids, never ignoring them; nothing else changes |
| Database.Store.SaveUser | database/database.py:98-107 | the user's row is replaced or created, with phone NULL and both timestamps the clock; the user count grows exactly when the user was new; nothing else changes |
| Database.Store.CreateBooking | database/database.py:138-156 | success exactly when no NOT NULL value is missing and storage does not fail; success appends one pending booking with the given user, service and datetime, under a fresh id that is returned; failure returns 0 and changes nothing |
| Database.Store.UpdateBookingStatus | database/database.py:175-182 | the status of the booking with that id is overwritten, with no transition check; nothing else changes |
| Database.Store.AddAdmin | database/database.py:194-200 | the user is an admin afterwards, the admins are the old ones plus that user, and nothing else changes |
| Database.Store.InsertSlotOrIgnore | src/utils/schedule_utils.py:25-28 | one INSERT OR IGNORE into schedule_slots; nothing else changes |
| Database.Store.GetUser | database/database.py:109-116 | a row exactly when the user exists, and it is that user's row |
| Database.Store.GetAllAdmins | database/database.py:202-209 | every admin exactly once, ascending |
| Database.Store.GetServices | database/database.py:119-126 | the whole catalog as a permutation, cheapest first |
| Database.Store.GetServiceById | database/database.py:128-135 | a found service has that id; none exactly when no service has it |
| Database.Store.UserBookings | database/database.py:158-173 | exactly the user's bookings whose service exists, latest first (the bookings table having increasing ids, each row once) |
| Database.Store.PendingBookings | database/database.py:276-301 | exactly the pending bookings whose user and service exist, earliest first (the bookings table having increasing ids, each row once) |
| Database.Store.ConfirmedOn | database/database.py:303-331 | exactly the confirmed joined bookings of the date, earliest first (the bookings table having increasing ids, each row once) |
| Database.Store.TodayBookings | database/database.py:303-331 | exactly today's confirmed joined bookings, earliest first (the bookings table having increasing ids, each row once) |
| Database.Store.TomorrowBookings | database/database.py:333-361 | exactly tomorrow's confirmed joined bookings, earliest first (the bookings table having increasing ids, each row once) |
| Database.Store.BookingById | database/database.py:363-385 | a joined booking with that id, or none exactly when no joined booking has it |
| Database.Store.WeekStart | database/database.py:392-394 | the week starts on a Monday no later than today and at most six days earlier |
| Database.Store.WeekBookings | database/database.py:387-417 | exactly the confirmed joined bookings from this week's Monday to its Sunday, earliest first (the bookings table having increasing ids, each row once) |
| Database.Store.JoinedNewestFirst | database/database.py:425-439 | every joined booking, latest first (the bookings table having increasing ids, each row once) |
| Database.Store.AllBookings | database/database.py:419-445 | the rows [offset, offset + limit) of the latest-first joined listing, cut at its end |
| Database.Store.SearchBookings | database/database.py:447-477 | the smaller of 50 and the number of matching joined rows (first name, username or service name contains the term), drawn from them, latest first, and no matching row left out is later than a row returned |
| Database.LatestPrefix | database/database.py:471-472 | the first k rows of WHERE ORDER BY booking_datetime DESC come from the matching rows, latest first, and no other matching row is later than any of them |
| Database.SortedPrefixLatest | database/database.py:471-472 | in rows sorted latest first, no row past the limit is later than a row within it |
| Database.Store.BookingsByDate | database/database.py:479-504 | exactly the joined bookings of the date whatever their status, earliest first (the bookings table having increasing ids, each row once) |
| Database.Store.BookingsByUserId | database/database.py:506-532 | exactly the user's joined bookings, latest first (the bookings table having increasing ids, each row once) |
| Database.Store.BookingsByStatus | database/database.py:534-559 | exactly the joined bookings with that status, latest first (the bookings table having increasing ids, each row once) |
| Database.Store.RecentBookings | database/database.py:575-601 | exactly limit joined bookings (all of them when limit is negative or exceeds their number), each at most as often as in the join; every joined booking left out was created no later than every one kept; newest created first |
| Database.NewestPrefix | database/database.py:594-595 | the first k rows of the join sorted by created_at DESC come from the join, are newest first, and every other row was created no later than each of them |
| Database.PrefixKept | database/database.py:595 | a LIMIT prefix of a rearrangement keeps only rows of the original, and what it leaves out is the rest of that rearrangement |
| Database.SortedPrefixNewest | database/database.py:594-595 | in rows sorted newest first, every row past the limit was created no later than every row within it |
| Database.Store.CountBookingsByStatus | database/database.py:561-573 | the bookings with that status, or all bookings when no status or an empty one is given |
| Database.Store.PendingBookingsCount | database/database.py:673-681 | the number of pending bookings, as count_bookings_by_status('pending') counts them |
| Database.Store.TodayBookingsCount | database/database.py:683-691 | the number of bookings that are both dated today and confirmed, at most all confirmed bookings |
| Database.TodayConfirmedIndices | database/database.py:688 | counting the confirmed among today's bookings counts the bookings dated today and confirmed |
| Database.TodayCountSnoc | database/database.py:688 | appending a booking adds one to that count exactly when it is dated today and confirmed |
| Database.TodayIndicesSnoc | database/database.py:688 | appending a booking adds one to the set of rows dated today and confirmed exactly when it is such a row |
| Database.Store.Statistics | database/database.py:212-245 | the confirmed and pending counts (together at most all bookings), the number of bookings dated today and confirmed, the revenue of confirmed joined bookings, the number of distinct clients, the number of users |
| Database.Store.IsAdmin | database/database.py:185-192 | true exactly when some row of the admins table holds the user id |
| Database.Store.DailyStatistics | database/database.py:603-644 | the day defaults to today; the total equals the sum of the per-status counts; the dictionary has exactly the statuses of the day with their counts; the revenue sums the prices of the day's confirmed joined bookings |
| Database.Store.ClientsForNotification | database/database.py:248-272 | without duplicates, exactly the users with a confirmed booking today, with one tomorrow, or with any booking for any other group |
| Sequences.InsertBy | database/database.py:123 | inserting into a sorted list keeps it sorted and adds exactly that element |
| Sequences.SortBy | database/database.py:123 | ORDER BY gives a sorted permutation |
| Sequences.Filter | database/database.py:167 | WHERE keeps exactly the matching rows |
| Sequences.FilterMultiplicity | database/database.py:167 | WHERE keeps each matching row exactly as often as it occurs, and no other row |
| Sequences.NoDuplicatesOfMultiplicity | database/database.py:167 | a list holding nothing twice is duplicate-free |
| Sequences.FilterNoDuplicates | database/database.py:167 | filtering keeps a list duplicate-free |
| Sequences.Dedup | database/database.py:256 | DISTINCT keeps every value once |
| Sequences.DistinctCardinality | database/database.py:237 | a duplicate-free list has as many distinct values as entries |
| Sequences.Window | database/database.py:440 | LIMIT/OFFSET bounds the length, keeps a list within both, and is empty past the end |
| Sequences.WindowsConcatenate | database/database.py:440 | consecutive pages concatenate to the larger page |
| Sequences.SortedDistinct | src/utils/schedule_utils.py:123-127 | SELECT DISTINCT ... ORDER BY gives exactly the values, strictly increasing |
| Sequences.NoDuplicatesPreserved | src/utils/schedule_utils.py:43 | a permutation of a duplicate-free list is duplicate-free |

## Left out

- I/O: the SQLite connection, commit, rollback and `row_factory` are not modelled. Every function works on the tables in one store object.
- Concurrency: two chat sessions can both see a start as free (`get_available_time_slots`) and then both book it (`create_booking` does no overlap check). The model runs one call at a time and gives `create_booking` no overlap check.
- The clock: `datetime.now()` and `date.today()` are parameters. Where the source reads the clock twice within one call, the model uses one reading.
- The `config` module is not part of this model: the two working-hour lists are parameters, given as minutes after midnight rather than HH:MM text.
- The schema's `slot_id` column and the admins' `added_at` column are not modelled: nothing in the core reads them.
- `CreateBooking`: the exception path is one of two causes, a missing (NULL) user, service or datetime, or a storage failure passed in as a flag. The message text of the returned triple is left out, and so are foreign keys, which SQLite does not enforce by default.
- Schedule: the engine receives the date as a `Date` and bookings carry `DateTime` values. The model does not parse `date_str` or `booking_datetime` inside it, so a malformed text (a ValueError there) is not among its errors. The text forms and their round trips are in `Helpers`.
- Schedule: a booking's seconds do not shift its busy keys, which are its minute of the day stepped by 30 minutes, as `current_time.strftime('%H:%M')` gives them.
- Schedule: date arithmetic near the years 1 and 9999 (an OverflowError in `today + timedelta(days)`) is not modelled; dates are unbounded ordinals.
- `Helpers.ParseDMY`, `Helpers.ParseIso`, `Calendar.ParseHHMM`: strptime also accepts one-digit fields and some surrounding whitespace. The model accepts only the fixed-width forms, so `validate_date` and `validate_time` are exact only for texts of that form.
- `Helpers.FormatDMY`, `Helpers.FormatIso`: `%Y` is rendered as four digits; platforms that print years below 1000 without zero padding are not modelled.
- `Database.SearchMatch`: LIKE '%term%' is modelled as an ASCII case-insensitive substring test. The wildcards `%` and `_` inside the term are not modelled.
- `Database.Store.Valid`: the service ids are unique and increasing because they come from AUTOINCREMENT; a hand-inserted duplicate id is outside the model.
- Prices: DECIMAL(10, 2) prices are whole numbers. All seeded prices are whole, and no fractional price is modelled.
- Default arguments: the members carry the source's defaults as Dafny default values: `daysAhead := 60` for `InitSchedule`, `daysAhead := 14` for `AvailableDates` and `GetAvailableDatesWithSlots`, `limit := 100, offset := 0` for `AllBookings`, `limit := 10` for `RecentBookings`, `group := "all"` for `ClientsForNotification` and `lastName := None` for `SaveUser`. The defaulted parameters come last, after the clock or table parameters the model adds. `status = None` and `date_str = None` are the `None` of an `Option`.
- Filter: the contract states which rows are kept; `FilterMultiplicity` states how often. Neither states that the kept rows keep their original order. Every listing sorts the filtered rows, and `BookingById` takes the first match among rows whose ids are unique.
- ORDER BY on `booking_datetime` and `created_at`, and `slot_date BETWEEN ? AND ?` with `ORDER BY slot_date` in `get_available_dates_with_slots`, compare the stored text; the model compares timestamp values and date ordinals (`CandidateDates`). The two agree for zero-padded 'YYYY-MM-DD' and 'YYYY-MM-DD HH:MM:SS' text, which is not proved here.
- Store.DailyStatistics, Store.BookingsByDate: the date arrives as a `Date` (an `Option<Date>` for `DailyStatistics`), not as the `date_str` text. Two behaviours of the text are not modelled: `get_daily_statistics('')` reports on today, because `if not date_str` also treats the empty string as missing; and a `date_str` that is not a date matches no rows, with `get_daily_statistics` echoing that text back as its `'date'`.
- Store.GetAllAdmins: `SELECT user_id FROM admins` has no ORDER BY, so SQLite promises no order; the model returns rowid order, ascending `user_id`.
- Chat handlers, keyboards, notifications and the bootstrap are outside the core and not modelled. The reminder loop's query is `TomorrowBookings`.
