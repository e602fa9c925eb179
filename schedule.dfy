/** The slot grid and the availability engine: init_schedule fills the schedule_slots table
    over a horizon of days, get_available_time_slots finds the start times at which a
    service of a given length fits, and get_available_dates_with_slots keeps the dates that
    have one. Each is a method over the store, proved equal to a specification function of
    the tables; the properties of the engine are lemmas about those functions. */
module Schedule {
  import opened Wrappers
  import opened Calendar
  import opened Sequences
  import opened Database

  /** The grid step, in minutes, and the notice a booking for today needs, in microseconds. */
  const StepMinutes := 30
  const NoticeMicros := 30 * MicrosPerMinute

  /** duration // 30, plus one when duration % 30 > 0: the number of grid steps a duration covers
      (Python's floor division and modulo agree with Dafny's for the positive divisor 30). */
  function SlotsNeeded(duration: int): (n: int)
    ensures (n - 1) * StepMinutes < duration <= n * StepMinutes
    ensures n >= 1 <==> duration >= 1
  {
    duration / 30 + (if duration % 30 > 0 then 1 else 0)
  }

  // ---------------------------------------------------------------------------
  // init_schedule

  type Pair = (Date, TimeOfDay)

  /** The configured hours of a date: none from Thursday to Saturday, the weekend list on
      Sunday and the weekday list on the other days. */
  function DayHours(date: Date, weekdayHours: seq<TimeOfDay>, weekendHours: seq<TimeOfDay>): seq<TimeOfDay> {
    var w := Weekday(date);
    if w == 4 || w == 5 || w == 3 then []
    else if w == 6 then weekendHours
    else weekdayHours
  }

  /** The pairs of one date with each of its hours, in list order. */
  function DayPairs(date: Date, hours: seq<TimeOfDay>): seq<Pair> {
    if hours == [] then []
    else DayPairs(date, hours[..|hours| - 1]) + [(date, hours[|hours| - 1])]
  }

  /** The pairs of a date are that date with exactly its hours. */
  lemma {:induction false} DayPairsMembers(date: Date, hours: seq<TimeOfDay>)
    ensures forall p :: p in DayPairs(date, hours) <==> p.0 == date && p.1 in hours
  {
    if hours != [] {
      assert forall h :: h in hours <==> h in hours[..|hours| - 1] || h == hours[|hours| - 1];
      DayPairsMembers(date, hours[..|hours| - 1]);
    }
  }

  /** The pairs init_schedule offers for insertion over days today .. today + days - 1, in order. */
  function Candidates(today: Date, days: int, weekdayHours: seq<TimeOfDay>, weekendHours: seq<TimeOfDay>): seq<Pair>
    decreases days
  {
    if days <= 0 then []
    else
      var date := today + days - 1;
      Candidates(today, days - 1, weekdayHours, weekendHours) + DayPairs(date, DayHours(date, weekdayHours, weekendHours))
  }

  /** The pairs offered are exactly the dates of the horizon with each of their hours. */
  lemma {:induction false} CandidatesMembers(today: Date, days: int, weekdayHours: seq<TimeOfDay>, weekendHours: seq<TimeOfDay>)
    ensures forall p :: p in Candidates(today, days, weekdayHours, weekendHours)
                        <==> today <= p.0 < today + days && p.1 in DayHours(p.0, weekdayHours, weekendHours)
    decreases days
  {
    if days > 0 {
      var date := today + days - 1;
      var before := Candidates(today, days - 1, weekdayHours, weekendHours);
      var pairs := DayPairs(date, DayHours(date, weekdayHours, weekendHours));
      assert Candidates(today, days, weekdayHours, weekendHours) == before + pairs;
      CandidatesMembers(today, days - 1, weekdayHours, weekendHours);
      DayPairsMembers(date, DayHours(date, weekdayHours, weekendHours));
    }
  }

  /** The slot table after INSERT OR IGNORE of each pair in turn. */
  function Generate(rows: seq<Slot>, pairs: seq<Pair>): seq<Slot>
    decreases |pairs|
  {
    if pairs == [] then rows
    else InsertSlot(Generate(rows, pairs[..|pairs| - 1]), pairs[|pairs| - 1].0, pairs[|pairs| - 1].1)
  }

  lemma HasSlotExtends(a: seq<Slot>, b: seq<Slot>, date: Date, time: TimeOfDay)
    requires |a| <= |b| && b[..|a|] == a && HasSlot(a, date, time)
    ensures HasSlot(b, date, time)
  {
    var i :| 0 <= i < |a| && a[i].date == date && a[i].time == time;
    assert b[i] == a[i];
  }

  /** Generation keeps every existing row as it was. */
  lemma {:induction false} GeneratePrefix(rows: seq<Slot>, pairs: seq<Pair>)
    ensures |rows| <= |Generate(rows, pairs)| && Generate(rows, pairs)[..|rows|] == rows
    decreases |pairs|
  {
    if pairs != [] {
      var init, last := pairs[..|pairs| - 1], pairs[|pairs| - 1];
      GeneratePrefix(rows, init);
      var g := Generate(rows, init);
      InsertSlotEffect(g, last.0, last.1);
      var h := Generate(rows, pairs);
      assert h[..|rows|] == h[..|g|][..|rows|];
    }
  }

  /** Generation keeps the (date, time) key unique. */
  lemma {:induction false} GenerateValid(rows: seq<Slot>, pairs: seq<Pair>)
    requires UniqueSlotKeys(rows)
    ensures UniqueSlotKeys(Generate(rows, pairs))
    decreases |pairs|
  {
    if pairs != [] {
      var init, last := pairs[..|pairs| - 1], pairs[|pairs| - 1];
      GenerateValid(rows, init);
      InsertSlotValid(Generate(rows, init), last.0, last.1);
    }
  }

  /** After generation every offered pair is present, and every added row is available,
      unbooked and for an offered pair. */
  lemma {:induction false} GenerateAdds(rows: seq<Slot>, pairs: seq<Pair>)
    ensures var g := Generate(rows, pairs);
      && (forall p :: p in pairs ==> HasSlot(g, p.0, p.1))
      && (forall i :: |rows| <= i < |g| ==>
            g[i].available && g[i].bookingId == None && (g[i].date, g[i].time) in pairs)
    decreases |pairs|
  {
    if pairs != [] {
      var init, last := pairs[..|pairs| - 1], pairs[|pairs| - 1];
      GenerateAdds(rows, init);
      GeneratePrefix(rows, init);
      var g := Generate(rows, init);
      var h := InsertSlot(g, last.0, last.1);
      InsertSlotEffect(g, last.0, last.1);
      assert h == Generate(rows, pairs);
      forall p | p in pairs ensures HasSlot(h, p.0, p.1) {
        if p != last {
          assert p in init;
          HasSlotExtends(g, h, p.0, p.1);
        }
      }
      forall i | |rows| <= i < |h|
        ensures h[i].available && h[i].bookingId == None && (h[i].date, h[i].time) in pairs
      {
        if i < |g| {
          assert h[i] == h[..|g|][i] == g[i];
          assert (h[i].date, h[i].time) in init;
        }
      }
    }
  }

  /** Offering only pairs that are already present changes nothing. */
  lemma {:induction false} GeneratePresent(rows: seq<Slot>, pairs: seq<Pair>)
    requires forall p :: p in pairs ==> HasSlot(rows, p.0, p.1)
    ensures Generate(rows, pairs) == rows
    decreases |pairs|
  {
    if pairs != [] {
      GeneratePresent(rows, pairs[..|pairs| - 1]);
    }
  }

  /** Running the generation a second time leaves the table as it is. */
  lemma GenerateIdempotent(rows: seq<Slot>, pairs: seq<Pair>)
    ensures Generate(Generate(rows, pairs), pairs) == Generate(rows, pairs)
  {
    GenerateAdds(rows, pairs);
    GeneratePresent(Generate(rows, pairs), pairs);
  }

  /** Offering a + b is offering a and then b. */
  lemma {:induction false} GenerateAppend(rows: seq<Slot>, a: seq<Pair>, b: seq<Pair>)
    ensures Generate(rows, a + b) == Generate(Generate(rows, a), b)
    decreases |b|
  {
    if b == [] {
      assert a + b == a;
    } else {
      assert (a + b)[..|a + b| - 1] == a + b[..|b| - 1];
      assert (a + b)[|a + b| - 1] == b[|b| - 1];
      GenerateAppend(rows, a, b[..|b| - 1]);
    }
  }

  /** Candidates over one more day offers that day's pairs after the others. */
  lemma CandidatesNext(rows: seq<Slot>, before: seq<Slot>, after: seq<Slot>, today: Date, day: nat, hours: seq<TimeOfDay>,
                       weekdayHours: seq<TimeOfDay>, weekendHours: seq<TimeOfDay>)
    requires before == Generate(rows, Candidates(today, day, weekdayHours, weekendHours))
    requires hours == DayHours(today + day, weekdayHours, weekendHours)
    requires after == Generate(before, DayPairs(today + day, hours))
    ensures after == Generate(rows, Candidates(today, day + 1, weekdayHours, weekendHours))
  {
    var pairs := DayPairs(today + day, hours);
    assert Candidates(today, day + 1, weekdayHours, weekendHours) == Candidates(today, day, weekdayHours, weekendHours) + pairs;
    GenerateAppend(rows, Candidates(today, day, weekdayHours, weekendHours), pairs);
  }

  /** What init_schedule adds: rows only on dates of the horizon whose weekday is not 3, 4 or 5,
      at a weekend hour on Sunday and at a weekday hour otherwise, each available and unbooked;
      the rows already there stay as they were; and then every such pair is present. */
  lemma InitScheduleShape(rows: seq<Slot>, today: Date, days: int,
                          weekdayHours: seq<TimeOfDay>, weekendHours: seq<TimeOfDay>)
    ensures var g := Generate(rows, Candidates(today, days, weekdayHours, weekendHours));
      |rows| <= |g| && g[..|rows|] == rows
    ensures var g := Generate(rows, Candidates(today, days, weekdayHours, weekendHours));
      forall i :: |rows| <= i < |g| ==>
        var s := g[i];
        && today <= s.date < today + days
        && Weekday(s.date) != 3 && Weekday(s.date) != 4 && Weekday(s.date) != 5
        && (Weekday(s.date) == 6 ==> s.time in weekendHours)
        && (Weekday(s.date) != 6 ==> s.time in weekdayHours)
        && s.available && s.bookingId == None
    ensures var g := Generate(rows, Candidates(today, days, weekdayHours, weekendHours));
      forall date, time :: today <= date < today + days && time in DayHours(date, weekdayHours, weekendHours) ==>
        HasSlot(g, date, time)
  {
    var pairs := Candidates(today, days, weekdayHours, weekendHours);
    CandidatesMembers(today, days, weekdayHours, weekendHours);
    GeneratePrefix(rows, pairs);
    GenerateAdds(rows, pairs);
    var g := Generate(rows, pairs);
    forall i | |rows| <= i < |g|
      ensures today <= g[i].date < today + days && g[i].time in DayHours(g[i].date, weekdayHours, weekendHours)
    {
      assert (g[i].date, g[i].time) in pairs;
    }
    forall date, time | today <= date < today + days && time in DayHours(date, weekdayHours, weekendHours)
      ensures HasSlot(g, date, time)
    {
      assert (date, time) in pairs;
    }
  }

  /** Running init_schedule a second time over the same horizon changes nothing. */
  lemma InitScheduleIdempotent(rows: seq<Slot>, today: Date, days: int,
                               weekdayHours: seq<TimeOfDay>, weekendHours: seq<TimeOfDay>)
    ensures var g := Generate(rows, Candidates(today, days, weekdayHours, weekendHours));
      Generate(g, Candidates(today, days, weekdayHours, weekendHours)) == g
  {
    var g := Generate(rows, Candidates(today, days, weekdayHours, weekendHours));
    GenerateIdempotent(rows, Candidates(today, days, weekdayHours, weekendHours));
  }

  /** init_schedule keeps the slot table's key unique. */
  lemma InitScheduleValid(rows: seq<Slot>, today: Date, days: int,
                          weekdayHours: seq<TimeOfDay>, weekendHours: seq<TimeOfDay>)
    requires UniqueSlotKeys(rows)
    ensures UniqueSlotKeys(Generate(rows, Candidates(today, days, weekdayHours, weekendHours)))
  {
    GenerateValid(rows, Candidates(today, days, weekdayHours, weekendHours));
  }

  /** The inner loop of init_schedule: INSERT OR IGNORE of one date with each of its hours. */
  method InsertHours(db: Store, date: Date, hours: seq<TimeOfDay>)
    modifies db
    ensures db.slots == Generate(old(db.slots), DayPairs(date, hours))
    ensures db.users == old(db.users) && db.services == old(db.services) && db.bookings == old(db.bookings) && db.admins == old(db.admins)
    ensures db.nextServiceId == old(db.nextServiceId) && db.nextBookingId == old(db.nextBookingId)
  {
    var k := 0;
    while k < |hours|
      invariant 0 <= k <= |hours|
      invariant db.slots == Generate(old(db.slots), DayPairs(date, hours[..k]))
      invariant db.users == old(db.users) && db.services == old(db.services) && db.bookings == old(db.bookings) && db.admins == old(db.admins)
      invariant db.nextServiceId == old(db.nextServiceId) && db.nextBookingId == old(db.nextBookingId)
    {
      assert hours[..k + 1][..k] == hours[..k];
      db.InsertSlotOrIgnore(date, hours[k]);
      k := k + 1;
    }
    assert hours[..|hours|] == hours;
  }

  /** One iteration of init_schedule's day loop, for the date today + day: Thursday to Saturday
      are skipped, Sunday gets the weekend hours and the other days the weekday hours. After it
      the table holds what the loop has generated from slots0 over day + 1 days. */
  method InitDay(db: Store, ghost slots0: seq<Slot>, today: Date, day: nat,
                 weekdayHours: seq<TimeOfDay>, weekendHours: seq<TimeOfDay>)
    requires db.slots == Generate(slots0, Candidates(today, day, weekdayHours, weekendHours))
    modifies db
    ensures db.slots == Generate(slots0, Candidates(today, day + 1, weekdayHours, weekendHours))
    ensures db.users == old(db.users) && db.services == old(db.services) && db.bookings == old(db.bookings) && db.admins == old(db.admins)
    ensures db.nextServiceId == old(db.nextServiceId) && db.nextBookingId == old(db.nextBookingId)
  {
    ghost var before := db.slots;
    var date := today + day;
    var w := Weekday(date);
    if w == 4 || w == 5 || w == 3 {
      assert DayPairs(date, []) == [];
      CandidatesNext(slots0, before, db.slots, today, day, [], weekdayHours, weekendHours);
      return;
    }
    var hours := if w == 6 then weekendHours else weekdayHours;
    InsertHours(db, date, hours);
    CandidatesNext(slots0, before, db.slots, today, day, hours, weekdayHours, weekendHours);
  }

  /** init_schedule(days_ahead) with today and the two hour lists given. */
  method InitSchedule(db: Store, today: Date, weekdayHours: seq<TimeOfDay>, weekendHours: seq<TimeOfDay>, daysAhead: int := 60)
    requires db.Valid()
    modifies db
    ensures db.Valid()
    ensures db.slots == Generate(old(db.slots), Candidates(today, daysAhead, weekdayHours, weekendHours))
    ensures db.users == old(db.users) && db.services == old(db.services) && db.bookings == old(db.bookings) && db.admins == old(db.admins)
    ensures db.nextServiceId == old(db.nextServiceId) && db.nextBookingId == old(db.nextBookingId)
  {
    ghost var slots0 := db.slots;
    var day := 0;
    while day < daysAhead
      invariant 0 <= day <= (if daysAhead < 0 then 0 else daysAhead)
      invariant db.slots == Generate(slots0, Candidates(today, day, weekdayHours, weekendHours))
      invariant db.users == old(db.users) && db.services == old(db.services) && db.bookings == old(db.bookings) && db.admins == old(db.admins)
      invariant db.nextServiceId == old(db.nextServiceId) && db.nextBookingId == old(db.nextBookingId)
    {
      InitDay(db, slots0, today, day, weekdayHours, weekendHours);
      day := day + 1;
    }
    CandidatesAtExit(today, day, daysAhead, weekdayHours, weekendHours);
    InitScheduleValid(slots0, today, daysAhead, weekdayHours, weekendHours);
  }

  /** range(days_ahead) is empty for a negative days_ahead, as for zero. */
  lemma CandidatesAtExit(today: Date, day: int, daysAhead: int,
                          weekdayHours: seq<TimeOfDay>, weekendHours: seq<TimeOfDay>)
    requires 0 <= day <= (if daysAhead < 0 then 0 else daysAhead) && !(day < daysAhead)
    ensures Candidates(today, day, weekdayHours, weekendHours) == Candidates(today, daysAhead, weekdayHours, weekendHours)
  {
  }

  // ---------------------------------------------------------------------------
  // Busy times

  /** The bookings that occupy the grid on a date: joined with their service (a booking whose
      service row is missing blocks nothing), dated that day, with status confirmed or pending. */
  function BlockingRows(bookings: seq<Booking>, services: seq<Service>, date: Date): (r: seq<ServiceRow>)
    ensures forall row :: row in r <==>
      && InServiceJoin(row, bookings, services)
      && row.booking.at.date == date
      && (row.booking.status == Confirmed || row.booking.status == Pending)
  {
    Filter(JoinServices(bookings, services),
           (row: ServiceRow) => row.booking.at.date == date && (row.booking.status == Confirmed || row.booking.status == Pending))
  }

  /** The time k grid steps after start, wrapping at midnight as datetime.combine(...) + timedelta(...) does. */
  function Step(start: TimeOfDay, k: int): TimeOfDay {
    (start + StepMinutes * k) % MinutesPerDay
  }

  lemma StepNext(start: TimeOfDay, k: int)
    ensures (Step(start, k) + StepMinutes) % MinutesPerDay == Step(start, k + 1)
  {
    var a := start + StepMinutes * k;
    assert a == MinutesPerDay * (a / MinutesPerDay) + Step(start, k);
    assert a + StepMinutes == MinutesPerDay * (a / MinutesPerDay) + (Step(start, k) + StepMinutes);
  }

  /** The times a booking starting at start occupies over its first n grid steps. */
  function Span(start: TimeOfDay, n: int): set<TimeOfDay> {
    set k | 0 <= k < n :: Step(start, k)
  }

  lemma SpanNext(start: TimeOfDay, n: nat)
    ensures Span(start, n + 1) == Span(start, n) + {Step(start, n)}
  {
    forall t | t in Span(start, n + 1) ensures t in Span(start, n) + {Step(start, n)} {
      var k :| 0 <= k < n + 1 && t == Step(start, k);
      if k < n {
        assert t in Span(start, n);
      }
    }
  }

  /** busy_slots: the HH:MM keys of every step of every blocking booking. The source keeps the
      keys as text; FormatHHMM is injective, so a set of minutes stands for it exactly. */
  function BusyOf(rows: seq<ServiceRow>): set<TimeOfDay> {
    if rows == [] then {}
    else
      var last := rows[|rows| - 1];
      BusyOf(rows[..|rows| - 1]) + Span(last.booking.at.minute, SlotsNeeded(last.service.durationMinutes))
  }

  /** A time is busy exactly when some blocking booking covers it with one of its
      ceil(duration / 30) steps; the seconds of the booking time do not shift the keys. */
  lemma {:induction false} BusyOfExactly(rows: seq<ServiceRow>, t: TimeOfDay)
    ensures t in BusyOf(rows) <==>
      exists row, k :: row in rows && 0 <= k < SlotsNeeded(row.service.durationMinutes) && t == Step(row.booking.at.minute, k)
  {
    if rows != [] {
      var init, last := rows[..|rows| - 1], rows[|rows| - 1];
      BusyOfExactly(init, t);
      assert forall row :: row in rows <==> row in init || row == last;
      if t in BusyOf(rows) && t !in BusyOf(init) {
        var k :| 0 <= k < SlotsNeeded(last.service.durationMinutes) && t == Step(last.booking.at.minute, k);
        assert last in rows;
      }
      if exists row, k :: row in rows && 0 <= k < SlotsNeeded(row.service.durationMinutes) && t == Step(row.booking.at.minute, k) {
        var row, k :| row in rows && 0 <= k < SlotsNeeded(row.service.durationMinutes) && t == Step(row.booking.at.minute, k);
        if row == last {
          assert t in Span(last.booking.at.minute, SlotsNeeded(last.service.durationMinutes));
        } else {
          assert row in init;
        }
      }
    }
  }

  /** Text keys and minute keys test membership alike. */
  lemma BusyAsText(busy: set<TimeOfDay>, t: TimeOfDay)
    ensures FormatHHMM(t) in (set x | x in busy :: FormatHHMM(x)) <==> t in busy
  {
    if FormatHHMM(t) in (set x | x in busy :: FormatHHMM(x)) {
      var x :| x in busy && FormatHHMM(x) == FormatHHMM(t);
      FormatHHMMInjective(x, t);
    }
  }

  /** The nested loop that builds busy_slots. */
  method BusyTimes(rows: seq<ServiceRow>) returns (busy: set<TimeOfDay>)
    ensures busy == BusyOf(rows)
  {
    busy := {};
    var i := 0;
    while i < |rows|
      invariant 0 <= i <= |rows|
      invariant busy == BusyOf(rows[..i])
    {
      var start := rows[i].booking.at.minute;
      var needed := SlotsNeeded(rows[i].service.durationMinutes);
      var current: TimeOfDay := start;
      var k := 0;
      assert Span(start, 0) == {};
      while k < needed
        invariant 0 <= k <= (if needed < 0 then 0 else needed)
        invariant current == Step(start, k)
        invariant busy == BusyOf(rows[..i]) + Span(start, k)
      {
        SpanNext(start, k);
        busy := busy + {current};
        StepNext(start, k);
        current := (current + StepMinutes) % MinutesPerDay;
        k := k + 1;
      }
      if needed < 0 {
        assert Span(start, needed) == {};
      }
      assert Span(start, k) == Span(start, needed);
      assert rows[..i + 1][..i] == rows[..i];
      assert BusyOf(rows[..i + 1]) == BusyOf(rows[..i]) + Span(start, needed);
      assert busy == BusyOf(rows[..i + 1]);
      i := i + 1;
    }
    assert rows[..|rows|] == rows;
  }

  // ---------------------------------------------------------------------------
  // Available start times

  function SlotTime(s: Slot): int { s.time }

  /** SELECT slot_time, is_available FROM schedule_slots WHERE slot_date = ? ORDER BY slot_time. */
  function DaySlots(slots: seq<Slot>, date: Date): (r: seq<Slot>)
    ensures forall s :: s in r <==> s in slots && s.date == date
    ensures forall i, j :: 0 <= i < j < |r| ==> r[i].time <= r[j].time
    ensures multiset(r) == multiset(Filter(slots, (s: Slot) => s.date == date))
  {
    var r := Select(slots, (s: Slot) => s.date == date, SlotTime);
    assert forall i, j :: 0 <= i < j < |r| ==> SlotTime(r[i]) <= SlotTime(r[j]);
    r
  }

  /** With (date, time) unique, the day's times strictly increase, both as minutes and as the
      HH:MM text that ORDER BY slot_time compares. */
  lemma DaySlotsStrict(slots: seq<Slot>, date: Date)
    requires UniqueSlotKeys(slots)
    ensures var r := DaySlots(slots, date);
      forall i, j :: 0 <= i < j < |r| ==> r[i].time < r[j].time && TextLess(FormatHHMM(r[i].time), FormatHHMM(r[j].time))
  {
    var r := DaySlots(slots, date);
    var f := Filter(slots, (s: Slot) => s.date == date);
    assert NoDuplicates(slots) by {
      forall a, b | 0 <= a < b < |slots| ensures slots[a] != slots[b] {
        assert slots[a].date != slots[b].date || slots[a].time != slots[b].time;
      }
    }
    FilterNoDuplicates(slots, (s: Slot) => s.date == date);
    NoDuplicatesPreserved(f, r);
    forall i, j | 0 <= i < j < |r| ensures r[i].time < r[j].time && TextLess(FormatHHMM(r[i].time), FormatHHMM(r[j].time)) {
      assert r[i] != r[j];
      assert r[i] in slots && r[j] in slots;
      var a :| 0 <= a < |slots| && slots[a] == r[i];
      var b :| 0 <= b < |slots| && slots[b] == r[j];
      assert a != b;
      assert slots[a].date != slots[b].date || slots[a].time != slots[b].time;
      assert r[i].time != r[j].time;
      FormatHHMMOrder(r[i].time, r[j].time);
    }
  }

  /** Every slot of the index run day[i .. i + need) is flagged available and is not busy. */
  predicate RunFree(day: seq<Slot>, busy: set<TimeOfDay>, i: int, need: int)
    requires 0 <= i && i + need <= |day|
  {
    forall k :: i <= k < i + need ==> day[k].available && day[k].time !in busy
  }

  lemma RunExtends(day: seq<Slot>, busy: set<TimeOfDay>, i: int, j: int)
    requires 0 <= i && 0 <= j && i + j < |day| && RunFree(day, busy, i, j)
    requires day[i + j].available && day[i + j].time !in busy
    ensures RunFree(day, busy, i, j + 1)
  {
  }

  lemma RunBlocked(day: seq<Slot>, busy: set<TimeOfDay>, i: int, j: int, need: int)
    requires 0 <= i && 0 <= j < need && i + need <= |day|
    requires !day[i + j].available || day[i + j].time in busy
    ensures !RunFree(day, busy, i, need)
  {
  }

  /** A start is offered on a later date, or on today from now plus the notice onwards. */
  predicate Bookable(date: Date, time: TimeOfDay, now: Moment) {
    date > now.date || (date == now.date && MinuteInstant(date, time) >= MomentInstant(now) + NoticeMicros)
  }

  /** The qualifying starts among the first n indices, in index order. */
  function StartsBelow(day: seq<Slot>, busy: set<TimeOfDay>, need: int, date: Date, now: Moment, n: int): seq<TimeOfDay>
    requires need >= 1 && 0 <= n && (n == 0 || n + need <= |day| + 1)
    decreases n
  {
    if n == 0 then []
    else
      StartsBelow(day, busy, need, date, now, n - 1)
      + (if RunFree(day, busy, n - 1, need) && Bookable(date, day[n - 1].time, now) then [day[n - 1].time] else [])
  }

  /** len(slots) - slots_needed + 1, the number of start indices range() yields (none when negative). */
  function StartCount(day: seq<Slot>, need: int): nat {
    if |day| - need + 1 < 0 then 0 else |day| - need + 1
  }

  /** get_available_time_slots(date, duration) at the moment now. A duration of zero or less
      makes the scan read past the end of the slot list, which raises IndexError. */
  function AvailableTimeSlots(bookings: seq<Booking>, services: seq<Service>, slots: seq<Slot>,
                              date: Date, duration: int, now: Moment): (r: Result<seq<TimeOfDay>>)
    ensures r.Err? <==> duration <= 0
    ensures r.Err? ==> r.error == IndexError
  {
    var need := SlotsNeeded(duration);
    if need <= 0 then Err(IndexError)
    else
      var day := DaySlots(slots, date);
      Ok(StartsBelow(day, BusyOf(BlockingRows(bookings, services, date)), need, date, now, StartCount(day, need)))
  }

  lemma {:induction false} StartsBelowExactly(day: seq<Slot>, busy: set<TimeOfDay>, need: int, date: Date, now: Moment, n: int, t: TimeOfDay)
    requires need >= 1 && 0 <= n && (n == 0 || n + need <= |day| + 1)
    ensures t in StartsBelow(day, busy, need, date, now, n) <==>
      exists i :: 0 <= i < n && day[i].time == t && RunFree(day, busy, i, need) && Bookable(date, t, now)
    decreases n
  {
    if n > 0 {
      StartsBelowExactly(day, busy, need, date, now, n - 1, t);
      var p := StartsBelow(day, busy, need, date, now, n - 1);
      var fits := RunFree(day, busy, n - 1, need) && Bookable(date, day[n - 1].time, now);
      assert StartsBelow(day, busy, need, date, now, n) == p + (if fits then [day[n - 1].time] else []);
      if t in StartsBelow(day, busy, need, date, now, n) && t !in p {
        assert fits && day[n - 1].time == t;
      }
      if exists i :: 0 <= i < n && day[i].time == t && RunFree(day, busy, i, need) && Bookable(date, t, now) {
        var i :| 0 <= i < n && day[i].time == t && RunFree(day, busy, i, need) && Bookable(date, t, now);
        if i == n - 1 {
          assert fits;
        }
      }
    }
  }

  lemma StartsBelowNext(day: seq<Slot>, busy: set<TimeOfDay>, need: int, date: Date, now: Moment, n: int)
    requires need >= 1 && 0 <= n && n + need <= |day|
    ensures StartsBelow(day, busy, need, date, now, n + 1) == StartsBelow(day, busy, need, date, now, n)
      + (if RunFree(day, busy, n, need) && Bookable(date, day[n].time, now) then [day[n].time] else [])
  {
  }

  /** On a date before today nothing is bookable, so nothing is offered. */
  lemma {:induction false} StartsBelowNoneBookable(day: seq<Slot>, busy: set<TimeOfDay>, need: int, date: Date, now: Moment, n: int)
    requires need >= 1 && 0 <= n && (n == 0 || n + need <= |day| + 1)
    requires date < now.date
    ensures StartsBelow(day, busy, need, date, now, n) == []
    decreases n
  {
    if n > 0 {
      StartsBelowNoneBookable(day, busy, need, date, now, n - 1);
    }
  }

  /** The starts are in index order: strictly increasing whenever the day's times are. */
  lemma {:induction false} StartsBelowIncreasing(day: seq<Slot>, busy: set<TimeOfDay>, need: int, date: Date, now: Moment, n: int)
    requires need >= 1 && 0 <= n && (n == 0 || n + need <= |day| + 1)
    requires forall i, j :: 0 <= i < j < |day| ==> day[i].time < day[j].time
    ensures StrictlyIncreasing(StartsBelow(day, busy, need, date, now, n))
    decreases n
  {
    if n > 0 {
      StartsBelowIncreasing(day, busy, need, date, now, n - 1);
      var p := StartsBelow(day, busy, need, date, now, n - 1);
      forall x | x in p ensures x < day[n - 1].time {
        StartsBelowExactly(day, busy, need, date, now, n - 1, x);
      }
      SnocIncreasing(p, day[n - 1].time);
    }
  }

  /** The engine in full: an error exactly for a duration of zero or less; otherwise t is offered
      exactly when it is the time of the day's i-th slot, the run of ceil(duration / 30) slots from
      index i lies within the day's list and is all available and not busy, and t is bookable. */
  lemma AvailableTimeSlotsExactly(bookings: seq<Booking>, services: seq<Service>, slots: seq<Slot>,
                                  date: Date, duration: int, now: Moment, t: TimeOfDay)
    ensures AvailableTimeSlots(bookings, services, slots, date, duration, now).Err? <==> duration <= 0
    ensures var r := AvailableTimeSlots(bookings, services, slots, date, duration, now);
            var day, busy, need := DaySlots(slots, date), BusyOf(BlockingRows(bookings, services, date)), SlotsNeeded(duration);
      r.Ok? ==> (t in r.value <==>
        exists i :: 0 <= i && i + need <= |day| && day[i].time == t && RunFree(day, busy, i, need) && Bookable(date, t, now))
  {
    var day, need := DaySlots(slots, date), SlotsNeeded(duration);
    if need >= 1 {
      StartsBelowExactly(day, BusyOf(BlockingRows(bookings, services, date)), need, date, now, StartCount(day, need), t);
    }
  }

  /** The offered starts ascend strictly, in slot_time order. */
  lemma AvailableTimeSlotsAscending(bookings: seq<Booking>, services: seq<Service>, slots: seq<Slot>,
                                    date: Date, duration: int, now: Moment)
    requires UniqueSlotKeys(slots)
    ensures var r := AvailableTimeSlots(bookings, services, slots, date, duration, now);
      r.Ok? ==> StrictlyIncreasing(r.value)
  {
    var day, need := DaySlots(slots, date), SlotsNeeded(duration);
    if need >= 1 {
      DaySlotsStrict(slots, date);
      StartsBelowIncreasing(day, BusyOf(BlockingRows(bookings, services, date)), need, date, now, StartCount(day, need));
    }
  }

  /** A date before today offers nothing; a later date is not filtered by the clock; on today
      every start is at least the notice after now. */
  lemma AvailableTimeSlotsClock(bookings: seq<Booking>, services: seq<Service>, slots: seq<Slot>,
                                date: Date, duration: int, now: Moment)
    requires duration >= 1
    ensures var r := AvailableTimeSlots(bookings, services, slots, date, duration, now);
      && (date < now.date ==> r == Ok([]))
      && (date > now.date ==> forall t :: t in r.value <==>
            var day, need := DaySlots(slots, date), SlotsNeeded(duration);
            exists i :: 0 <= i && i + need <= |day| && day[i].time == t && RunFree(day, BusyOf(BlockingRows(bookings, services, date)), i, need))
      && (date == now.date ==> forall t :: t in r.value ==> MinuteInstant(date, t) >= MomentInstant(now) + NoticeMicros)
  {
    var r := AvailableTimeSlots(bookings, services, slots, date, duration, now);
    forall t: TimeOfDay {
      AvailableTimeSlotsExactly(bookings, services, slots, date, duration, now, t);
    }
    if date < now.date {
      var day := DaySlots(slots, date);
      var need := SlotsNeeded(duration);
      StartsBelowNoneBookable(day, BusyOf(BlockingRows(bookings, services, date)), need, date, now, StartCount(day, need));
    }
  }

  /** A smaller busy set never loses a start. */
  lemma StartsAntitone(day: seq<Slot>, fewer: set<TimeOfDay>, more: set<TimeOfDay>, need: int, date: Date, now: Moment, n: int)
    requires need >= 1 && 0 <= n && (n == 0 || n + need <= |day| + 1)
    requires fewer <= more
    ensures forall t :: t in StartsBelow(day, more, need, date, now, n) ==> t in StartsBelow(day, fewer, need, date, now, n)
  {
    forall t | t in StartsBelow(day, more, need, date, now, n) ensures t in StartsBelow(day, fewer, need, date, now, n) {
      StartsBelowExactly(day, more, need, date, now, n, t);
      StartsBelowExactly(day, fewer, need, date, now, n, t);
      var i :| 0 <= i < n && day[i].time == t && RunFree(day, more, i, need) && Bookable(date, t, now);
      assert RunFree(day, fewer, i, need);
    }
  }

  lemma BusyOfMonotone(small: seq<ServiceRow>, large: seq<ServiceRow>)
    requires forall row :: row in small ==> row in large
    ensures BusyOf(small) <= BusyOf(large)
  {
    forall t | t in BusyOf(small) ensures t in BusyOf(large) {
      BusyOfExactly(small, t);
      BusyOfExactly(large, t);
    }
  }

  /** Cancelling a booking (update_booking_status(id, 'cancelled')) never removes an offered start. */
  lemma CancellingKeepsStarts(bookings: seq<Booking>, services: seq<Service>, slots: seq<Slot>,
                              date: Date, duration: int, now: Moment, bookingId: int)
    ensures var before := AvailableTimeSlots(bookings, services, slots, date, duration, now);
            var after := AvailableTimeSlots(WithStatus(bookings, bookingId, Cancelled), services, slots, date, duration, now);
      before.Ok? ==> after.Ok? && forall t :: t in before.value ==> t in after.value
  {
    var need := SlotsNeeded(duration);
    if need >= 1 {
      var fewer := BlockingRows(WithStatus(bookings, bookingId, Cancelled), services, date);
      var more := BlockingRows(bookings, services, date);
      CancellingShrinksBlocking(bookings, services, date, bookingId);
      BusyOfMonotone(fewer, more);
      var day := DaySlots(slots, date);
      StartsAntitone(day, BusyOf(fewer), BusyOf(more), need, date, now, StartCount(day, need));
    }
  }

  /** A cancelled booking no longer blocks, and no other booking starts to. */
  lemma CancellingShrinksBlocking(bookings: seq<Booking>, services: seq<Service>, date: Date, bookingId: int)
    ensures forall row :: row in BlockingRows(WithStatus(bookings, bookingId, Cancelled), services, date) ==>
      row in BlockingRows(bookings, services, date)
  {
    var cancelled := WithStatus(bookings, bookingId, Cancelled);
    WithStatusEffect(bookings, bookingId, Cancelled);
    forall row | row in BlockingRows(cancelled, services, date) ensures row in BlockingRows(bookings, services, date) {
      var i :| 0 <= i < |cancelled| && cancelled[i] == row.booking;
      assert bookings[i].id != bookingId;
      assert row.booking == bookings[i];
    }
  }

  /** get_available_time_slots(date_str, service_duration). */
  method GetAvailableTimeSlots(db: Store, date: Date, serviceDuration: int, now: Moment) returns (r: Result<seq<TimeOfDay>>)
    ensures r == AvailableTimeSlots(db.bookings, db.services, db.slots, date, serviceDuration, now)
  {
    var day := DaySlots(db.slots, date);
    var busy := BusyTimes(BlockingRows(db.bookings, db.services, date));
    var need := SlotsNeeded(serviceDuration);
    r := ScanStarts(day, busy, need, date, now);
  }

  /** The scan of get_available_time_slots over the day's slots, with the busy times and the
      number of grid steps a booking needs already computed. */
  method ScanStarts(day: seq<Slot>, busy: set<TimeOfDay>, need: int, date: Date, now: Moment) returns (r: Result<seq<TimeOfDay>>)
    ensures need <= 0 ==> r == Err(IndexError)
    ensures need >= 1 ==> r == Ok(StartsBelow(day, busy, need, date, now, StartCount(day, need)))
  {
    var available: seq<TimeOfDay> := [];
    var bound := |day| - need + 1;
    var i := 0;
    while i < bound
      invariant 0 <= i
      invariant need <= 0 ==> i <= |day|
      invariant need >= 1 ==> i <= StartCount(day, need) && (i == 0 || i + need <= |day| + 1)
      invariant need >= 1 ==> available == StartsBelow(day, busy, need, date, now, i)
    {
      if i >= |day| {
        return Err(IndexError);
      }
      var allFree := RunIsFree(day, busy, i, need);
      if allFree && Bookable(date, day[i].time, now) {
        available := available + [day[i].time];
      }
      if need >= 1 {
        StartsBelowNext(day, busy, need, date, now, i);
      }
      i := i + 1;
    }
    if need <= 0 {
      assert false;
    }
    return Ok(available);
  }

  /** The start test of the scan: slot i is free and so are the need - 1 slots after it. */
  method RunIsFree(day: seq<Slot>, busy: set<TimeOfDay>, i: int, need: int) returns (allFree: bool)
    requires 0 <= i < |day| && i + need <= |day|
    ensures need >= 1 ==> (allFree <==> RunFree(day, busy, i, need))
  {
    allFree := false;
    if day[i].available && day[i].time !in busy {
      allFree := true;
      var j := 0;
      while j < need
        invariant 0 <= j <= (if need < 0 then 0 else need)
        invariant allFree && RunFree(day, busy, i, j)
      {
        if !day[i + j].available || day[i + j].time in busy {
          RunBlocked(day, busy, i, j, need);
          allFree := false;
          break;
        }
        RunExtends(day, busy, i, j);
        j := j + 1;
      }
    }
  }

  // ---------------------------------------------------------------------------
  // Available dates

  /** The slot_date column, in table order. */
  function SlotDates(slots: seq<Slot>): (r: seq<Date>)
    ensures forall d :: d in r <==> exists s :: s in slots && s.date == d
  {
    if slots == [] then []
    else
      assert forall s :: s in slots <==> s in slots[..|slots| - 1] || s == slots[|slots| - 1];
      SlotDates(slots[..|slots| - 1]) + [slots[|slots| - 1].date]
  }

  /** The WHERE clause of the candidate query: BETWEEN today AND today + days_ahead, and
      strftime('%w') not 4, 5 or 6. */
  predicate InWindow(d: Date, today: Date, daysAhead: int) {
    today <= d <= today + daysAhead && SqlWeekday(d) != 4 && SqlWeekday(d) != 5 && SqlWeekday(d) != 6
  }

  /** SELECT DISTINCT slot_date ... ORDER BY slot_date. */
  function CandidateDates(slots: seq<Slot>, today: Date, daysAhead: int): (r: seq<Date>)
    ensures StrictlyIncreasing(r)
    ensures forall d :: d in r <==> (exists s :: s in slots && s.date == d) && InWindow(d, today, daysAhead)
  {
    SortedDistinct(Filter(SlotDates(slots), (d: Date) => InWindow(d, today, daysAhead)))
  }

  /** The candidates, in order, whose list of starts is non-empty; the first error stops the scan. */
  function AvailableDatesOf(bookings: seq<Booking>, services: seq<Service>, slots: seq<Slot>,
                            candidates: seq<Date>, duration: int, now: Moment): Result<seq<Date>>
    decreases |candidates|
  {
    if candidates == [] then Ok([])
    else
      match AvailableDatesOf(bookings, services, slots, candidates[..|candidates| - 1], duration, now)
      case Err(e) => Err(e)
      case Ok(dates) =>
        var last := candidates[|candidates| - 1];
        match AvailableTimeSlots(bookings, services, slots, last, duration, now)
        case Err(e) => Err(e)
        case Ok(times) => Ok(if times != [] then dates + [last] else dates)
  }

  /** get_available_dates_with_slots(service_duration, days_ahead), today being now.date. */
  function AvailableDates(bookings: seq<Booking>, services: seq<Service>, slots: seq<Slot>,
                          duration: int, now: Moment, daysAhead: int := 14): (r: Result<seq<Date>>)
    ensures r.Err? <==> duration <= 0 && CandidateDates(slots, now.date, daysAhead) != []
    ensures r.Err? ==> r.error == IndexError
    ensures r.Ok? ==> StrictlyIncreasing(r.value)
  {
    var cands := CandidateDates(slots, now.date, daysAhead);
    AvailableDatesOfExactly(bookings, services, slots, cands, duration, now);
    AvailableDatesOf(bookings, services, slots, cands, duration, now)
  }

  lemma {:induction false} AvailableDatesOfExactly(bookings: seq<Booking>, services: seq<Service>, slots: seq<Slot>,
                                                   candidates: seq<Date>, duration: int, now: Moment)
    requires StrictlyIncreasing(candidates)
    ensures var r := AvailableDatesOf(bookings, services, slots, candidates, duration, now);
      && (r.Err? <==> candidates != [] && duration <= 0)
      && (r.Err? ==> r.error == IndexError)
      && (r.Ok? ==> StrictlyIncreasing(r.value))
      && (r.Ok? ==> forall d :: d in r.value <==>
            d in candidates && AvailableTimeSlots(bookings, services, slots, d, duration, now) != Ok([]))
    decreases |candidates|
  {
    if candidates != [] {
      var init, last := candidates[..|candidates| - 1], candidates[|candidates| - 1];
      assert StrictlyIncreasing(init);
      AvailableDatesOfExactly(bookings, services, slots, init, duration, now);
      var p := AvailableDatesOf(bookings, services, slots, init, duration, now);
      var q := AvailableTimeSlots(bookings, services, slots, last, duration, now);
      assert forall d :: d in candidates <==> d in init || d == last;
      if p.Ok? && q.Ok? {
        forall d | d in p.value ensures d < last {
          assert d in init;
        }
        if q.value != [] {
          SnocIncreasing(p.value, last);
        }
      } else if p.Err? {
        assert init != [];
      }
    }
  }

  /** The date filter in full: with a positive duration, X is returned exactly when X has a slot
      row, lies between today and today + days_ahead, is not a Thursday, Friday or Saturday
      (the same days init_schedule closes), and offers at least one start; the dates ascend
      strictly. A duration of zero or less raises IndexError as soon as there is a candidate. */
  lemma AvailableDatesExactly(bookings: seq<Booking>, services: seq<Service>, slots: seq<Slot>,
                              duration: int, daysAhead: int, now: Moment)
    ensures var r := AvailableDates(bookings, services, slots, duration, now, daysAhead);
      && (r.Err? <==> duration <= 0 && CandidateDates(slots, now.date, daysAhead) != [])
      && (r.Ok? ==> StrictlyIncreasing(r.value))
      && (r.Ok? ==> forall d :: d in r.value <==>
            && (exists s :: s in slots && s.date == d)
            && now.date <= d <= now.date + daysAhead
            && Weekday(d) != 3 && Weekday(d) != 4 && Weekday(d) != 5
            && AvailableTimeSlots(bookings, services, slots, d, duration, now) != Ok([]))
  {
    var cands := CandidateDates(slots, now.date, daysAhead);
    AvailableDatesOfExactly(bookings, services, slots, cands, duration, now);
    var r := AvailableDates(bookings, services, slots, duration, now, daysAhead);
    if r.Ok? {
      forall d
        ensures d in r.value <==>
          && (exists s :: s in slots && s.date == d)
          && now.date <= d <= now.date + daysAhead
          && Weekday(d) != 3 && Weekday(d) != 4 && Weekday(d) != 5
          && AvailableTimeSlots(bookings, services, slots, d, duration, now) != Ok([])
      {
        InWindowWeekday(d, now.date, daysAhead);
      }
    }
  }

  /** The SQL window test, restated with weekday(): today .. today + days_ahead, and not a
      Thursday, Friday or Saturday. */
  lemma InWindowWeekday(d: Date, today: Date, daysAhead: int)
    ensures InWindow(d, today, daysAhead) <==>
      today <= d <= today + daysAhead && Weekday(d) != 3 && Weekday(d) != 4 && Weekday(d) != 5
  {
    SqlWeekdayAgrees(d);
  }

  /** Once the scan of a prefix has failed, the scan of the whole list fails the same way. */
  lemma {:induction false} DatesErrPersists(bookings: seq<Booking>, services: seq<Service>, slots: seq<Slot>,
                                            candidates: seq<Date>, k: int, duration: int, now: Moment)
    requires 0 <= k <= |candidates|
    requires AvailableDatesOf(bookings, services, slots, candidates[..k], duration, now).Err?
    ensures AvailableDatesOf(bookings, services, slots, candidates, duration, now)
         == AvailableDatesOf(bookings, services, slots, candidates[..k], duration, now)
    decreases |candidates| - k
  {
    if k < |candidates| {
      assert candidates[..k + 1][..k] == candidates[..k];
      DatesErrPersists(bookings, services, slots, candidates, k + 1, duration, now);
    } else {
      assert candidates[..k] == candidates;
    }
  }

  /** One more iteration of the date loop, after the first i succeeded with dates. */
  lemma AvailableDatesOfNext(bookings: seq<Booking>, services: seq<Service>, slots: seq<Slot>,
                             candidates: seq<Date>, i: int, duration: int, now: Moment, dates: seq<Date>)
    requires 0 <= i < |candidates|
    requires AvailableDatesOf(bookings, services, slots, candidates[..i], duration, now) == Ok(dates)
    ensures var t := AvailableTimeSlots(bookings, services, slots, candidates[i], duration, now);
            AvailableDatesOf(bookings, services, slots, candidates[..i + 1], duration, now)
            == (if t.Err? then Err(t.error) else Ok(if t.value != [] then dates + [candidates[i]] else dates))
  {
    assert candidates[..i + 1][..i] == candidates[..i];
  }

  /** get_available_dates_with_slots(service_duration, days_ahead). */
  method GetAvailableDatesWithSlots(db: Store, serviceDuration: int, now: Moment, daysAhead: int := 14) returns (r: Result<seq<Date>>)
    ensures r == AvailableDates(db.bookings, db.services, db.slots, serviceDuration, now, daysAhead)
  {
    var candidates := CandidateDates(db.slots, now.date, daysAhead);
    var dates: seq<Date> := [];
    var i := 0;
    while i < |candidates|
      invariant 0 <= i <= |candidates|
      invariant AvailableDatesOf(db.bookings, db.services, db.slots, candidates[..i], serviceDuration, now) == Ok(dates)
    {
      AvailableDatesOfNext(db.bookings, db.services, db.slots, candidates, i, serviceDuration, now, dates);
      var times := GetAvailableTimeSlots(db, candidates[i], serviceDuration, now);
      if times.Err? {
        DatesErrPersists(db.bookings, db.services, db.slots, candidates, i + 1, serviceDuration, now);
        return Err(times.error);
      }
      if times.value != [] {
        dates := dates + [candidates[i]];
      }
      i := i + 1;
    }
    assert candidates[..|candidates|] == candidates;
    return Ok(dates);
  }
}
