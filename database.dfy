/** The booking database: five tables (users, services, bookings, schedule slots, admins) held
    by one store object. Each SQL write is a method that changes the tables; each query is a
    function of the current contents. AUTOINCREMENT ids are explicit counters, and the clock
    that fills CURRENT_TIMESTAMP columns is a parameter. */
module Database {
  import opened Wrappers
  import opened Calendar
  import opened Sequences

  const Pending := "pending"
  const Confirmed := "confirmed"
  const Cancelled := "cancelled"

  /** A row of users (user_id is the primary key). */
  datatype User = User(
    userId: int, username: Option<string>, firstName: string, lastName: Option<string>,
    phone: Option<string>, registrationDate: int, lastActivity: int)

  /** A row of services; the DECIMAL price is a whole number. */
  datatype Service = Service(id: int, name: string, price: int, durationMinutes: int, description: Option<string>)

  /** A row of bookings. The status column is free text: nothing restricts it to the three statuses. */
  datatype Booking = Booking(
    id: int, userId: int, serviceId: int, at: DateTime, status: string,
    notes: Option<string>, createdAt: int)

  /** A row of schedule_slots, unique on (date, time). The slot_id column is left out: nothing
      in the core reads it. */
  datatype Slot = Slot(date: Date, time: TimeOfDay, available: bool, bookingId: Option<int>)

  /** A booking joined with its service: bookings b JOIN services s ON b.service_id = s.service_id. */
  datatype ServiceRow = ServiceRow(booking: Booking, service: Service)

  /** A booking joined with its client and its service (the admin listings select columns of these). */
  datatype ClientRow = ClientRow(booking: Booking, user: User, service: Service)

  datatype Stats = Stats(
    confirmed: nat, pending: nat, today: nat, revenue: int, uniqueClients: nat, totalUsers: nat)

  datatype DailyStats = DailyStats(date: Date, totalCount: nat, statusCounts: map<string, nat>, dailyRevenue: int)

  // ---------------------------------------------------------------------------
  // The default catalog that init_db inserts

  const DefaultCatalog: seq<(string, int, int, string)> := [
    ("Дизайн ногтей", 150, 15, "Создание уникального дизайна"),
    ("Комбинированный маникюр", 1500, 45, "Комбинированная обработка кутикулы"),
    ("Мужской маникюр", 2000, 60, "Уход за мужскими руками"),
    ("Маникюр с покрытием гель-лаком", 5000, 120, "Маникюр с гель-лаком"),
    ("Наращивание ногтей", 7500, 180, "Удлинение ногтевой пластины"),
    ("Японский маникюр", 2500, 60, "Японская технология ухода"),
    ("Педикюр с покрытием гель-лаком", 5000, 120, "Уход за стопами"),
    ("Снятие гель-лака", 1000, 30, "Аккуратное снятие покрытия"),
    ("Обработка сложного участка", 1500, 20, "Решение проблемных зон"),
    ("Маникюр с покрытием гелем", 4000, 120, "Укрепление гелем")
  ]

  /** The ten catalog rows as inserted with consecutive ids from firstId. */
  function Seeded(firstId: int): (r: seq<Service>)
    ensures |r| == 10
    ensures forall i :: 0 <= i < |r| ==> r[i].id == firstId + i && r[i].price > 0 && r[i].durationMinutes > 0
  {
    forall i | 0 <= i < 10 ensures DefaultCatalog[i].1 > 0 && DefaultCatalog[i].2 > 0 {
      assert i == 0 || i == 1 || i == 2 || i == 3 || i == 4 || i == 5 || i == 6 || i == 7 || i == 8 || i == 9;
    }
    seq(10, i requires 0 <= i < 10 =>
      Service(firstId + i, DefaultCatalog[i].0, DefaultCatalog[i].1, DefaultCatalog[i].2, Some(DefaultCatalog[i].3)))
  }

  // ---------------------------------------------------------------------------
  // Table invariants

  ghost predicate UsersKeyed(us: map<int, User>) {
    forall k :: k in us ==> us[k].userId == k
  }

  ghost predicate ServicesValid(ss: seq<Service>, nextId: int) {
    && (forall i, j :: 0 <= i < j < |ss| ==> ss[i].id < ss[j].id)
    && (forall i :: 0 <= i < |ss| ==> 1 <= ss[i].id < nextId && ss[i].price > 0 && ss[i].durationMinutes > 0)
  }

  ghost predicate BookingsValid(bs: seq<Booking>, nextId: int) {
    && (forall i, j :: 0 <= i < j < |bs| ==> bs[i].id < bs[j].id)
    && (forall i :: 0 <= i < |bs| ==> 1 <= bs[i].id < nextId)
  }

  /** UNIQUE(slot_date, slot_time). */
  ghost predicate UniqueSlotKeys(ss: seq<Slot>) {
    forall i, j :: 0 <= i < j < |ss| ==> ss[i].date != ss[j].date || ss[i].time != ss[j].time
  }


  // ---------------------------------------------------------------------------
  // The effect of each write, on table contents

  /** UPDATE bookings SET status = ? WHERE booking_id = ?. */
  function WithStatus(bs: seq<Booking>, id: int, status: string): seq<Booking> {
    seq(|bs|, i requires 0 <= i < |bs| => if bs[i].id == id then bs[i].(status := status) else bs[i])
  }

  /** The update reaches exactly the booking with that id, only its status changes, and an
      unknown id leaves the table as it was. */
  lemma WithStatusEffect(bs: seq<Booking>, id: int, status: string)
    ensures |WithStatus(bs, id, status)| == |bs|
    ensures forall i :: 0 <= i < |bs| && bs[i].id == id ==> WithStatus(bs, id, status)[i].status == status
    ensures forall i :: 0 <= i < |bs| ==> WithStatus(bs, id, status)[i].(status := bs[i].status) == bs[i]
    ensures forall i :: 0 <= i < |bs| && bs[i].id != id ==> WithStatus(bs, id, status)[i] == bs[i]
    ensures (forall b :: b in bs ==> b.id != id) ==> WithStatus(bs, id, status) == bs
  {
    if forall b :: b in bs ==> b.id != id {
      assert forall i :: 0 <= i < |bs| ==> WithStatus(bs, id, status)[i] == bs[i];
    }
  }

  /** INSERT OR IGNORE INTO schedule_slots (slot_date, slot_time): a new available row unless
      the (date, time) pair is already present. */
  function InsertSlot(ss: seq<Slot>, date: Date, time: TimeOfDay): seq<Slot> {
    if HasSlot(ss, date, time) then ss
    else ss + [Slot(date, time, true, None)]
  }

  predicate HasSlot(ss: seq<Slot>, date: Date, time: TimeOfDay) {
    exists i :: 0 <= i < |ss| && ss[i].date == date && ss[i].time == time
  }

  /** INSERT OR IGNORE keeps every existing row, leaves the pair present, and adds a row only
      when the pair was missing: an available, unbooked row for it. */
  lemma InsertSlotEffect(ss: seq<Slot>, date: Date, time: TimeOfDay)
    ensures |ss| <= |InsertSlot(ss, date, time)| <= |ss| + 1
    ensures InsertSlot(ss, date, time)[..|ss|] == ss
    ensures HasSlot(InsertSlot(ss, date, time), date, time)
    ensures |InsertSlot(ss, date, time)| == |ss| + 1 <==> !HasSlot(ss, date, time)
    ensures |InsertSlot(ss, date, time)| == |ss| + 1 ==> InsertSlot(ss, date, time)[|ss|] == Slot(date, time, true, None)
  {
    if !HasSlot(ss, date, time) {
      assert InsertSlot(ss, date, time)[|ss|] == Slot(date, time, true, None);
    }
  }

  /** ... and it keeps the (date, time) key unique. */
  lemma InsertSlotValid(ss: seq<Slot>, date: Date, time: TimeOfDay)
    requires UniqueSlotKeys(ss)
    ensures UniqueSlotKeys(InsertSlot(ss, date, time))
  {
    var t := InsertSlot(ss, date, time);
    if !HasSlot(ss, date, time) {
      assert t[|ss|] == Slot(date, time, true, None);
      assert forall i :: 0 <= i < |ss| ==> t[i] == ss[i];
      forall i, j | 0 <= i < j < |t| ensures t[i].date != t[j].date || t[i].time != t[j].time {
        if j == |ss| {
          assert t[i] == ss[i];
        }
      }
    }
  }

  /** INSERT OR REPLACE INTO users: the old row, if any, is deleted and a new one written.
      The phone column is not supplied (so it becomes NULL) and registration_date takes its
      default, the current time. */
  function SavedUser(userId: int, username: Option<string>, firstName: string, lastName: Option<string>, clock: int): User {
    User(userId, username, firstName, lastName, None, clock, clock)
  }

  /** Keeps the admins ascending by user_id. SELECT user_id FROM admins has no ORDER BY, so
      the model picks rowid order, the usual scan order of a table whose INTEGER PRIMARY KEY
      user_id is the rowid; an id already present is not inserted again. */
  function InsertAdmin(admins: seq<int>, u: int): (r: seq<int>)
    requires StrictlyIncreasing(admins)
    ensures StrictlyIncreasing(r)
    ensures forall x :: x in r <==> x in admins || x == u
    ensures u in admins ==> r == admins
    ensures u !in admins ==> |r| == |admins| + 1
  {
    if admins == [] then [u]
    else
      HeadIsLeast(admins);
      if u == admins[0] then admins
      else if u < admins[0] then
        ConsIncreasing(u, admins);
        [u] + admins
      else
        var rest := InsertAdmin(admins[1..], u);
        assert forall x :: x in admins <==> x == admins[0] || x in admins[1..];
        ConsIncreasing(admins[0], rest);
        [admins[0]] + rest
  }

  lemma HeadIsLeast(s: seq<int>)
    requires s != [] && StrictlyIncreasing(s)
    ensures StrictlyIncreasing(s[1..])
    ensures forall x :: x in s[1..] ==> s[0] < x
  {
    forall x | x in s[1..] ensures s[0] < x {
      var k :| 0 <= k < |s| - 1 && s[1..][k] == x;
      assert s[k + 1] == x;
    }
  }

  lemma ConsIncreasing(h: int, t: seq<int>)
    requires StrictlyIncreasing(t) && forall x :: x in t ==> h < x
    ensures StrictlyIncreasing([h] + t)
  {
    var r := [h] + t;
    forall i, j | 0 <= i < j < |r| ensures r[i] < r[j] {
      assert r[j] == t[j - 1] && t[j - 1] in t;
      if i > 0 {
        assert r[i] == t[i - 1];
      } else {
        assert r[i] == h;
      }
    }
  }

  /** add_admin is idempotent. */
  lemma InsertAdminIdempotent(admins: seq<int>, u: int)
    requires StrictlyIncreasing(admins)
    ensures InsertAdmin(InsertAdmin(admins, u), u) == InsertAdmin(admins, u)
  {
  }

  // ---------------------------------------------------------------------------
  // Joins

  /** The service with that id (the first, as ids are unique), if any. */
  function FindService(ss: seq<Service>, id: int): (r: Option<Service>)
    ensures r.Some? ==> r.value in ss && r.value.id == id
    ensures r.None? <==> forall s :: s in ss ==> s.id != id
  {
    if ss == [] then None
    else if ss[0].id == id then Some(ss[0])
    else FindService(ss[1..], id)
  }

  /** With unique ids, the service found is the only one with that id. */
  lemma FindServiceUnique(ss: seq<Service>, nextId: int, s: Service)
    requires ServicesValid(ss, nextId) && s in ss
    ensures FindService(ss, s.id) == Some(s)
  {
    if ss[0] != s {
      assert s in ss[1..];
      assert ss[0].id < s.id;
      FindServiceUnique(ss[1..], nextId, s);
    }
  }

  /** The service part of a joined row is the service row its booking's service_id names. */
  predicate ServiceMatch(row: ServiceRow, ss: seq<Service>) {
    FindService(ss, row.booking.serviceId) == Some(row.service)
  }

  predicate InServiceJoin(row: ServiceRow, bs: seq<Booking>, ss: seq<Service>) {
    row.booking in bs && ServiceMatch(row, ss)
  }

  /** bookings JOIN services: a booking whose service row is missing is dropped, and every
      other booking gives its joined row once for each time it occurs. */
  function JoinServices(bs: seq<Booking>, ss: seq<Service>): (r: seq<ServiceRow>)
    ensures forall row :: row in r <==> InServiceJoin(row, bs, ss)
    ensures forall row :: multiset(r)[row] == if ServiceMatch(row, ss) then multiset(bs)[row.booking] else 0
    ensures |r| <= |bs|
  {
    if bs == [] then []
    else
      var last := bs[|bs| - 1];
      var prefix := JoinServices(bs[..|bs| - 1], ss);
      assert bs == bs[..|bs| - 1] + [last];
      assert forall b :: b in bs <==> b in bs[..|bs| - 1] || b == last;
      match FindService(ss, last.serviceId)
      case Some(s) => prefix + [ServiceRow(last, s)]
      case None => prefix
  }

  /** The user and service parts of a joined row are the rows its booking's ids name. */
  predicate ClientMatch(row: ClientRow, us: map<int, User>, ss: seq<Service>) {
    && row.booking.userId in us && row.user == us[row.booking.userId]
    && FindService(ss, row.booking.serviceId) == Some(row.service)
  }

  /** Increasing booking ids make the bookings table duplicate-free, and so both joins of it. */
  lemma JoinsDistinct(bs: seq<Booking>, nextId: int, us: map<int, User>, ss: seq<Service>)
    requires BookingsValid(bs, nextId)
    ensures NoDuplicates(JoinServices(bs, ss)) && NoDuplicates(JoinClients(bs, us, ss))
  {
    {
      assert NoDuplicates(bs) by {
        forall i, j | 0 <= i < j < |bs| ensures bs[i] != bs[j] {
          assert bs[i].id < bs[j].id;
        }
      }
      var js, jc := JoinServices(bs, ss), JoinClients(bs, us, ss);
      forall row: ServiceRow ensures multiset(js)[row] <= 1 {
        MultiplicityAtMostOne(bs, row.booking);
      }
      forall row: ClientRow ensures multiset(jc)[row] <= 1 {
        MultiplicityAtMostOne(bs, row.booking);
      }
      NoDuplicatesOfMultiplicity(js);
      NoDuplicatesOfMultiplicity(jc);
    }
  }

  predicate InClientJoin(row: ClientRow, bs: seq<Booking>, us: map<int, User>, ss: seq<Service>) {
    row.booking in bs && ClientMatch(row, us, ss)
  }

  /** bookings JOIN users JOIN services: a booking whose user or service row is missing is
      dropped, and every other booking gives its joined row once for each time it occurs. */
  function JoinClients(bs: seq<Booking>, us: map<int, User>, ss: seq<Service>): (r: seq<ClientRow>)
    ensures forall row :: row in r <==> InClientJoin(row, bs, us, ss)
    ensures forall row :: multiset(r)[row] == if ClientMatch(row, us, ss) then multiset(bs)[row.booking] else 0
    ensures |r| <= |bs|
  {
    if bs == [] then []
    else
      var last := bs[|bs| - 1];
      var prefix := JoinClients(bs[..|bs| - 1], us, ss);
      assert bs == bs[..|bs| - 1] + [last];
      assert forall b :: b in bs <==> b in bs[..|bs| - 1] || b == last;
      if last.userId !in us then prefix
      else
        match FindService(ss, last.serviceId)
        case Some(s) => prefix + [ClientRow(last, us[last.userId], s)]
        case None => prefix
  }

  // ---------------------------------------------------------------------------
  // Ordering, filtering and aggregation

  function AtAsc(row: ClientRow): int { AtKey(row.booking.at) }
  function AtDesc(row: ClientRow): int { -AtKey(row.booking.at) }
  function CreatedDesc(row: ClientRow): int { -row.booking.createdAt }
  function ServiceAtDesc(row: ServiceRow): int { -AtKey(row.booking.at) }
  function PriceAsc(s: Service): int { s.price }

  /** Earliest first: no row is preceded by a later one (ORDER BY booking_datetime ASC). */
  ghost predicate Chronological(rows: seq<ClientRow>) {
    forall i, j :: 0 <= i < j < |rows| ==> !Before(rows[j].booking.at, rows[i].booking.at)
  }

  /** Latest first (ORDER BY booking_datetime DESC). */
  ghost predicate NewestFirst(rows: seq<ClientRow>) {
    forall i, j :: 0 <= i < j < |rows| ==> !Before(rows[i].booking.at, rows[j].booking.at)
  }

  lemma AscIsChronological(rows: seq<ClientRow>)
    requires SortedBy(rows, AtAsc)
    ensures Chronological(rows)
  {
    forall i, j | 0 <= i < j < |rows| ensures !Before(rows[j].booking.at, rows[i].booking.at) {
      assert AtAsc(rows[i]) <= AtAsc(rows[j]);
      AtKeyOrder(rows[j].booking.at, rows[i].booking.at);
    }
  }

  lemma DescIsNewestFirst(rows: seq<ClientRow>)
    requires SortedBy(rows, AtDesc)
    ensures NewestFirst(rows)
  {
    forall i, j | 0 <= i < j < |rows| ensures !Before(rows[i].booking.at, rows[j].booking.at) {
      assert AtDesc(rows[i]) <= AtDesc(rows[j]);
      AtKeyOrder(rows[i].booking.at, rows[j].booking.at);
    }
  }

  /** A run of consecutive rows of a latest-first listing is latest first. */
  lemma SliceNewestFirst(all: seq<ClientRow>, r: seq<ClientRow>, o: nat)
    requires NewestFirst(all)
    requires r == [] || o + |r| <= |all|
    requires forall k :: 0 <= k < |r| ==> r[k] == all[o + k]
    ensures NewestFirst(r)
  {
    forall i, j | 0 <= i < j < |r| ensures !Before(r[i].booking.at, r[j].booking.at) {
      assert r[i] == all[o + i] && r[j] == all[o + j];
    }
  }

  /** LIMIT limit OFFSET offset over a latest-first listing. */
  function Page(all: seq<ClientRow>, limit: int, offset: int): (r: seq<ClientRow>)
    requires NewestFirst(all)
    ensures limit >= 0 ==> |r| <= limit
    ensures var o := if offset < 0 then 0 else offset;
            && |r| == (if o >= |all| then 0 else if limit < 0 || o + limit > |all| then |all| - o else limit)
            && forall k :: 0 <= k < |r| ==> r[k] == all[o + k]
    ensures NewestFirst(r)
  {
    WindowShape(all, limit, offset);
    SliceNewestFirst(all, Window(all, limit, offset), if offset < 0 then 0 else offset);
    Window(all, limit, offset)
  }

  /** WHERE p ORDER BY key. */
  function Select<T(!new)>(rows: seq<T>, p: T -> bool, key: T -> int): (r: seq<T>)
    ensures forall x :: x in r <==> x in rows && p(x)
    ensures SortedBy(r, key)
    ensures multiset(r) == multiset(Filter(rows, p))
  {
    var f := Filter(rows, p);
    var r := SortBy(f, key);
    assert forall x :: x in r <==> x in multiset(f);
    r
  }

  /** Selecting from duplicate-free rows gives duplicate-free rows. */
  lemma SelectNoDuplicates<T(!new)>(rows: seq<T>, p: T -> bool, key: T -> int)
    requires NoDuplicates(rows)
    ensures NoDuplicates(Select(rows, p, key))
  {
    FilterNoDuplicates(rows, p);
    NoDuplicatesPreserved(Filter(rows, p), Select(rows, p, key));
  }

  /** COUNT(*) ... WHERE status = s. */
  function CountStatus(bs: seq<Booking>, s: string): (n: nat)
    ensures n <= |bs|
    ensures n == 0 <==> forall b :: b in bs ==> b.status != s
  {
    if bs == [] then 0
    else
      assert forall b :: b in bs <==> b in bs[..|bs| - 1] || b == bs[|bs| - 1];
      CountStatus(bs[..|bs| - 1], s) + (if bs[|bs| - 1].status == s then 1 else 0)
  }

  /** A booking has one status, so the confirmed and the pending together are at most all bookings. */
  lemma {:induction false} CountTwoStatuses(bs: seq<Booking>, s: string, t: string)
    requires s != t
    ensures CountStatus(bs, s) + CountStatus(bs, t) <= |bs|
  {
    if bs != [] {
      CountTwoStatuses(bs[..|bs| - 1], s, t);
    }
  }

  /** SUM(s.price), read as 0 when there is no row (the 'or 0' of the Python code). */
  function Revenue(rows: seq<ServiceRow>): int {
    if rows == [] then 0 else Revenue(rows[..|rows| - 1]) + rows[|rows| - 1].service.price
  }

  /** With positive prices, revenue is zero exactly when no booking contributes. */
  lemma {:induction false} RevenueSign(rows: seq<ServiceRow>)
    requires forall row :: row in rows ==> row.service.price > 0
    ensures Revenue(rows) >= 0
    ensures Revenue(rows) == 0 <==> rows == []
  {
    if rows != [] {
      RevenueSign(rows[..|rows| - 1]);
    }
  }

  /** SELECT status, COUNT(*) ... GROUP BY status, as the dictionary the Python code builds. */
  function StatusCounts(bs: seq<Booking>): (m: map<string, nat>)
    ensures forall s :: s in m <==> exists b :: b in bs && b.status == s
    ensures forall s :: s in m ==> m[s] == CountStatus(bs, s) && m[s] > 0
    decreases |bs|
  {
    if bs == [] then map[]
    else
      var p, b := bs[..|bs| - 1], bs[|bs| - 1];
      var m := StatusCounts(p);
      assert forall x :: x in bs <==> x in p || x == b;
      m[b.status := (if b.status in m then m[b.status] else 0) + 1]
  }

  /** The sum of the values of a dictionary. */
  ghost function MapSum(m: map<string, nat>): nat
    decreases |m|
  {
    if m == map[] then 0
    else
      var k :| k in m;
      assert (m - {k}).Keys == m.Keys - {k};
      m[k] + MapSum(m - {k})
  }

  /** The sum does not depend on which key is taken out first. */
  lemma {:induction false} MapSumRemove(m: map<string, nat>, k: string)
    requires k in m
    ensures MapSum(m) == m[k] + MapSum(m - {k})
    decreases |m|
  {
    var j :| j in m && MapSum(m) == m[j] + MapSum(m - {j});
    if j != k {
      assert (m - {j}).Keys == m.Keys - {j};
      assert (m - {k}).Keys == m.Keys - {k};
      MapSumRemove(m - {j}, k);
      MapSumRemove(m - {k}, j);
      assert m - {j} - {k} == m - {k} - {j};
    }
  }

  lemma MapSumUpdate(m: map<string, nat>, k: string, v: nat)
    ensures MapSum(m[k := v]) == MapSum(m) - (if k in m then m[k] else 0) + v
  {
    MapSumRemove(m[k := v], k);
    assert m[k := v] - {k} == m - {k};
    if k in m {
      MapSumRemove(m, k);
    } else {
      assert m - {k} == m;
    }
  }

  lemma CountStatusSnoc(p: seq<Booking>, b: Booking, s: string)
    ensures CountStatus(p + [b], s) == CountStatus(p, s) + (if b.status == s then 1 else 0)
  {
    var bs := p + [b];
    assert bs[..|bs| - 1] == p && bs[|bs| - 1] == b;
  }

  /** Appending a booking adds one to the count of its status (creating the entry if needed). */
  lemma StatusCountsSnoc(p: seq<Booking>, b: Booking)
    ensures var m := StatusCounts(p);
            StatusCounts(p + [b]) == m[b.status := (if b.status in m then m[b.status] else 0) + 1]
  {
    var bs := p + [b];
    assert bs[..|bs| - 1] == p && bs[|bs| - 1] == b;
  }

  /** The per-status counts of a day add up to the day's total. */
  lemma {:induction false} StatusCountsSum(bs: seq<Booking>)
    ensures MapSum(StatusCounts(bs)) == |bs|
  {
    if bs == [] {
      assert StatusCounts(bs) == map[];
    } else {
      var p, b := bs[..|bs| - 1], bs[|bs| - 1];
      assert bs == p + [b];
      StatusCountsSum(p);
      var m := StatusCounts(p);
      StatusCountsSnoc(p, b);
      MapSumUpdate(m, b.status, (if b.status in m then m[b.status] else 0) + 1);
    }
  }

  /** The user_id column of the bookings, in table order. */
  function UserIds(bs: seq<Booking>): (r: seq<int>)
    ensures forall u :: u in r <==> exists b :: b in bs && b.userId == u
  {
    if bs == [] then []
    else
      assert forall b :: b in bs <==> b in bs[..|bs| - 1] || b == bs[|bs| - 1];
      UserIds(bs[..|bs| - 1]) + [bs[|bs| - 1].userId]
  }

  /** The user ids of bookings satisfying the notification group's filter, without duplicates. */
  predicate InNotificationGroup(b: Booking, group: string, today: Date) {
    if group == "today" then b.at.date == today && b.status == Confirmed
    else if group == "tomorrow" then b.at.date == today + 1 && b.status == Confirmed
    else true
  }

  // ---------------------------------------------------------------------------
  // Case-insensitive substring, SQLite's LIKE '%term%' for ASCII letters

  function LowerAscii(c: char): char {
    if 'A' <= c <= 'Z' then (c as int + 32) as char else c
  }

  function Lowered(s: string): (r: string)
    ensures |r| == |s|
  {
    seq(|s|, i requires 0 <= i < |s| => LowerAscii(s[i]))
  }

  predicate Like(field: string, term: string) {
    exists i :: 0 <= i <= |field| && OccursAt(Lowered(field), Lowered(term), i)
  }

  predicate OccursAt(f: string, t: string, i: int) {
    0 <= i <= |f| - |t| && f[i..i + |t|] == t
  }

  /** An empty term matches every text; a term matches regardless of the case of its ASCII letters. */
  lemma LikeProperties(field: string, term: string)
    ensures Like(field, "")
    ensures Like(field, term) <==> Like(field, Lowered(term))
    ensures Like(Lowered(field), term) <==> Like(field, term)
  {
    assert Lowered("") == [];
    assert OccursAt(Lowered(field), Lowered(""), 0);
    LoweredIdempotent(term);
    LoweredIdempotent(field);
  }

  lemma LoweredIdempotent(s: string)
    ensures Lowered(Lowered(s)) == Lowered(s)
  {
    assert forall i :: 0 <= i < |s| ==> Lowered(Lowered(s))[i] == Lowered(s)[i];
  }

  /** first_name LIKE p OR username LIKE p OR s.name LIKE p (a NULL username matches nothing). */
  predicate SearchMatch(row: ClientRow, term: string) {
    || Like(row.user.firstName, term)
    || (row.user.username.Some? && Like(row.user.username.value, term))
    || Like(row.service.name, term)
  }

  const SearchLimit := 50

  // ---------------------------------------------------------------------------
  // The store

  class Store {
    var users: map<int, User>
    var services: seq<Service>
    var bookings: seq<Booking>
    var slots: seq<Slot>
    var admins: seq<int>
    var nextServiceId: int
    var nextBookingId: int

    ghost predicate Valid()
      reads this
    {
      && UsersKeyed(users)
      && ServicesValid(services, nextServiceId)
      && BookingsValid(bookings, nextBookingId)
      && UniqueSlotKeys(slots)
      && StrictlyIncreasing(admins)
      && 1 <= nextServiceId && 1 <= nextBookingId
    }

    /** The tables as CREATE TABLE IF NOT EXISTS leaves them in a new database file. */
    constructor ()
      ensures Valid()
      ensures users == map[] && services == [] && bookings == [] && slots == [] && admins == []
      ensures nextServiceId == 1 && nextBookingId == 1
    {
      users, services, bookings, slots, admins := map[], [], [], [], [];
      nextServiceId, nextBookingId := 1, 1;
    }

    /** init_db on existing tables: the CREATE statements change nothing, and the ten default
        services are inserted again with new ids (services has no unique column, so INSERT OR
        IGNORE never ignores). */
    method InitDb()
      requires Valid()
      modifies this
      ensures Valid()
      ensures services == old(services) + Seeded(old(nextServiceId))
      ensures nextServiceId == old(nextServiceId) + 10
      ensures users == old(users) && bookings == old(bookings) && slots == old(slots) && admins == old(admins)
      ensures nextBookingId == old(nextBookingId)
    {
      var added := Seeded(nextServiceId);
      var all := services + added;
      forall i | 0 <= i < |all|
        ensures 1 <= all[i].id < nextServiceId + 10 && all[i].price > 0 && all[i].durationMinutes > 0
      {
        if i >= |services| {
          assert all[i] == added[i - |services|];
        }
      }
      forall i, j | 0 <= i < j < |all| ensures all[i].id < all[j].id {
        if j >= |services| && i < |services| {
          assert all[i] == services[i] && all[j] == added[j - |services|];
        }
      }
      services := all;
      nextServiceId := nextServiceId + 10;
    }

    /** save_user: insert or replace the row of that user. */
    method SaveUser(userId: int, username: Option<string>, firstName: string, clock: int, lastName: Option<string> := None)
      requires Valid()
      modifies this
      ensures Valid()
      ensures users == old(users)[userId := SavedUser(userId, username, firstName, lastName, clock)]
      ensures GetUser(userId) == Some(SavedUser(userId, username, firstName, lastName, clock))
      ensures |users| == |old(users)| + (if userId in old(users) then 0 else 1)
      ensures services == old(services) && bookings == old(bookings) && slots == old(slots) && admins == old(admins)
      ensures nextServiceId == old(nextServiceId) && nextBookingId == old(nextBookingId)
    {
      users := users[userId := SavedUser(userId, username, firstName, lastName, clock)];
    }

    /** create_booking: a pending booking with a fresh id, or, when the insert fails, no change.
        The insert fails on a NULL (None) value for a NOT NULL column or on a storage error. */
    method CreateBooking(userId: Option<int>, serviceId: Option<int>, at: Option<DateTime>, createdAt: int, storageFails: bool)
      returns (ok: bool, bookingId: int)
      requires Valid()
      modifies this
      ensures Valid()
      ensures ok <==> userId.Some? && serviceId.Some? && at.Some? && !storageFails
      ensures ok ==> bookingId == old(nextBookingId) && nextBookingId == bookingId + 1
      ensures ok ==> bookings == old(bookings) + [Booking(bookingId, userId.value, serviceId.value, at.value, Pending, None, createdAt)]
      ensures ok ==> forall b :: b in old(bookings) ==> b.id != bookingId
      ensures !ok ==> bookingId == 0 && bookings == old(bookings) && nextBookingId == old(nextBookingId)
      ensures users == old(users) && services == old(services) && slots == old(slots) && admins == old(admins)
      ensures nextServiceId == old(nextServiceId)
    {
      if userId.None? || serviceId.None? || at.None? || storageFails {
        return false, 0;
      }
      bookingId := nextBookingId;
      bookings := bookings + [Booking(bookingId, userId.value, serviceId.value, at.value, Pending, None, createdAt)];
      nextBookingId := nextBookingId + 1;
      ok := true;
    }

    /** update_booking_status: overwrite the status of the booking with that id, with no check
        of the transition; an unknown id changes nothing. */
    method UpdateBookingStatus(bookingId: int, status: string)
      requires Valid()
      modifies this
      ensures Valid()
      ensures bookings == WithStatus(old(bookings), bookingId, status)
      ensures users == old(users) && services == old(services) && slots == old(slots) && admins == old(admins)
      ensures nextServiceId == old(nextServiceId) && nextBookingId == old(nextBookingId)
    {
      bookings := WithStatus(bookings, bookingId, status);
    }

    /** add_admin: insert the user id unless it is already an admin. */
    method AddAdmin(userId: int)
      requires Valid()
      modifies this
      ensures Valid()
      ensures admins == InsertAdmin(old(admins), userId)
      ensures IsAdmin(userId)
      ensures forall u :: IsAdmin(u) <==> old(IsAdmin(u)) || u == userId
      ensures users == old(users) && services == old(services) && bookings == old(bookings) && slots == old(slots)
      ensures nextServiceId == old(nextServiceId) && nextBookingId == old(nextBookingId)
    {
      admins := InsertAdmin(admins, userId);
    }

    /** One INSERT OR IGNORE INTO schedule_slots (slot_date, slot_time) VALUES (?, ?). */
    method InsertSlotOrIgnore(date: Date, time: TimeOfDay)
      modifies this
      ensures slots == InsertSlot(old(slots), date, time)
      ensures users == old(users) && services == old(services) && bookings == old(bookings) && admins == old(admins)
      ensures nextServiceId == old(nextServiceId) && nextBookingId == old(nextBookingId)
    {
      slots := InsertSlot(slots, date, time);
    }

    // -------------------------------------------------------------------------
    // Lookups

    /** get_user. */
    function GetUser(userId: int): (r: Option<User>)
      reads this
      ensures r.Some? <==> userId in users
      ensures r.Some? ==> r.value == users[userId]
    {
      if userId in users then Some(users[userId]) else None
    }

    /** is_admin: SELECT 1 FROM admins WHERE user_id = ? finds a row. */
    predicate IsAdmin(userId: int): (found: bool)
      reads this
      ensures found <==> exists i :: 0 <= i < |admins| && admins[i] == userId
    {
      userId in admins
    }

    /** get_all_admins: every admin once, ascending. */
    function GetAllAdmins(): (r: seq<int>)
      reads this
      requires Valid()
      ensures StrictlyIncreasing(r)
      ensures forall u :: u in r <==> IsAdmin(u)
    {
      admins
    }

    /** get_services: the whole catalog, cheapest first. */
    function GetServices(): (r: seq<Service>)
      reads this
      ensures multiset(r) == multiset(services)
      ensures forall i, j :: 0 <= i < j < |r| ==> r[i].price <= r[j].price
    {
      var r := SortBy(services, PriceAsc);
      assert forall i, j :: 0 <= i < j < |r| ==> PriceAsc(r[i]) <= PriceAsc(r[j]);
      r
    }

    /** get_service_by_id. */
    function GetServiceById(serviceId: int): (r: Option<Service>)
      reads this
      ensures r.Some? ==> r.value in services && r.value.id == serviceId
      ensures r.None? <==> forall s :: s in services ==> s.id != serviceId
    {
      FindService(services, serviceId)
    }

    // -------------------------------------------------------------------------
    // Booking listings

    /** get_user_bookings: the user's bookings that have a service row (the query joins only
        services), latest first. */
    function UserBookings(userId: int): (r: seq<ServiceRow>)
      reads this
      ensures forall row :: row in r <==>
        row.booking in bookings && row.booking.userId == userId
        && FindService(services, row.booking.serviceId) == Some(row.service)
      ensures forall i, j :: 0 <= i < j < |r| ==> !Before(r[i].booking.at, r[j].booking.at)
      ensures Valid() ==> NoDuplicates(r)
    {
      var r := Select(JoinServices(bookings, services), (row: ServiceRow) => row.booking.userId == userId, ServiceAtDesc);
      assert Valid() ==> NoDuplicates(r) by {
        if Valid() {
          JoinsDistinct(bookings, nextBookingId, users, services);
          SelectNoDuplicates(JoinServices(bookings, services), (row: ServiceRow) => row.booking.userId == userId, ServiceAtDesc);
        }
      }
      forall i, j | 0 <= i < j < |r| ensures !Before(r[i].booking.at, r[j].booking.at) {
        assert ServiceAtDesc(r[i]) <= ServiceAtDesc(r[j]);
        AtKeyOrder(r[i].booking.at, r[j].booking.at);
      }
      r
    }

    /** get_pending_bookings: pending bookings with both a client and a service row, earliest first. */
    function PendingBookings(): (r: seq<ClientRow>)
      reads this
      ensures forall row :: row in r <==> InClientJoin(row, bookings, users, services) && row.booking.status == Pending
      ensures Chronological(r)
      ensures Valid() ==> NoDuplicates(r)
    {
      var r := Select(JoinClients(bookings, users, services), (row: ClientRow) => row.booking.status == Pending, AtAsc);
      assert Valid() ==> NoDuplicates(r) by {
        if Valid() {
          JoinsDistinct(bookings, nextBookingId, users, services);
          SelectNoDuplicates(JoinClients(bookings, users, services), (row: ClientRow) => row.booking.status == Pending, AtAsc);
        }
      }
      AscIsChronological(r);
      r
    }

    /** Confirmed bookings with client and service rows on one date, earliest first. */
    function ConfirmedOn(date: Date): (r: seq<ClientRow>)
      reads this
      ensures forall row :: row in r <==>
        InClientJoin(row, bookings, users, services) && row.booking.at.date == date && row.booking.status == Confirmed
      ensures Chronological(r)
      ensures Valid() ==> NoDuplicates(r)
    {
      var r := Select(JoinClients(bookings, users, services),
                      (row: ClientRow) => row.booking.at.date == date && row.booking.status == Confirmed, AtAsc);
      assert Valid() ==> NoDuplicates(r) by {
        if Valid() {
          JoinsDistinct(bookings, nextBookingId, users, services);
          SelectNoDuplicates(JoinClients(bookings, users, services),
                             (row: ClientRow) => row.booking.at.date == date && row.booking.status == Confirmed, AtAsc);
        }
      }
      AscIsChronological(r);
      r
    }

    /** get_today_bookings. */
    function TodayBookings(today: Date): (r: seq<ClientRow>)
      reads this
      ensures forall row :: row in r <==>
        InClientJoin(row, bookings, users, services) && row.booking.at.date == today && row.booking.status == Confirmed
      ensures Chronological(r)
      ensures Valid() ==> NoDuplicates(r)
    {
      ConfirmedOn(today)
    }

    /** get_tomorrow_bookings (also the query of the reminder loop). */
    function TomorrowBookings(today: Date): (r: seq<ClientRow>)
      reads this
      ensures forall row :: row in r <==>
        InClientJoin(row, bookings, users, services) && row.booking.at.date == today + 1 && row.booking.status == Confirmed
      ensures Chronological(r)
      ensures Valid() ==> NoDuplicates(r)
    {
      ConfirmedOn(today + 1)
    }

    /** get_booking_by_id and get_booking_with_client_info (they select different columns of
        the same joined row). */
    function BookingById(bookingId: int): (r: Option<ClientRow>)
      reads this
      ensures r.Some? ==> InClientJoin(r.value, bookings, users, services) && r.value.booking.id == bookingId
      ensures r.None? <==> forall row :: InClientJoin(row, bookings, users, services) ==> row.booking.id != bookingId
    {
      var matching := Filter(JoinClients(bookings, users, services), (row: ClientRow) => row.booking.id == bookingId);
      if matching == [] then None else Some(matching[0])
    }

    /** Monday of the week containing today. */
    static function WeekStart(today: Date): (d: Date)
      ensures Weekday(d) == 0 && d <= today <= d + 6
    {
      today - Weekday(today)
    }

    /** get_week_bookings: confirmed bookings from this week's Monday to its Sunday, earliest first. */
    function WeekBookings(today: Date): (r: seq<ClientRow>)
      reads this
      ensures forall row :: row in r <==>
        && InClientJoin(row, bookings, users, services)
        && WeekStart(today) <= row.booking.at.date <= WeekStart(today) + 6
        && row.booking.status == Confirmed
      ensures Chronological(r)
      ensures Valid() ==> NoDuplicates(r)
    {
      var start := WeekStart(today);
      var r := Select(JoinClients(bookings, users, services),
                      (row: ClientRow) => start <= row.booking.at.date <= start + 6 && row.booking.status == Confirmed, AtAsc);
      assert Valid() ==> NoDuplicates(r) by {
        if Valid() {
          JoinsDistinct(bookings, nextBookingId, users, services);
          SelectNoDuplicates(JoinClients(bookings, users, services),
                             (row: ClientRow) => start <= row.booking.at.date <= start + 6 && row.booking.status == Confirmed, AtAsc);
        }
      }
      AscIsChronological(r);
      r
    }

    /** Every joined booking, latest first: the listing get_all_bookings pages through. */
    function JoinedNewestFirst(): (r: seq<ClientRow>)
      reads this
      ensures forall row :: row in r <==> InClientJoin(row, bookings, users, services)
      ensures NewestFirst(r)
      ensures Valid() ==> NoDuplicates(r)
    {
      var r := Select(JoinClients(bookings, users, services), (row: ClientRow) => true, AtDesc);
      assert Valid() ==> NoDuplicates(r) by {
        if Valid() {
          JoinsDistinct(bookings, nextBookingId, users, services);
          SelectNoDuplicates(JoinClients(bookings, users, services), (row: ClientRow) => true, AtDesc);
        }
      }
      DescIsNewestFirst(r);
      r
    }

    /** get_all_bookings(limit, offset): LIMIT ? OFFSET ? over the latest-first listing. */
    function AllBookings(limit: int := 100, offset: int := 0): (r: seq<ClientRow>)
      reads this
      ensures limit >= 0 ==> |r| <= limit
      ensures var all, o := JoinedNewestFirst(), (if offset < 0 then 0 else offset);
              && |r| == (if o >= |all| then 0 else if limit < 0 || o + limit > |all| then |all| - o else limit)
              && forall k :: 0 <= k < |r| ==> r[k] == all[o + k]
      ensures NewestFirst(r)
    {
      Page(JoinedNewestFirst(), limit, offset)
    }

    /** search_bookings: the 50 latest joined bookings (all of them when fewer match) whose
        client's first name or username or whose service name contains the term, latest first. */
    function SearchBookings(term: string): (r: seq<ClientRow>)
      reads this
      ensures var matching := Filter(JoinClients(bookings, users, services), (row: ClientRow) => SearchMatch(row, term));
              && |r| == (if |matching| < SearchLimit then |matching| else SearchLimit)
              && multiset(r) <= multiset(matching)
              && forall x, y :: x in multiset(matching) - multiset(r) && y in r ==> !Before(y.booking.at, x.booking.at)
      ensures forall row :: row in r ==> InClientJoin(row, bookings, users, services) && SearchMatch(row, term)
      ensures NewestFirst(r)
    {
      var joined := JoinClients(bookings, users, services);
      var n := |Filter(joined, (row: ClientRow) => SearchMatch(row, term))|;
      var k := if n < SearchLimit then n else SearchLimit;
      LatestPrefix(joined, (row: ClientRow) => SearchMatch(row, term), k);
      Select(joined, (row: ClientRow) => SearchMatch(row, term), AtDesc)[..k]
    }

    /** get_bookings_by_date: every joined booking on that date whatever its status, earliest first. */
    function BookingsByDate(date: Date): (r: seq<ClientRow>)
      reads this
      ensures forall row :: row in r <==> InClientJoin(row, bookings, users, services) && row.booking.at.date == date
      ensures Chronological(r)
      ensures Valid() ==> NoDuplicates(r)
    {
      var r := Select(JoinClients(bookings, users, services), (row: ClientRow) => row.booking.at.date == date, AtAsc);
      assert Valid() ==> NoDuplicates(r) by {
        if Valid() {
          JoinsDistinct(bookings, nextBookingId, users, services);
          SelectNoDuplicates(JoinClients(bookings, users, services), (row: ClientRow) => row.booking.at.date == date, AtAsc);
        }
      }
      AscIsChronological(r);
      r
    }

    /** get_bookings_by_user_id: the user's joined bookings, latest first. */
    function BookingsByUserId(userId: int): (r: seq<ClientRow>)
      reads this
      ensures forall row :: row in r <==> InClientJoin(row, bookings, users, services) && row.booking.userId == userId
      ensures NewestFirst(r)
      ensures Valid() ==> NoDuplicates(r)
    {
      var r := Select(JoinClients(bookings, users, services), (row: ClientRow) => row.booking.userId == userId, AtDesc);
      assert Valid() ==> NoDuplicates(r) by {
        if Valid() {
          JoinsDistinct(bookings, nextBookingId, users, services);
          SelectNoDuplicates(JoinClients(bookings, users, services), (row: ClientRow) => row.booking.userId == userId, AtDesc);
        }
      }
      DescIsNewestFirst(r);
      r
    }

    /** get_bookings_by_status: joined bookings with that status, latest first. */
    function BookingsByStatus(status: string): (r: seq<ClientRow>)
      reads this
      ensures forall row :: row in r <==> InClientJoin(row, bookings, users, services) && row.booking.status == status
      ensures NewestFirst(r)
      ensures Valid() ==> NoDuplicates(r)
    {
      var r := Select(JoinClients(bookings, users, services), (row: ClientRow) => row.booking.status == status, AtDesc);
      assert Valid() ==> NoDuplicates(r) by {
        if Valid() {
          JoinsDistinct(bookings, nextBookingId, users, services);
          SelectNoDuplicates(JoinClients(bookings, users, services), (row: ClientRow) => row.booking.status == status, AtDesc);
        }
      }
      DescIsNewestFirst(r);
      r
    }

    /** get_recent_bookings(limit): the limit most recently created joined bookings, newest
        first (every joined booking when limit is negative or larger than their number). */
    function RecentBookings(limit: int := 10): (r: seq<ClientRow>)
      reads this
      ensures var joined := JoinClients(bookings, users, services);
              |r| == if limit < 0 || limit > |joined| then |joined| else limit
      ensures multiset(r) <= multiset(JoinClients(bookings, users, services))
      ensures forall row :: row in r ==> InClientJoin(row, bookings, users, services)
      ensures forall x, y :: x in multiset(JoinClients(bookings, users, services)) - multiset(r) && y in r ==>
                x.booking.createdAt <= y.booking.createdAt
      ensures forall i, j :: 0 <= i < j < |r| ==> r[i].booking.createdAt >= r[j].booking.createdAt
    {
      var joined := JoinClients(bookings, users, services);
      var k := if limit < 0 || limit > |joined| then |joined| else limit;
      NewestPrefix(joined, k);
      SortBy(joined, CreatedDesc)[..k]
    }

    // -------------------------------------------------------------------------
    // Counts and statistics

    /** count_bookings_by_status: the bookings with that status, or all bookings when no
        status (None or the empty string, which Python reads as false) is given. No join. */
    function CountBookingsByStatus(status: Option<string>): (n: nat)
      reads this
      ensures n <= |bookings|
      ensures status.None? || status == Some("") ==> n == |bookings|
      ensures status.Some? && status != Some("") ==> n == CountStatus(bookings, status.value)
    {
      if status.Some? && status.value != "" then CountStatus(bookings, status.value) else |bookings|
    }

    /** get_pending_bookings_count. */
    function PendingBookingsCount(): (n: nat)
      reads this
      ensures n == CountBookingsByStatus(Some(Pending))
    {
      CountStatus(bookings, Pending)
    }

    /** get_today_bookings_count: confirmed bookings dated today, with no join. */
    function TodayBookingsCount(today: Date): (n: nat)
      reads this
      ensures n == |set i | 0 <= i < |bookings| && bookings[i].at.date == today && bookings[i].status == Confirmed|
      ensures n <= CountStatus(bookings, Confirmed)
    {
      var todays := Filter(bookings, (b: Booking) => b.at.date == today);
      TodayConfirmedBound(bookings, today);
      TodayConfirmedIndices(bookings, today);
      CountStatus(todays, Confirmed)
    }

    /** get_statistics. */
    function Statistics(today: Date): (r: Stats)
      reads this
      ensures r.confirmed == CountStatus(bookings, Confirmed)
      ensures r.pending == CountStatus(bookings, Pending)
      ensures r.confirmed + r.pending <= |bookings|
      ensures r.today == TodayBookingsCount(today) && r.today <= r.confirmed
      ensures r.uniqueClients == |set b | b in bookings :: b.userId|
      ensures r.totalUsers == |users|
      ensures r.revenue == Revenue(Filter(JoinServices(bookings, services), (row: ServiceRow) => row.booking.status == Confirmed))
    {
      CountTwoStatuses(bookings, Confirmed, Pending);
      var ids := Dedup(UserIds(bookings));
      DistinctCardinality(ids);
      assert (set x | x in ids) == (set b | b in bookings :: b.userId);
      Stats(
        CountStatus(bookings, Confirmed),
        CountStatus(bookings, Pending),
        TodayBookingsCount(today),
        Revenue(Filter(JoinServices(bookings, services), (row: ServiceRow) => row.booking.status == Confirmed)),
        |ids|,
        |users|)
    }

    /** get_daily_statistics(date): the day's bookings counted in total and per status (no
        join), and the prices of its confirmed bookings summed (joined with services);
        without a date, today. */
    function DailyStatistics(date: Option<Date>, today: Date): (r: DailyStats)
      reads this
      ensures r.date == date.GetOr(today)
      ensures r.totalCount == MapSum(r.statusCounts)
      ensures forall s :: s in r.statusCounts <==> exists b :: b in bookings && b.at.date == r.date && b.status == s
      ensures forall s :: s in r.statusCounts ==>
        r.statusCounts[s] == CountStatus(Filter(bookings, (b: Booking) => b.at.date == r.date), s)
      ensures r.dailyRevenue == Revenue(Filter(JoinServices(bookings, services),
                                               (row: ServiceRow) => row.booking.at.date == r.date && row.booking.status == Confirmed))
    {
      var d := date.GetOr(today);
      var day := Filter(bookings, (b: Booking) => b.at.date == d);
      StatusCountsSum(day);
      DailyStats(
        d, |day|, StatusCounts(day),
        Revenue(Filter(JoinServices(bookings, services), (row: ServiceRow) => row.booking.at.date == d && row.booking.status == Confirmed)))
    }

    /** get_clients_for_notification(group): the distinct user ids of today's or tomorrow's
        confirmed bookings, or of all bookings for any other group. No join. */
    function ClientsForNotification(today: Date, group: string := "all"): (r: seq<int>)
      reads this
      ensures NoDuplicates(r)
      ensures forall u :: u in r <==> exists b :: b in bookings && b.userId == u && InNotificationGroup(b, group, today)
    {
      Dedup(UserIds(Filter(bookings, (b: Booking) => InNotificationGroup(b, group, today))))
    }
  }

  /** Cutting a listing sorted newest created first after k rows keeps the k newest: every
      row left out was created no later than every row kept. */
  lemma NewestPrefix(rows: seq<ClientRow>, k: nat)
    requires k <= |rows|
    ensures var r := SortBy(rows, CreatedDesc)[..k];
            multiset(r) <= multiset(rows) && (forall row :: row in r ==> row in rows)
    ensures var r := SortBy(rows, CreatedDesc)[..k];
            forall x, y :: x in multiset(rows) - multiset(r) && y in r ==> x.booking.createdAt <= y.booking.createdAt
    ensures var r := SortBy(rows, CreatedDesc)[..k];
            forall i, j :: 0 <= i < j < |r| ==> r[i].booking.createdAt >= r[j].booking.createdAt
  {
    var all := SortBy(rows, CreatedDesc);
    PrefixKept(all, rows, k);
    SortedPrefixNewest(all, k);
  }

  /** A prefix of a rearrangement of the rows keeps only rows drawn from them. */
  lemma PrefixKept(all: seq<ClientRow>, rows: seq<ClientRow>, k: nat)
    requires multiset(all) == multiset(rows) && k <= |all|
    ensures multiset(all[..k]) <= multiset(rows)
    ensures multiset(rows) - multiset(all[..k]) == multiset(all[k..])
    ensures forall row :: row in all[..k] ==> row in rows
  {
    assert all == all[..k] + all[k..];
    assert multiset(all) == multiset(all[..k]) + multiset(all[k..]);
    forall row | row in all[..k] ensures row in rows {
      assert row in multiset(all[..k]);
      assert row in multiset(rows);
    }
  }

  /** In rows sorted newest first, every row past the first k was created no later than
      every row among them, and the first k stay newest first. */
  lemma SortedPrefixNewest(all: seq<ClientRow>, k: nat)
    requires SortedBy(all, CreatedDesc) && k <= |all|
    ensures forall x, y :: x in all[k..] && y in all[..k] ==> x.booking.createdAt <= y.booking.createdAt
    ensures forall i, j :: 0 <= i < j < k ==> all[i].booking.createdAt >= all[j].booking.createdAt
  {
    forall x, y | x in all[k..] && y in all[..k]
      ensures x.booking.createdAt <= y.booking.createdAt
    {
      var m :| 0 <= m < |all| - k && all[k..][m] == x;
      var j :| 0 <= j < k && all[..k][j] == y;
      assert CreatedDesc(all[j]) <= CreatedDesc(all[k + m]);
    }
    forall i, j | 0 <= i < j < k ensures all[i].booking.createdAt >= all[j].booking.createdAt {
      assert CreatedDesc(all[i]) <= CreatedDesc(all[j]);
    }
  }

  /** The positions of the bookings dated today and confirmed. */
  function TodayConfirmedRows(bs: seq<Booking>, today: Date): set<int> {
    set i | 0 <= i < |bs| && bs[i].at.date == today && bs[i].status == Confirmed
  }

  /** The first k rows of WHERE p ORDER BY booking_datetime DESC: drawn from the matching rows,
      latest first, and no matching row left out is later than a row kept. */
  lemma LatestPrefix(rows: seq<ClientRow>, p: ClientRow -> bool, k: nat)
    requires k <= |Filter(rows, p)|
    ensures var r := Select(rows, p, AtDesc)[..k];
            multiset(r) <= multiset(Filter(rows, p)) && (forall row :: row in r ==> row in Filter(rows, p))
    ensures var r := Select(rows, p, AtDesc)[..k];
            forall x, y :: x in multiset(Filter(rows, p)) - multiset(r) && y in r ==> !Before(y.booking.at, x.booking.at)
    ensures NewestFirst(Select(rows, p, AtDesc)[..k])
  {
    var all := Select(rows, p, AtDesc);
    assert |all| == |multiset(all)| == |multiset(Filter(rows, p))| == |Filter(rows, p)|;
    PrefixKept(all, Filter(rows, p), k);
    SortedPrefixLatest(all, k);
  }

  /** In rows sorted latest first, no row past the first k is later than a row among them, and
      the first k stay latest first. */
  lemma SortedPrefixLatest(all: seq<ClientRow>, k: nat)
    requires SortedBy(all, AtDesc) && k <= |all|
    ensures forall x, y :: x in all[k..] && y in all[..k] ==> !Before(y.booking.at, x.booking.at)
    ensures NewestFirst(all[..k])
  {
    forall x, y | x in all[k..] && y in all[..k] ensures !Before(y.booking.at, x.booking.at) {
      var m :| 0 <= m < |all| - k && all[k..][m] == x;
      var j :| 0 <= j < k && all[..k][j] == y;
      assert AtDesc(all[j]) <= AtDesc(all[k + m]);
      AtKeyOrder(y.booking.at, x.booking.at);
    }
    var r := all[..k];
    forall i, j | 0 <= i < j < |r| ensures !Before(r[i].booking.at, r[j].booking.at) {
      assert AtDesc(all[i]) <= AtDesc(all[j]);
      AtKeyOrder(r[i].booking.at, r[j].booking.at);
    }
  }

  /** COUNT(*) WHERE DATE(booking_datetime) = today AND status = 'confirmed' counts the rows
      that are both dated today and confirmed. */
  lemma {:induction false} TodayConfirmedIndices(bs: seq<Booking>, today: Date)
    ensures CountStatus(Filter(bs, (b: Booking) => b.at.date == today), Confirmed) == |TodayConfirmedRows(bs, today)|
  {
    if bs != [] {
      var p, b := bs[..|bs| - 1], bs[|bs| - 1];
      assert bs == p + [b];
      TodayConfirmedIndices(p, today);
      TodayCountSnoc(p, b, today);
      TodayIndicesSnoc(p, b, today);
    }
  }

  lemma TodayCountSnoc(p: seq<Booking>, b: Booking, today: Date)
    ensures CountStatus(Filter(p + [b], (b: Booking) => b.at.date == today), Confirmed)
         == CountStatus(Filter(p, (b: Booking) => b.at.date == today), Confirmed)
            + (if b.at.date == today && b.status == Confirmed then 1 else 0)
  {
    var bs := p + [b];
    assert bs[..|bs| - 1] == p && bs[|bs| - 1] == b;
    var f := Filter(p, (b: Booking) => b.at.date == today);
    if b.at.date == today {
      assert Filter(bs, (b: Booking) => b.at.date == today) == f + [b];
      CountStatusSnoc(f, b, Confirmed);
    } else {
      assert Filter(bs, (b: Booking) => b.at.date == today) == f;
    }
  }

  lemma TodayIndicesSnoc(p: seq<Booking>, b: Booking, today: Date)
    ensures |TodayConfirmedRows(p + [b], today)|
         == |TodayConfirmedRows(p, today)| + (if b.at.date == today && b.status == Confirmed then 1 else 0)
  {
    var bs := p + [b];
    var sb, sp := TodayConfirmedRows(bs, today), TodayConfirmedRows(p, today);
    var hit := b.at.date == today && b.status == Confirmed;
    forall i ensures i in sb <==> i in sp || (i == |p| && hit) {
      if 0 <= i < |p| {
        assert bs[i] == p[i];
      }
    }
    if hit {
      assert sb == sp + {|p|};
    } else {
      assert sb == sp;
    }
  }

  /** Today's confirmed bookings are among all confirmed bookings. */
  lemma {:induction false} TodayConfirmedBound(bs: seq<Booking>, today: Date)
    ensures CountStatus(Filter(bs, (b: Booking) => b.at.date == today), Confirmed) <= CountStatus(bs, Confirmed)
  {
    if bs != [] {
      var p := bs[..|bs| - 1];
      TodayConfirmedBound(p, today);
      var f := Filter(p, (b: Booking) => b.at.date == today);
      var b := bs[|bs| - 1];
      if b.at.date == today {
        assert Filter(bs, (b: Booking) => b.at.date == today) == f + [b];
        assert (f + [b])[..|f|] == f;
      } else {
        assert Filter(bs, (b: Booking) => b.at.date == today) == f;
      }
    }
  }
}
