/** The calendar screen (src/pages/Tab2.tsx): date keys, the relative time
    label of a reminder, tasks grouped by day, the month grid, month
    navigation, the upcoming-reminders list and the selected day's list. */
module Agenda {
  import opened Optional
  import opened Decimal
  import opened Tasks
  import opened Seqs
  import opened Calendar

  // ---------------------------------------------------------------------------
  // Date keys

  /** `toDateKey`: the year, then the month (1 to 12) and the day each padded
      to two digits, separated by `-`. */
  function ToDateKey(d: CivilDate): string {
    IntToString(d.year) + "-" + PadStart2(NatToString(d.month0 + 1)) + "-" + PadStart2(NatToString(d.day))
  }

  /** Reads a date key back: the year is everything before the last six
      characters `-MM-DD`. */
  function ParseDateKey(k: string): Option<CivilDate> {
    if |k| < 7 || k[|k| - 6] != '-' || k[|k| - 3] != '-' then None
    else
      match (ParseInt(k[..|k| - 6]), ParseNat(k[|k| - 5..|k| - 3]), ParseNat(k[|k| - 2..]))
      case (Some(y), Some(m), Some(d)) =>
        if 1 <= m <= 12 && 1 <= d <= 31 then Some(CivilDate(y, m - 1, d)) else None
      case _ => None
  }

  lemma DateKeyRoundTrip(d: CivilDate)
    ensures ParseDateKey(ToDateKey(d)) == Some(d)
  {
    var y, mm, dd := IntToString(d.year), PadStart2(NatToString(d.month0 + 1)), PadStart2(NatToString(d.day));
    ParsePadded(d.month0 + 1);
    ParsePadded(d.day);
    ParseIntToString(d.year);
    ParseParts(y, mm, dd, d.year, d.month0 + 1, d.day);
  }

  /** A key assembled from parts that read back as a year, a month and a
      day reads back as that day. */
  lemma ParseParts(y: string, mm: string, dd: string, year: int, month: int, day: int)
    requires |mm| == 2 && |dd| == 2
    requires ParseInt(y) == Some(year) && ParseNat(mm) == Some(month) && ParseNat(dd) == Some(day)
    requires 1 <= month <= 12 && 1 <= day <= 31
    ensures ParseDateKey(y + "-" + mm + "-" + dd) == Some(CivilDate(year, month - 1, day))
  {
    KeyParts(y, mm, dd);
  }

  /** Where the parts of a date key sit: the year before the last six
      characters, then `-MM-DD`. */
  lemma KeyParts(y: string, mm: string, dd: string)
    requires |mm| == 2 && |dd| == 2
    ensures var k := y + "-" + mm + "-" + dd;
      && |k| == |y| + 6 && k[|k| - 6] == '-' && k[|k| - 3] == '-'
      && k[..|k| - 6] == y && k[|k| - 5..|k| - 3] == mm && k[|k| - 2..] == dd
  {
    var k := y + "-" + mm + "-" + dd;
    assert k[..|y|] == y;
    assert k[|y| + 1..|y| + 3] == mm;
    assert k[|y| + 4..] == dd;
  }

  /** Distinct calendar days have distinct keys. */
  lemma DateKeyInjective(a: CivilDate, b: CivilDate)
    ensures ToDateKey(a) == ToDateKey(b) ==> a == b
  {
    DateKeyRoundTrip(a);
    DateKeyRoundTrip(b);
  }

  /** For a four-digit year the key is an RFC 3339 `full-date`
      (section 5.6): `date-fullyear "-" date-month "-" date-mday`, that is
      four digits, a hyphen, two digits, a hyphen, two digits. */
  lemma DateKeyIsFullDate(d: CivilDate)
    requires 1000 <= d.year <= 9999
    ensures var k := ToDateKey(d);
      |k| == 10 && k[4] == '-' && k[7] == '-'
      && forall i :: 0 <= i < 10 && i != 4 && i != 7 ==> IsDigit(k[i])
  {
    var y := IntToString(d.year);
    YearHasFourDigits(d.year);
    ParsePadded(d.month0 + 1);
    ParsePadded(d.day);
    var mm, dd := PadStart2(NatToString(d.month0 + 1)), PadStart2(NatToString(d.day));
    assert forall i :: 0 <= i < 2 ==> IsDigit(mm[i]) && IsDigit(dd[i]);
  }

  lemma YearHasFourDigits(y: int)
    requires 1000 <= y <= 9999
    ensures |IntToString(y)| == 4
  {
    assert NatToString(y) == NatToString(y / 10) + [DigitChar(y % 10)];
    assert NatToString(y / 10) == NatToString(y / 100) + [DigitChar(y / 10 % 10)];
  }

  /** `dateKeyFromISO`: the key of the day of a timestamp, and no key when
      the timestamp is absent. */
  function DateKeyFromISO(iso: Option<Instant>, dayOf: Instant -> CivilDate): (r: Option<string>)
    ensures r.None? <==> iso.None?
    ensures r.Some? ==> ParseDateKey(r.value) == Some(dayOf(iso.value))
  {
    match iso
    case None => None
    case Some(i) => DateKeyRoundTrip(dayOf(i)); Some(ToDateKey(dayOf(i)))
  }

  // ---------------------------------------------------------------------------
  // Relative time label

  datatype Elapsed = Elapsed(amount: int, unit: char)

  /** Milliseconds in one of the label's units. */
  function UnitMs(unit: char): int {
    if unit == 's' then 1000 else if unit == 'm' then 60000 else if unit == 'h' then 3600000 else 86400000
  }

  /** The number and unit of `timeDiffString`: whole seconds, then minutes,
      hours and days, each by floor division of the previous one. */
  function TimeDiff(ms: int): Elapsed {
    var s := ms / 1000;
    if s < 60 then Elapsed(s, 's')
    else
      var m := s / 60;
      if m < 60 then Elapsed(m, 'm')
      else
        var h := m / 60;
        if h < 24 then Elapsed(h, 'h') else Elapsed(h / 24, 'd')
  }

  /** `timeDiffString`: the number followed by its unit letter. */
  function TimeDiffString(ms: int): (r: string)
    ensures |r| >= 2 && r[|r| - 1] == TimeDiff(ms).unit
    ensures ParseInt(r[..|r| - 1]) == Some(TimeDiff(ms).amount)
  {
    var e := TimeDiff(ms);
    var r := IntToString(e.amount) + [e.unit];
    ParseIntToString(e.amount);
    assert r[..|r| - 1] == IntToString(e.amount);
    r
  }

  /** The unit is chosen by the size of the interval, and the number is the
      interval divided by that unit, rounded down: repeated floor divisions
      by 1000, 60, 60 and 24 agree with one floor division by their product. */
  lemma TimeDiffMeaning(ms: int)
    ensures var e := TimeDiff(ms);
      && (e.unit == 's' <==> ms < 60000)
      && (e.unit == 'm' <==> 60000 <= ms < 3600000)
      && (e.unit == 'h' <==> 3600000 <= ms < 86400000)
      && (e.unit == 'd' <==> 86400000 <= ms)
      && e.amount == ms / UnitMs(e.unit)
      && (e.unit != 's' ==> e.amount >= 1)
  {
    var s := ms / 1000;
    var m := s / 60;
    var h := m / 60;
    assert ms == 1000 * s + ms % 1000;
    assert s == 60 * m + s % 60;
    assert m == 60 * h + m % 60;
    assert h == 24 * (h / 24) + h % 24;
    assert ms == 60000 * m + (1000 * (s % 60) + ms % 1000);
    assert ms / 60000 == m;
    assert ms == 3600000 * h + (60000 * (m % 60) + 1000 * (s % 60) + ms % 1000);
    assert ms / 3600000 == h;
    assert ms == 86400000 * (h / 24) + (3600000 * (h % 24) + 60000 * (m % 60) + 1000 * (s % 60) + ms % 1000);
    assert ms / 86400000 == h / 24;
  }

  // ---------------------------------------------------------------------------
  // Tasks by day

  /** The day a task is filed under: its due day, else its creation day. */
  function BucketKey(t: Task, dayOf: Instant -> CivilDate): string {
    DateKeyFromISO(t.due, dayOf).GetOr(ToDateKey(dayOf(t.createdAt)))
  }

  /** The tasks filed under day `k`, in list order. */
  function Bucket(tasks: seq<Task>, k: string, dayOf: Instant -> CivilDate): seq<Task> {
    Group(tasks, k, t => BucketKey(t, dayOf))
  }

  /** The elements of `tasks` whose key is `k`, in list order. */
  function Group(tasks: seq<Task>, k: string, key: Task -> string): seq<Task> {
    Filter(tasks, t => key(t) == k)
  }

  lemma GroupAppend(s: seq<Task>, t: Task, key: Task -> string)
    ensures forall k :: Group(s + [t], k, key) == Group(s, k, key) + (if key(t) == k then [t] else [])
  {
    forall k ensures Group(s + [t], k, key) == Group(s, k, key) + (if key(t) == k then [t] else []) {
      FilterAppend(s, t, u => key(u) == k);
    }
  }

  /** `tasksByDate`: one entry per day that has tasks, holding those tasks in
      list order. */
  method TasksByDate(tasks: seq<Task>, dayOf: Instant -> CivilDate) returns (m: map<string, seq<Task>>)
    ensures forall k :: k in m <==> Bucket(tasks, k, dayOf) != []
    ensures forall k :: k in m ==> m[k] == Bucket(tasks, k, dayOf)
  {
    var key: Task -> string := t => BucketKey(t, dayOf);
    m := map[];
    for i := 0 to |tasks|
      invariant Groups(m, tasks[..i], key)
    {
      var t := tasks[i];
      var k := key(t);
      GroupsPush(m, tasks, i, key);
      m := m[k := (if k in m then m[k] else []) + [t]];
    }
    GroupsAreBuckets(m, tasks, dayOf);
  }

  lemma GroupsAreBuckets(m: map<string, seq<Task>>, tasks: seq<Task>, dayOf: Instant -> CivilDate)
    requires Groups(m, tasks[..|tasks|], t => BucketKey(t, dayOf))
    ensures forall k :: k in m <==> Bucket(tasks, k, dayOf) != []
    ensures forall k :: k in m ==> m[k] == Bucket(tasks, k, dayOf)
  {
    assert tasks[..|tasks|] == tasks;
  }

  /** `m` holds the non-empty groups of `s` and nothing else. */
  ghost predicate Groups(m: map<string, seq<Task>>, s: seq<Task>, key: Task -> string) {
    && (forall k :: k in m <==> Group(s, k, key) != [])
    && (forall k :: k in m ==> m[k] == Group(s, k, key))
  }

  /** One step of `tasksByDate`: pushing `t` onto its own day's entry. */
  lemma GroupsPush(m: map<string, seq<Task>>, tasks: seq<Task>, i: nat, key: Task -> string)
    requires i < |tasks|
    requires Groups(m, tasks[..i], key)
    ensures var t := tasks[i];
      Groups(m[key(t) := (if key(t) in m then m[key(t)] else []) + [t]], tasks[..i + 1], key)
  {
    assert tasks[..i + 1] == tasks[..i] + [tasks[i]];
    GroupAppend(tasks[..i], tasks[i], key);
  }

  /** A day has an entry exactly when some task is filed under it. */
  lemma BucketNonEmpty(tasks: seq<Task>, k: string, dayOf: Instant -> CivilDate)
    ensures Bucket(tasks, k, dayOf) != [] <==> exists t :: t in tasks && BucketKey(t, dayOf) == k
  {
    if Bucket(tasks, k, dayOf) != [] {
      assert Bucket(tasks, k, dayOf)[0] in Bucket(tasks, k, dayOf);
    }
  }

  /** Every task is filed under exactly one day: the bucket of its own key
      holds it, and no other bucket does. */
  lemma BucketsPartition(tasks: seq<Task>, dayOf: Instant -> CivilDate, t: Task, k: string)
    requires t in tasks
    ensures t in Bucket(tasks, k, dayOf) <==> k == BucketKey(t, dayOf)
  {
  }

  /** The buckets together hold each task as often as the list does. */
  lemma BucketCounts(tasks: seq<Task>, dayOf: Instant -> CivilDate, t: Task)
    ensures multiset(Bucket(tasks, BucketKey(t, dayOf), dayOf))[t] == multiset(tasks)[t]
  {
    GroupCounts(tasks, t => BucketKey(t, dayOf), t);
  }

  lemma GroupCounts(tasks: seq<Task>, key: Task -> string, t: Task)
    ensures multiset(Group(tasks, key(t), key))[t] == multiset(tasks)[t]
  {
    var p := u => key(u) == key(t);
    var q := u => key(u) != key(t);
    FilterPartition(tasks, p, q);
    assert t !in Filter(tasks, q);
  }

  // ---------------------------------------------------------------------------
  // Month grid

  /** The day shown at row `r`, column `c` of the 6 x 7 grid of a month
      starting on weekday `startDay` (0 for Sunday) with `daysInMonth` days. */
  function MonthCell(r: int, c: int, startDay: int, daysInMonth: int): Option<int> {
    var day := 7 * r + c + 1 - startDay;
    if day < 1 || day > daysInMonth then None else Some(day)
  }

  /** `monthMatrix`: six rows of seven cells, counting `cur` up from
      `1 - startDay` in reading order. */
  method MonthMatrix(startDay: int, daysInMonth: int) returns (rows: seq<seq<Option<int>>>)
    ensures |rows| == 6
    ensures forall r :: 0 <= r < 6 ==> |rows[r]| == 7
    ensures forall r, c :: 0 <= r < 6 && 0 <= c < 7 ==> rows[r][c] == MonthCell(r, c, startDay, daysInMonth)
  {
    rows := [];
    var cur := 1 - startDay;
    for r := 0 to 6
      invariant |rows| == r
      invariant cur == 7 * r + 1 - startDay
      invariant forall i :: 0 <= i < r ==> |rows[i]| == 7
      invariant forall i, c :: 0 <= i < r && 0 <= c < 7 ==> rows[i][c] == MonthCell(i, c, startDay, daysInMonth)
    {
      var row: seq<Option<int>> := [];
      for c := 0 to 7
        invariant |row| == c
        invariant cur == 7 * r + c + 1 - startDay
        invariant forall j :: 0 <= j < c ==> row[j] == MonthCell(r, j, startDay, daysInMonth)
      {
        if cur < 1 || cur > daysInMonth {
          row := row + [None];
        } else {
          row := row + [Some(cur)];
        }
        cur := cur + 1;
      }
      rows := rows + [row];
    }
  }

  /** In a real month (starting on a weekday 0 to 6, at most 31 days), every
      day of the month is shown in exactly one cell. */
  lemma MonthCellsCoverEachDayOnce(startDay: int, daysInMonth: int, day: int)
    requires 0 <= startDay <= 6 && daysInMonth <= 31
    requires 1 <= day <= daysInMonth
    ensures var i := day - 1 + startDay;
      0 <= i < 42 && MonthCell(i / 7, i % 7, startDay, daysInMonth) == Some(day)
    ensures forall r, c :: (0 <= r < 6 && 0 <= c < 7 && MonthCell(r, c, startDay, daysInMonth) == Some(day)
      ==> r == (day - 1 + startDay) / 7 && c == (day - 1 + startDay) % 7)
  {
    forall r, c | 0 <= r < 6 && 0 <= c < 7 && MonthCell(r, c, startDay, daysInMonth) == Some(day)
      ensures r == (day - 1 + startDay) / 7 && c == (day - 1 + startDay) % 7
    {
      assert 7 * r + c == day - 1 + startDay;
    }
  }

  /** Days increase in reading order, and every non-empty cell holds a day of
      the month. */
  lemma MonthCellsIncrease(startDay: int, daysInMonth: int, r1: int, c1: int, r2: int, c2: int)
    requires 0 <= c1 < 7 && 0 <= c2 < 7
    requires 7 * r1 + c1 < 7 * r2 + c2
    requires MonthCell(r1, c1, startDay, daysInMonth).Some? && MonthCell(r2, c2, startDay, daysInMonth).Some?
    ensures MonthCell(r1, c1, startDay, daysInMonth).value < MonthCell(r2, c2, startDay, daysInMonth).value
    ensures 1 <= MonthCell(r1, c1, startDay, daysInMonth).value <= daysInMonth
  {
  }

  // ---------------------------------------------------------------------------
  // Month navigation

  /** `nextMonth`: `new Date(year, month + 1, 1)`, which rolls December over
      into January of the next year. */
  function NextMonth(ym: YearMonth): (r: YearMonth)
    ensures MonthIndex(r) == MonthIndex(ym) + 1
  {
    if ym.month0 == 11 then YearMonth(ym.year + 1, 0) else YearMonth(ym.year, ym.month0 + 1)
  }

  /** `prevMonth`: `new Date(year, month - 1, 1)`, which rolls January back
      into December of the previous year. */
  function PrevMonth(ym: YearMonth): (r: YearMonth)
    ensures MonthIndex(r) == MonthIndex(ym) - 1
  {
    if ym.month0 == 0 then YearMonth(ym.year - 1, 11) else YearMonth(ym.year, ym.month0 - 1)
  }

  /** A month is determined by its index. */
  lemma MonthIndexInjective(a: YearMonth, b: YearMonth)
    ensures MonthIndex(a) == MonthIndex(b) ==> a == b
  {
  }

  /** Going forward then back, or back then forward, returns to the same month. */
  lemma PrevNextInverse(ym: YearMonth)
    ensures PrevMonth(NextMonth(ym)) == ym
    ensures NextMonth(PrevMonth(ym)) == ym
  {
    MonthIndexInjective(PrevMonth(NextMonth(ym)), ym);
    MonthIndexInjective(NextMonth(PrevMonth(ym)), ym);
  }

  // ---------------------------------------------------------------------------
  // Upcoming reminders

  const WindowMs: int := 48 * 60 * 60 * 1000

  /** Not completed, with a due time in `[now, now + 48h]`. */
  predicate InUpcomingWindow(t: Task, now: Instant) {
    t.due.Some? && !t.completed && now <= t.due.value <= now + WindowMs
  }

  /** The order of the upcoming list: by due time. */
  function DueKey(t: Task): Key {
    Key(t.due.GetOr(0), 0, 0)
  }

  /** The upcoming list's comparator, `due(a) - due(b)`. */
  function CompareByDue(a: Task, b: Task): int
    requires a.due.Some? && b.due.Some?
  {
    a.due.value - b.due.value
  }

  lemma CompareByDueFollowsKey(a: Task, b: Task)
    requires a.due.Some? && b.due.Some?
    ensures CompareByDue(a, b) <= 0 <==> KeyLeq(DueKey(a), DueKey(b))
    ensures CompareByDue(a, b) == 0 <==> DueKey(a) == DueKey(b)
  {
  }

  /** `upcoming`: the tasks in the window, earliest due first. */
  function Upcoming(tasks: seq<Task>, now: Instant): seq<Task> {
    SortBy(Filter(tasks, t => InUpcomingWindow(t, now)), DueKey)
  }

  /** The upcoming list holds exactly the list's tasks in the window, each as
      often as the list does, ordered by due time. */
  lemma UpcomingMeaning(tasks: seq<Task>, now: Instant)
    ensures var u := Upcoming(tasks, now);
      && multiset(u) == multiset(Filter(tasks, t => InUpcomingWindow(t, now)))
      && (forall t :: t in u <==> t in tasks && InUpcomingWindow(t, now))
      && DueAscending(u)
  {
    var f := Filter(tasks, t => InUpcomingWindow(t, now));
    SortBySorted(f, DueKey);
    SortByMembers(f, DueKey);
    SortedByDueAscending(Upcoming(tasks, now));
  }

  lemma SortedByDueAscending(u: seq<Task>)
    requires SortedBy(u, DueKey)
    requires forall t :: t in u ==> t.due.Some?
    ensures DueAscending(u)
  {
    forall a, b | 0 <= a < b < |u|
      ensures u[a].due.Some? && u[b].due.Some? && u[a].due.value <= u[b].due.value
    {
      assert u[a] in u && u[b] in u;
      assert KeyLeq(DueKey(u[a]), DueKey(u[b]));
    }
  }

  /** Every task has a due time, and due times never decrease. */
  ghost predicate DueAscending(s: seq<Task>) {
    forall i, j :: 0 <= i < j < |s| ==> s[i].due.Some? && s[j].due.Some? && s[i].due.value <= s[j].due.value
  }

  // ---------------------------------------------------------------------------
  // The selected day's list

  datatype DayFilter = AllOfDay | PendingOfDay | CompletedOfDay

  /** `tasksForSelected`: nothing without a selected day; otherwise that day's
      bucket, whole or restricted to pending or to completed tasks. */
  function TasksForSelected(selected: Option<string>, byDate: map<string, seq<Task>>, filter: DayFilter): seq<Task> {
    if selected.None? || selected.value == "" then []
    else
      var list := if selected.value in byDate then byDate[selected.value] else [];
      match filter
      case PendingOfDay => Filter(list, IsPending)
      case CompletedOfDay => Filter(list, IsCompleted)
      case AllOfDay => list
  }

  /** The pending and completed views of a day partition its whole view. */
  lemma SelectedViewsPartition(selected: Option<string>, byDate: map<string, seq<Task>>)
    ensures var all := TasksForSelected(selected, byDate, AllOfDay);
      && multiset(TasksForSelected(selected, byDate, PendingOfDay))
         + multiset(TasksForSelected(selected, byDate, CompletedOfDay)) == multiset(all)
      && (forall t :: t in TasksForSelected(selected, byDate, PendingOfDay) <==> t in all && !t.completed)
      && (forall t :: t in TasksForSelected(selected, byDate, CompletedOfDay) <==> t in all && t.completed)
    ensures selected.None? ==> TasksForSelected(selected, byDate, AllOfDay) == []
    ensures selected.Some? && selected.value != "" && selected.value in byDate ==>
      TasksForSelected(selected, byDate, AllOfDay) == byDate[selected.value]
    ensures selected.None? || selected.value == "" || selected.value !in byDate ==>
      TasksForSelected(selected, byDate, AllOfDay) == []
  {
    var all := TasksForSelected(selected, byDate, AllOfDay);
    assert TasksForSelected(selected, byDate, PendingOfDay) == Filter(all, IsPending);
    assert TasksForSelected(selected, byDate, CompletedOfDay) == Filter(all, IsCompleted);
    FilterPartition(all, IsPending, IsCompleted);
  }
}
