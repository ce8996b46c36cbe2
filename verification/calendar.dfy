/** The bookings calendar: a month shown as six weeks of seven day cells,
    bookings fetched for the month and grouped by their date string, each
    cell showing the bookings keyed by its own date, and Prev/Next buttons
    moving a cursor (the 1st of the shown month) by one month.

    A cell's key is the `YYYY-MM-DD` form of its local calendar date. The
    page as written derives it through UTC instead; `UtcKeyAsWritten` below
    models that and shows where it goes wrong. */
module BookingsCalendar {
  import opened Wrappers
  import opened Gregorian
  import opened IsoDate

  // ---------------------------------------------------------------------
  // The month grid

  datatype Cell = Cell(date: Date, inMonth: bool, ymd: Option<string>)

  /** Weekday of the 1st of the month (Sunday = 0): how many cells of the
      previous month open the first week. */
  function StartDay(year: int, month: int): (r: int)
    ensures 0 <= r < 7
  {
    Weekday(Normalize(year, month, 1))
  }

  /** The month length as the page reads it: day 0 of the following month,
      which is the Gregorian length of the month. */
  function MonthLength(year: int, month: int): (n: int)
    ensures 0 <= month < 12 ==> n == DaysInMonth(year, month)
  {
    var last := Normalize(year, month + 1, 0);
    assert 0 <= month < 12 ==> last.day == DaysInMonth(year, month) by {
      if 0 <= month < 12 {
        DayZeroIsLastDay(year, month);
      }
    }
    last.day
  }

  /** The cell for day `day` counted from the 1st of the month (so day 0 is
      the last day of the previous month): a real date `day - 1` days after
      the 1st, whose key, when it has one, reads back as that date. */
  function CellOf(year: int, month: int, day: int): (c: Cell)
    ensures Valid(c.date)
    ensures DayNumber(c.date) == DayNumber(Date(year + month / 12, month % 12, 1)) + day - 1
    ensures c.ymd.Some? <==> 0 <= c.date.year <= 9999
    ensures c.ymd.Some? ==> ParseIso(c.ymd.value) == Some(c.date)
  {
    var date := Normalize(year, month, day);
    var key := IsoKey(date);
    assert key.Some? ==> ParseIso(key.value) == Some(date) by {
      if key.Some? {
        IsoRoundTrip(date);
      }
    }
    Cell(date, date.month == month, key)
  }

  /** The cell k places after the top-left one (k = 7 * week + column). */
  function CellAt(year: int, month: int, k: int): (c: Cell)
    ensures Valid(c.date)
  {
    CellOf(year, month, 1 - StartDay(year, month) + k)
  }

  /** The 42 cells in reading order: consecutive days, the first being
      `StartDay` days before the 1st of the month. */
  function Grid(year: int, month: int): (g: seq<Cell>)
    ensures |g| == 42
    ensures forall k :: 0 <= k < 42 ==> g[k] == CellAt(year, month, k)
    ensures 0 <= month < 12 ==> forall k :: 0 <= k < 42 ==>
      Valid(g[k].date) && DayNumber(g[k].date) == DayNumber(Date(year, month, 1)) - StartDay(year, month) + k
  {
    CellDayNumbers(year, month);
    seq(42, k => CellAt(year, month, k))
  }

  lemma CellDayNumbers(year: int, month: int)
    ensures 0 <= month < 12 ==> forall k :: 0 <= k < 42 ==>
      DayNumber(CellAt(year, month, k).date) == DayNumber(Date(year, month, 1)) - StartDay(year, month) + k
  {
    if 0 <= month < 12 {
      forall k | 0 <= k < 42
        ensures DayNumber(CellAt(year, month, k).date) == DayNumber(Date(year, month, 1)) - StartDay(year, month) + k
      {
        CellDayNumber(year, month, k);
      }
    }
  }

  function Flatten(weeks: seq<seq<Cell>>): seq<Cell> {
    if |weeks| == 0 then [] else Flatten(weeks[..|weeks| - 1]) + weeks[|weeks| - 1]
  }

  /** One row of the grid: seven cells for consecutive days from `day`. */
  method Week(year: int, month: int, day: int) returns (week: seq<Cell>)
    ensures |week| == 7
    ensures forall j :: 0 <= j < 7 ==> week[j] == CellOf(year, month, day + j)
  {
    week := [];
    var d := 0;
    while d < 7
      invariant 0 <= d <= 7 && |week| == d
      invariant forall j :: 0 <= j < d ==> week[j] == CellOf(year, month, day + j)
    {
      var date := Normalize(year, month, day + d);
      week := week + [Cell(date, date.month == month, IsoKey(date))];
      d := d + 1;
    }
  }

  /** `getMonthMatrix`: six weeks of seven cells, walking one day at a time
      from the Sunday on or before the 1st, so that cell (w, d) is the one
      7 * w + d places into the grid. */
  method MonthMatrix(year: int, month: int) returns (weeks: seq<seq<Cell>>)
    ensures |weeks| == 6
    ensures forall w :: 0 <= w < 6 ==> |weeks[w]| == 7
    ensures forall w, d :: 0 <= w < 6 && 0 <= d < 7 ==> weeks[w][d] == CellAt(year, month, 7 * w + d)
  {
    var startDay := StartDay(year, month);
    var day := 1 - startDay;
    weeks := [];
    var w := 0;
    while w < 6
      invariant 0 <= w <= 6 && |weeks| == w
      invariant day == 1 - startDay + 7 * w
      invariant forall i :: 0 <= i < w ==> |weeks[i]| == 7
      invariant forall i, d :: 0 <= i < w && 0 <= d < 7 ==> weeks[i][d] == CellAt(year, month, 7 * i + d)
    {
      var week := Week(year, month, day);
      AppendWeek(year, month, weeks, week);
      weeks := weeks + [week];
      day := day + 7;
      w := w + 1;
    }
  }

  /** The loop step of `MonthMatrix`: the week starting at grid position
      7 * |weeks| extends a correct prefix of rows to a longer one. */
  lemma AppendWeek(year: int, month: int, weeks: seq<seq<Cell>>, week: seq<Cell>)
    requires forall i :: 0 <= i < |weeks| ==> |weeks[i]| == 7
    requires forall i, d :: 0 <= i < |weeks| && 0 <= d < 7 ==> weeks[i][d] == CellAt(year, month, 7 * i + d)
    requires |week| == 7
    requires forall j :: 0 <= j < 7 ==> week[j] == CellOf(year, month, 1 - StartDay(year, month) + 7 * |weeks| + j)
    ensures forall i, d :: 0 <= i <= |weeks| && 0 <= d < 7 ==>
      (weeks + [week])[i][d] == CellAt(year, month, 7 * i + d)
  {
    var all := weeks + [week];
    forall i, d | 0 <= i <= |weeks| && 0 <= d < 7
      ensures all[i][d] == CellAt(year, month, 7 * i + d)
    {
      if i < |weeks| {
        assert all[i] == weeks[i];
      } else {
        assert all[i] == week;
      }
    }
  }

  /** Read row by row, the six weeks are the 42 cells of `Grid`. */
  lemma {:induction false} FlattenRows(year: int, month: int, weeks: seq<seq<Cell>>)
    requires |weeks| <= 6
    requires forall w :: 0 <= w < |weeks| ==> |weeks[w]| == 7
    requires forall w, d :: 0 <= w < |weeks| && 0 <= d < 7 ==> weeks[w][d] == CellAt(year, month, 7 * w + d)
    ensures Flatten(weeks) == Grid(year, month)[..7 * |weeks|]
    decreases |weeks|
  {
    if |weeks| > 0 {
      var n := |weeks| - 1;
      var g := Grid(year, month);
      FlattenRows(year, month, weeks[..n]);
      assert weeks[..n] + [weeks[n]] == weeks;
      assert weeks[n] == g[7 * n..7 * n + 7];
      assert g[..7 * n + 7] == g[..7 * n] + g[7 * n..7 * n + 7];
    }
  }

  /** Cell k is the day k - StartDay after the 1st of the month. */
  lemma CellDayNumber(year: int, month: int, k: int)
    requires 0 <= month < 12
    ensures DayNumber(CellAt(year, month, k).date) == DayNumber(Date(year, month, 1)) - StartDay(year, month) + k
  {
    assert month / 12 == 0 && month % 12 == month;
  }

  /** The cells are consecutive days: each is the day after the one before. */
  lemma GridConsecutive(year: int, month: int, k: int)
    requires 0 <= month < 12
    ensures DayNumber(CellAt(year, month, k + 1).date) == DayNumber(CellAt(year, month, k).date) + 1
  {
    CellDayNumber(year, month, k);
    CellDayNumber(year, month, k + 1);
  }

  /** Different cells show different days. */
  lemma GridDistinct(year: int, month: int, j: int, k: int)
    requires 0 <= month < 12 && j != k
    ensures CellAt(year, month, j).date != CellAt(year, month, k).date
  {
    CellDayNumber(year, month, j);
    CellDayNumber(year, month, k);
  }

  /** The 1st of the month sits in week 0, in the column of its weekday. */
  lemma FirstOfMonthPlacement(year: int, month: int)
    requires 0 <= month < 12
    ensures StartDay(year, month) < 7
    ensures CellAt(year, month, StartDay(year, month)).date == Date(year, month, 1)
    ensures StartDay(year, month) == Weekday(Date(year, month, 1))
  {
    NormalizeValid(Date(year, month, 1));
  }

  /** Every column holds one weekday: column d is Sunday + d. */
  lemma ColumnIsWeekday(year: int, month: int, w: int, d: int)
    requires 0 <= month < 12 && 0 <= d < 7
    ensures Weekday(CellAt(year, month, 7 * w + d).date) == d
  {
    var x := DayNumber(Date(year, month, 1)) + 6;
    var c := CellAt(year, month, 7 * w + d).date;
    assert DayNumber(c) + 6 == x - x % 7 + 7 * w + d by {
      FirstOfMonthPlacement(year, month);
      CellDayNumber(year, month, 7 * w + d);
    }
    ModStep(x, w, d);
  }

  lemma ModStep(x: int, w: int, d: int)
    requires 0 <= d < 7
    ensures (x - x % 7 + 7 * w + d) % 7 == d
  {
    assert x - x % 7 + 7 * w + d == 7 * (x / 7 + w) + d;
  }

  /** A cell is in the month iff it lies in the month's run of days, and then
      it is day k - StartDay + 1 of the month; the run always fits in the grid. */
  lemma InMonthIff(year: int, month: int, k: int)
    requires 0 <= month < 12 && 0 <= k < 42
    ensures var s, n := StartDay(year, month), DaysInMonth(year, month);
      && s + n <= 42
      && (CellAt(year, month, k).inMonth <==> s <= k < s + n)
      && (s <= k < s + n ==> CellAt(year, month, k).date == Date(year, month, k - s + 1))
  {
    var s, n := StartDay(year, month), DaysInMonth(year, month);
    var d := 1 - s + k;
    if d < 1 {
      NormalizeIntoPrevMonth(year, month, d);
    } else if d > n {
      NormalizeIntoNextMonth(year, month, d);
    } else {
      NormalizeWithinMonth(year, month, d);
    }
  }

  /** How many cells of a row of cells belong to the month. */
  function CountInMonth(cells: seq<Cell>): nat {
    if |cells| == 0 then 0
    else CountInMonth(cells[..|cells| - 1]) + (if cells[|cells| - 1].inMonth then 1 else 0)
  }

  lemma {:induction false} CountPrefix(year: int, month: int, i: nat)
    requires 0 <= month < 12 && i <= 42
    ensures var s, n := StartDay(year, month), DaysInMonth(year, month);
      CountInMonth(Grid(year, month)[..i]) == if i <= s then 0 else if i <= s + n then i - s else n
  {
    if i > 0 {
      var g := Grid(year, month);
      assert g[..i][..i - 1] == g[..i - 1];
      CountPrefix(year, month, i - 1);
      InMonthIff(year, month, i - 1);
    }
  }

  /** Exactly as many cells are in the month as the month has days. */
  lemma InMonthCount(year: int, month: int)
    requires 0 <= month < 12
    ensures CountInMonth(Grid(year, month)) == DaysInMonth(year, month)
  {
    CountPrefix(year, month, 42);
    InMonthIff(year, month, 0);
    assert Grid(year, month)[..42] == Grid(year, month);
  }

  // ---------------------------------------------------------------------
  // Grouping the fetched bookings by date

  /** A booking as the API returns it; `date` is the key it is grouped by. */
  datatype Booking = Booking(name: string, phone: string, email: string, date: string, address: string)

  /** The parsed response body: the bookings array, or anything else. */
  datatype Payload = JsonArray(items: seq<Booking>) | NotAnArray

  /** The bucket for key k: `byDate[k] || []`. */
  function Bucket(byDate: map<string, seq<Booking>>, k: string): seq<Booking> {
    if k in byDate then byDate[k] else []
  }

  /** Reference definition: the bookings dated k, in input order. */
  function OnDate(bs: seq<Booking>, k: string): seq<Booking> {
    if |bs| == 0 then []
    else (if bs[0].date == k then [bs[0]] else []) + OnDate(bs[1..], k)
  }

  /** Appending a booking extends only its own date's list. */
  lemma {:induction false} OnDateAppend(bs: seq<Booking>, b: Booking, k: string)
    ensures OnDate(bs + [b], k) == OnDate(bs, k) + (if b.date == k then [b] else [])
    decreases |bs|
  {
    if |bs| > 0 {
      assert (bs + [b])[1..] == bs[1..] + [b];
      OnDateAppend(bs[1..], b, k);
    }
  }

  /** A booking is listed under k iff it is in the input and dated k. */
  lemma {:induction false} OnDateMembership(bs: seq<Booking>, k: string, b: Booking)
    ensures b in OnDate(bs, k) <==> b in bs && b.date == k
    decreases |bs|
  {
    if |bs| > 0 {
      OnDateMembership(bs[1..], k, b);
      assert b in bs <==> b == bs[0] || b in bs[1..];
    }
  }

  /** The `forEach` that pushes each booking onto the list for its date:
      every bucket holds exactly the bookings of its date, in input order,
      and no bucket is empty. */
  function GroupByDate(bs: seq<Booking>): (byDate: map<string, seq<Booking>>)
    ensures forall k :: Bucket(byDate, k) == OnDate(bs, k)
    ensures forall k :: k in byDate ==> |byDate[k]| > 0
    decreases |bs|
  {
    if |bs| == 0 then map[]
    else
      var init, b := bs[..|bs| - 1], bs[|bs| - 1];
      var m := GroupByDate(init);
      assert bs == init + [b];
      OnDateAppendAll(init, b);
      m[b.date := Bucket(m, b.date) + [b]]
  }

  lemma OnDateAppendAll(bs: seq<Booking>, b: Booking)
    ensures forall k :: OnDate(bs + [b], k) == OnDate(bs, k) + (if b.date == k then [b] else [])
  {
    forall k {
      OnDateAppend(bs, b, k);
    }
  }

  /** The names every plain object inherits from `Object.prototype`. Read
      from the fresh `byDate` object, such a name finds the inherited member,
      so `byDate[k] || []` is not an array and the `push` after it throws. */
  const InheritedNames: set<string> := {
    "constructor", "__proto__", "__defineGetter__", "__defineSetter__",
    "__lookupGetter__", "__lookupSetter__", "hasOwnProperty", "isPrototypeOf",
    "propertyIsEnumerable", "toLocaleString", "toString", "valueOf"}

  /** Some booking's date is an inherited name, so the grouping loop throws. */
  predicate HasInheritedDate(bs: seq<Booking>) {
    exists i :: 0 <= i < |bs| && bs[i].date in InheritedNames
  }

  /** The loader, given the buckets currently shown: a response that is not
      an array gives no buckets; an array is grouped by date, unless the
      grouping throws, in which case the error is swallowed and the buckets
      shown before stay. */
  function Load(previous: map<string, seq<Booking>>, p: Payload): (byDate: map<string, seq<Booking>>)
    ensures p.NotAnArray? ==> byDate == map[]
    ensures p.JsonArray? && HasInheritedDate(p.items) ==> byDate == previous
    ensures p.JsonArray? && !HasInheritedDate(p.items) ==>
      forall k :: Bucket(byDate, k) == OnDate(p.items, k)
  {
    match p
    case JsonArray(items) => if HasInheritedDate(items) then previous else GroupByDate(items)
    case NotAnArray => map[]
  }

  /** One booking dated "constructor" among the month's bookings leaves the
      calendar showing what it showed before the load. */
  lemma InheritedDateExample(previous: map<string, seq<Booking>>)
    ensures var bs := [Booking("A", "1", "", "2024-03-16", ""), Booking("B", "2", "", "constructor", "")];
      Load(previous, JsonArray(bs)) == previous
  {
    var bs := [Booking("A", "1", "", "2024-03-16", ""), Booking("B", "2", "", "constructor", "")];
    assert bs[1].date in InheritedNames;
  }

  /** Every booking is in the bucket of its own date and in no other. */
  lemma ExactlyOneBucket(bs: seq<Booking>, b: Booking, k: string)
    requires b in bs
    ensures b in Bucket(GroupByDate(bs), b.date)
    ensures k != b.date ==> b !in Bucket(GroupByDate(bs), k)
  {
    OnDateMembership(bs, b.date, b);
    OnDateMembership(bs, k, b);
  }

  /** The number of entries held in all buckets together. */
  ghost function TotalSize<K, V>(m: map<K, seq<V>>): nat
    decreases |m|
  {
    if |m| == 0 then 0
    else
      var k :| k in m;
      |m[k]| + TotalSize(m - {k})
  }

  /** Removing a present key shrinks a map by one. */
  lemma RemoveOne<K, V>(m: map<K, seq<V>>, k: K)
    requires k in m
    ensures |m - {k}| == |m| - 1
  {
    assert (m - {k}).Keys == m.Keys - {k};
  }

  /** The bucket `TotalSize` counts first. */
  lemma PickFirst<K, V>(m: map<K, seq<V>>, k: K) returns (k': K)
    requires k in m
    ensures k' in m && TotalSize(m) == |m[k']| + TotalSize(m - {k'})
  {
    assert |m| > 0 by {
      assert k in m.Keys;
    }
    k' :| k' in m && TotalSize(m) == |m[k']| + TotalSize(m - {k'});
  }

  /** Any bucket can be counted first. */
  lemma {:induction false} TotalSizeRemove<K, V>(m: map<K, seq<V>>, k: K)
    requires k in m
    ensures TotalSize(m) == |m[k]| + TotalSize(m - {k})
    decreases |m|
  {
    var k' := PickFirst(m, k);
    if k' != k {
      var rest, rest' := m - {k'}, m - {k};
      assert TotalSize(rest) == |m[k]| + TotalSize(rest - {k}) by {
        RemoveOne(m, k');
        TotalSizeRemove(rest, k);
      }
      assert TotalSize(rest') == |m[k']| + TotalSize(rest' - {k'}) by {
        RemoveOne(m, k);
        TotalSizeRemove(rest', k');
      }
      assert rest - {k} == rest' - {k'};
    }
  }

  /** Replacing (or adding) one bucket changes the total by the difference in
      that bucket's size. */
  lemma TotalSizeUpdate<K, V>(m: map<K, seq<V>>, k: K, v: seq<V>)
    ensures TotalSize(m[k := v]) + (if k in m then |m[k]| else 0) == TotalSize(m) + |v|
  {
    var m' := m[k := v];
    TotalSizeRemove(m', k);
    assert m' - {k} == m - {k};
    if k in m {
      TotalSizeRemove(m, k);
    } else {
      assert m - {k} == m;
    }
  }

  /** The bucket sizes add up to the number of bookings fetched. */
  lemma {:induction false} GroupSizesSum(bs: seq<Booking>)
    ensures TotalSize(GroupByDate(bs)) == |bs|
    decreases |bs|
  {
    if |bs| > 0 {
      var init, b := bs[..|bs| - 1], bs[|bs| - 1];
      var m := GroupByDate(init);
      GroupSizesSum(init);
      assert GroupByDate(bs) == m[b.date := Bucket(m, b.date) + [b]];
      TotalSizeUpdate(m, b.date, Bucket(m, b.date) + [b]);
    }
  }

  // ---------------------------------------------------------------------
  // What a day cell shows

  /** A cell's booking display: the count badge, the bookings listed, and
      the "+N more" line. */
  datatype CellView = CellView(badge: Option<nat>, listed: seq<Booking>, more: Option<nat>)

  /** The badge appears iff there is a booking and shows their number; at
      most the first two are listed; "+N more" accounts for the rest. */
  function DayView(dayBookings: seq<Booking>): (v: CellView)
    ensures v.badge.Some? <==> |dayBookings| >= 1
    ensures v.badge.Some? ==> v.badge.value == |dayBookings|
    ensures |v.listed| == if |dayBookings| < 2 then |dayBookings| else 2
    ensures v.listed == dayBookings[..|v.listed|]
    ensures v.more.Some? <==> |dayBookings| > 2
    ensures v.more.Some? ==> |v.listed| + v.more.value == |dayBookings|
  {
    var n := |dayBookings|;
    CellView(
      if n > 0 then Some(n) else None,
      dayBookings[..if n < 2 then n else 2],
      if n > 2 then Some(n - 2) else None)
  }

  /** The bookings a cell looks up: those stored under its key. */
  function CellBookings(byDate: map<string, seq<Booking>>, c: Cell): (shown: seq<Booking>)
    ensures c.ymd.Some? && c.ymd.value in byDate ==> shown == byDate[c.ymd.value]
    ensures c.ymd.None? || c.ymd.value !in byDate ==> shown == []
  {
    if c.ymd.Some? then Bucket(byDate, c.ymd.value) else []
  }

  /** A grid cell shows, in fetch order, exactly the bookings whose date
      string is the cell's own date. */
  lemma CellShowsItsDay(year: int, month: int, k: int, bs: seq<Booking>, b: Booking)
    requires 0 <= CellAt(year, month, k).date.year <= 9999
    ensures var c := CellAt(year, month, k);
      && CellBookings(GroupByDate(bs), c) == OnDate(bs, IsoKey(c.date).value)
      && (b in CellBookings(GroupByDate(bs), c) <==> b in bs && ParseIso(b.date) == Some(c.date))
  {
    var c := CellAt(year, month, k);
    var key := IsoKey(c.date).value;
    OnDateMembership(bs, key, b);
    IsoRoundTrip(c.date);
    if b.date != key && ParseIso(b.date) == Some(c.date) {
      ParsedKeyIsCanonical(b.date);
    }
  }

  /** A booking falls in at most one cell of the grid. */
  lemma AtMostOneCell(year: int, month: int, j: int, k: int, bs: seq<Booking>, b: Booking)
    requires 0 <= month < 12 && j != k
    requires b in CellBookings(GroupByDate(bs), CellAt(year, month, j))
    ensures b !in CellBookings(GroupByDate(bs), CellAt(year, month, k))
  {
    var cj, ck := CellAt(year, month, j), CellAt(year, month, k);
    GridDistinct(year, month, j, k);
    OnDateMembership(bs, cj.ymd.value, b);
    if ck.ymd.Some? && b in CellBookings(GroupByDate(bs), ck) {
      OnDateMembership(bs, ck.ymd.value, b);
      IsoKeyInjective(cj.date, ck.date);
    }
  }

  // ---------------------------------------------------------------------
  // The cursor, Prev/Next and the fetch range

  /** The cursor on first render: the 1st of today's month. */
  function InitialCursor(today: Date): (c: Date)
    requires Valid(today)
    ensures c == Date(today.year, today.month, 1)
  {
    Normalize(today.year, today.month, 1)
  }

  /** Prev: the 1st of the month before the cursor's. */
  function Prev(c: Date): (r: Date)
    requires 0 <= c.month < 12
    ensures r == PrevMonthStart(c.year, c.month)
    ensures DayNumber(r) + DaysInMonth(r.year, r.month) == DayNumber(Date(c.year, c.month, 1))
  {
    PrevMonthDayNumber(c.year, c.month);
    var p := PrevMonthStart(c.year, c.month);
    assert c.year + (c.month - 1) / 12 == p.year && (c.month - 1) % 12 == p.month;
    var r := Normalize(c.year, c.month - 1, 1);
    assert r == Forward(p.year, p.month, 1);
    r
  }

  /** Next: the 1st of the month after the cursor's. */
  function Next(c: Date): (r: Date)
    requires 0 <= c.month < 12
    ensures r == NextMonthStart(c.year, c.month)
    ensures DayNumber(r) == DayNumber(Date(c.year, c.month, 1)) + DaysInMonth(c.year, c.month)
  {
    NextMonthDayNumber(c.year, c.month);
    var n := NextMonthStart(c.year, c.month);
    assert c.year + (c.month + 1) / 12 == n.year && (c.month + 1) % 12 == n.month;
    var r := Normalize(c.year, c.month + 1, 1);
    assert r == Forward(n.year, n.month, 1);
    r
  }

  /** Next then Prev, or Prev then Next, returns to the cursor. */
  lemma NavigationRoundTrip(c: Date)
    requires 0 <= c.month < 12 && c.day == 1
    ensures Prev(Next(c)) == c
    ensures Next(Prev(c)) == c
  {
  }

  /** The first and last day of the cursor's month, the dates the bookings
      are fetched for. */
  function FetchRange(c: Date): (range: (Date, Date))
    requires 0 <= c.month < 12
    ensures range.0 == Date(c.year, c.month, 1)
    ensures range.1 == Date(c.year, c.month, DaysInMonth(c.year, c.month))
  {
    NormalizeValid(Date(c.year, c.month, 1));
    DayZeroIsLastDay(c.year, c.month);
    (Normalize(c.year, c.month, 1), Normalize(c.year, c.month + 1, 0))
  }

  /** The fetched range covers exactly the grid's in-month cells. */
  lemma FetchRangeCoversMonth(c: Date, k: int)
    requires 0 <= c.month < 12 && 0 <= k < 42
    ensures var (start, end) := FetchRange(c);
      var cell := CellAt(c.year, c.month, k);
      cell.inMonth <==> DayNumber(start) <= DayNumber(cell.date) <= DayNumber(end)
  {
    InMonthIff(c.year, c.month, k);
    CellDayNumber(c.year, c.month, k);
  }

  // ---------------------------------------------------------------------
  // The page as written: cell keys and the fetch range through UTC

  /** The UTC calendar date of local midnight on d, in a zone
      `utcOffsetMinutes` east of UTC: what `toISOString()` formats. */
  function UtcDateOfLocalMidnight(d: Date, utcOffsetMinutes: int): (r: Date)
    requires Valid(d)
    ensures Valid(r)
    ensures DayNumber(r) == DayNumber(d) + (-utcOffsetMinutes) / 1440
  {
    assert d.month / 12 == 0 && d.month % 12 == d.month;
    Normalize(d.year, d.month, d.day + (-utcOffsetMinutes) / 1440)
  }

  /** The cell key as written: `toISOString().slice(0, 10)` of local midnight. */
  function UtcKeyAsWritten(d: Date, utcOffsetMinutes: int): (key: Option<string>)
    requires Valid(d)
    ensures key.Some? <==> 0 <= UtcDateOfLocalMidnight(d, utcOffsetMinutes).year <= 9999
    ensures key.Some? ==> ParseIso(key.value) == Some(UtcDateOfLocalMidnight(d, utcOffsetMinutes))
  {
    var u := UtcDateOfLocalMidnight(d, utcOffsetMinutes);
    assert IsoKey(u).Some? ==> ParseIso(IsoKey(u).value) == Some(u) by {
      if IsoKey(u).Some? {
        IsoRoundTrip(u);
      }
    }
    IsoKey(u)
  }

  /** East of UTC (for example India, 330 minutes), every key names the day
      before the cell's own date, so each cell shows the previous day's
      bookings; at or west of UTC the key is right. */
  lemma UtcKeyShift(d: Date, utcOffsetMinutes: int)
    requires Valid(d) && -1440 < utcOffsetMinutes < 1440
    ensures var u := UtcDateOfLocalMidnight(d, utcOffsetMinutes);
      && (utcOffsetMinutes > 0 ==> DayNumber(u) == DayNumber(d) - 1 && u != d)
      && (utcOffsetMinutes <= 0 ==> u == d)
  {
    var u := UtcDateOfLocalMidnight(d, utcOffsetMinutes);
    var shift := (-utcOffsetMinutes) / 1440;
    if utcOffsetMinutes > 0 {
      assert shift == -1;
    } else {
      assert shift == 0;
      assert u == Normalize(d.year, d.month, d.day);
      NormalizeValid(d);
    }
  }

  /** In India, the cell for 16 March 2024 looks up the bookings of
      15 March, and the March fetch ends on 30 March, so bookings on the
      31st are never fetched. */
  lemma UtcKeyExample()
    ensures UtcKeyAsWritten(Date(2024, 2, 16), 330) == IsoKey(Date(2024, 2, 15))
    ensures UtcDateOfLocalMidnight(FetchRange(Date(2024, 2, 1)).1, 330) == Date(2024, 2, 30)
  {
    assert (-330) / 1440 == -1;
    assert UtcDateOfLocalMidnight(Date(2024, 2, 16), 330) == Date(2024, 2, 15) by {
      NormalizeValid(Date(2024, 2, 15));
    }
    assert FetchRange(Date(2024, 2, 1)).1 == Date(2024, 2, 31);
    assert UtcDateOfLocalMidnight(Date(2024, 2, 31), 330) == Date(2024, 2, 30) by {
      NormalizeValid(Date(2024, 2, 30));
    }
  }

  /** The corrected key: each cell's key reads back as the cell's own local
      date, whatever the time zone. */
  lemma CellKeyIsLocalDate(year: int, month: int, k: int)
    requires 0 <= CellAt(year, month, k).date.year <= 9999
    ensures ParseIso(CellAt(year, month, k).ymd.value) == Some(CellAt(year, month, k).date)
  {
    IsoRoundTrip(CellAt(year, month, k).date);
  }

  // ---------------------------------------------------------------------
  // The page as written: `new Date` with a two-digit year

  /** `new Date(y, m, d)` as written: the Date constructor reads a year
      0..99 as 1900..1999. */
  function JsDateAsWritten(y: int, m: int, d: int): (r: Date)
    ensures Valid(r)
    ensures var year := if 0 <= y <= 99 then 1900 + y else y;
      DayNumber(r) == DayNumber(Date(year + m / 12, m % 12, 1)) + d - 1
  {
    Normalize(if 0 <= y <= 99 then 1900 + y else y, m, d)
  }

  /** Prev as written: the 1st of the month before the cursor's, in the
      year the Date constructor makes of the cursor's year. */
  function PrevAsWritten(c: Date): (r: Date)
    requires 0 <= c.month < 12
    ensures r == PrevMonthStart(if 0 <= c.year <= 99 then 1900 + c.year else c.year, c.month)
  {
    var year := if 0 <= c.year <= 99 then 1900 + c.year else c.year;
    var r := JsDateAsWritten(c.year, c.month - 1, 1);
    assert r == Prev(Date(year, c.month, 1)) by {
      assert r == Normalize(year, c.month - 1, 1);
    }
    r
  }

  /** Next as written: the 1st of the month after the cursor's, in the year
      the Date constructor makes of the cursor's year. */
  function NextAsWritten(c: Date): (r: Date)
    requires 0 <= c.month < 12
    ensures r == NextMonthStart(if 0 <= c.year <= 99 then 1900 + c.year else c.year, c.month)
  {
    var year := if 0 <= c.year <= 99 then 1900 + c.year else c.year;
    var r := JsDateAsWritten(c.year, c.month + 1, 1);
    assert r == Next(Date(year, c.month, 1)) by {
      assert r == Normalize(year, c.month + 1, 1);
    }
    r
  }

  /** From January of year 100, Prev reaches December 99, and Next from
      there jumps to January 2000 instead of coming back. */
  lemma TwoDigitYearExample()
    ensures PrevAsWritten(Date(100, 0, 1)) == Date(99, 11, 1)
    ensures NextAsWritten(PrevAsWritten(Date(100, 0, 1))) == Date(2000, 0, 1)
  {
    assert Forward(99, 11, 1) == Date(99, 11, 1);
    assert Forward(2000, 0, 1) == Date(2000, 0, 1);
  }
}
