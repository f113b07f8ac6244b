/**
 * The compliance calendar: the five-selector filter over the dated entries,
 * the week-of-month rule, the month / week / day grid the page renders, the
 * list of distinct document types and the status colours.
 */
module Calendar {
  import opened Wrappers
  import opened Sequences

  /** A calendar entry, its date already split into the 0-based month and
      the day of the month that `getMonth()` and `getDate()` give. */
  datatype Entry = Entry(id: nat, month: nat, day: nat, name: string, documentType: string, status: string)

  /** The five selectors; None is the "all" choice, Some the parsed value. */
  datatype Selection = Selection(
    month: Option<nat>, week: Option<nat>, day: Option<nat>,
    documentType: Option<string>, status: Option<string>)

  const ShowAll: Selection := Selection(None, None, None, None, None)

  const MonthNames: seq<string> :=
    ["January", "February", "March", "April", "May", "June", "July", "August"]
  const DaysInMonth: nat := 31

  /** `Math.ceil(day / 7)`. */
  function WeekOfMonth(day: nat): (w: nat)
    ensures day > 0 ==> 7 * (w - 1) < day <= 7 * w
    ensures day == 0 ==> w == 0
    ensures 1 <= day <= DaysInMonth ==> 1 <= w <= 5
  {
    (day + 6) / 7
  }

  predicate Accepts<T(==)>(selector: Option<T>, value: T) {
    selector.None? || selector.value == value
  }

  /** The filter's test: every selector other than "all" equals the entry's value. */
  predicate Matches(e: Entry, s: Selection) {
    && Accepts(s.month, e.month)
    && Accepts(s.week, WeekOfMonth(e.day))
    && Accepts(s.day, e.day)
    && Accepts(s.documentType, e.documentType)
    && Accepts(s.status, e.status)
  }

  /** filteredDocuments: the matching entries, in their order. */
  function FilterEntries(es: seq<Entry>, s: Selection): (r: seq<Entry>)
    ensures forall e :: e in r <==> e in es && Matches(e, s)
    ensures IsSubsequence(r, es)
    ensures s == ShowAll ==> r == es
  {
    if |es| == 0 then []
    else
      var rest := FilterEntries(es[1..], s);
      assert forall e :: e in es[1..] ==> e in es;
      assert es == [es[0]] + es[1..];
      if Matches(es[0], s) then [es[0]] + rest
      else
        assert rest == [] || rest[0] != es[0] by {
          if rest != [] { assert rest[0] in rest; }
        }
        rest
  }

  /** The filter keeps every copy of a matching entry and no copy of any
      other: the count of each entry is its count in the input, or zero. */
  lemma {:induction false} FilterKeepsCopies(es: seq<Entry>, s: Selection, e: Entry)
    ensures multiset(FilterEntries(es, s))[e] == if Matches(e, s) then multiset(es)[e] else 0
  {
    if |es| > 0 {
      FilterKeepsCopies(es[1..], s, e);
      assert es == [es[0]] + es[1..];
      assert multiset(es) == multiset{es[0]} + multiset(es[1..]);
    }
  }

  // ---------------------------------------------------------------- grid

  datatype DayCell = DayCell(day: nat, entries: seq<Entry>)
  datatype WeekRow = WeekRow(weekNumber: nat, days: seq<DayCell>)
  datatype MonthBlock = MonthBlock(monthName: string, monthIndex: nat, weeks: seq<WeekRow>)

  /** `filteredDocuments.filter(...)` for one cell: the entries dated month m, day d. */
  function OnDay(es: seq<Entry>, m: nat, d: nat): (r: seq<Entry>)
    ensures forall e :: e in r <==> e in es && e.month == m && e.day == d
    ensures IsSubsequence(r, es)
  {
    if |es| == 0 then []
    else
      var rest := OnDay(es[1..], m, d);
      assert forall e :: e in es[1..] ==> e in es;
      assert es == [es[0]] + es[1..];
      if es[0].month == m && es[0].day == d then [es[0]] + rest
      else
        assert rest == [] || rest[0] != es[0] by {
          if rest != [] { assert rest[0] in rest; }
        }
        rest
  }

  /** A cell keeps every copy of an entry dated on its day and no copy of any
      other entry. */
  lemma {:induction false} OnDayKeepsCopies(es: seq<Entry>, m: nat, d: nat, e: Entry)
    ensures multiset(OnDay(es, m, d))[e] == if e.month == m && e.day == d then multiset(es)[e] else 0
  {
    if |es| > 0 {
      OnDayKeepsCopies(es[1..], m, d, e);
      assert es == [es[0]] + es[1..];
      assert multiset(es) == multiset{es[0]} + multiset(es[1..]);
    }
  }

  /** First and last day of week w: `(w - 1) * 7 + 1` and `min(w * 7, 31)`. */
  function WeekStart(w: nat): nat
    requires w >= 1
  {
    (w - 1) * 7 + 1
  }

  function WeekEnd(w: nat): nat {
    if w * 7 < DaysInMonth then w * 7 else DaysInMonth
  }

  /** Weeks 1..5 split days 1..31: a day lies in week w exactly when w is its
      week of the month. */
  lemma {:induction false} WeeksPartitionMonth(d: nat, w: nat)
    requires 1 <= d <= DaysInMonth && 1 <= w <= 5
    ensures WeekStart(w) <= d <= WeekEnd(w) <==> w == WeekOfMonth(d)
  {
    var k := WeekOfMonth(d);
    assert 7 * (k - 1) < d <= 7 * k;
    if WeekStart(w) <= d <= WeekEnd(w) {
      assert 7 * (w - 1) < d <= 7 * w;
    }
  }

  /** The cells of days s .. t - 1, as the day loop pushes them. */
  function DayCells(es: seq<Entry>, m: nat, s: nat, t: nat): (r: seq<DayCell>)
    ensures |r| == if t > s then t - s else 0
    ensures forall k :: 0 <= k < |r| ==> r[k] == DayCell(s + k, OnDay(es, m, s + k))
    decreases t
  {
    if t <= s then [] else DayCells(es, m, s, t - 1) + [DayCell(t - 1, OnDay(es, m, t - 1))]
  }

  /** Week w of month m, every day of it with its (possibly empty) cell. */
  function WeekRowOf(es: seq<Entry>, m: nat, w: nat): WeekRow
    requires w >= 1
  {
    WeekRow(w, DayCells(es, m, WeekStart(w), WeekEnd(w) + 1))
  }

  /** `weekData.days.some(d => d.documents.length > 0)`. */
  predicate Occupied(row: WeekRow) {
    exists k :: 0 <= k < |row.days| && |row.days[k].entries| > 0
  }

  /** The week loop's output after weeks 1 .. w - 1: the occupied ones. */
  function WeeksBefore(es: seq<Entry>, m: nat, w: nat): seq<WeekRow> {
    if w <= 1 then []
    else
      var row := WeekRowOf(es, m, w - 1);
      WeeksBefore(es, m, w - 1) + (if Occupied(row) then [row] else [])
  }

  /** Every week kept is an occupied week among 1 .. w - 1. */
  lemma {:induction false} WeeksKeptOccupied(es: seq<Entry>, m: nat, w: nat)
    ensures forall j :: 0 <= j < |WeeksBefore(es, m, w)| ==>
      var r := WeeksBefore(es, m, w);
      1 <= r[j].weekNumber < w && r[j] == WeekRowOf(es, m, r[j].weekNumber) && Occupied(r[j])
  {
    if w > 1 {
      WeeksKeptOccupied(es, m, w - 1);
      var prev := WeeksBefore(es, m, w - 1);
      var r := WeeksBefore(es, m, w);
      assert forall j :: 0 <= j < |prev| ==> r[j] == prev[j];
    }
  }

  /** Every occupied week among 1 .. w - 1 is kept. */
  lemma {:induction false} WeeksKeptAll(es: seq<Entry>, m: nat, w: nat)
    ensures forall v :: 1 <= v < w && Occupied(WeekRowOf(es, m, v)) ==> WeekRowOf(es, m, v) in WeeksBefore(es, m, w)
  {
    if w > 1 {
      WeeksKeptAll(es, m, w - 1);
      var prev := WeeksBefore(es, m, w - 1);
      var r := WeeksBefore(es, m, w);
      assert forall x :: x in prev ==> x in r;
    }
  }

  /** The weeks kept come in increasing order. */
  lemma {:induction false} WeeksKeptIncreasing(es: seq<Entry>, m: nat, w: nat)
    ensures forall j, j' :: 0 <= j < j' < |WeeksBefore(es, m, w)| ==>
      WeeksBefore(es, m, w)[j].weekNumber < WeeksBefore(es, m, w)[j'].weekNumber
  {
    if w > 1 {
      WeeksKeptIncreasing(es, m, w - 1);
      WeeksKeptOccupied(es, m, w - 1);
      var prev := WeeksBefore(es, m, w - 1);
      var r := WeeksBefore(es, m, w);
      assert forall j :: 0 <= j < |prev| ==> r[j] == prev[j];
    }
  }

  /** The weeks kept are exactly the occupied weeks 1 .. w - 1, in increasing order. */
  lemma {:induction false} WeeksBeforeShape(es: seq<Entry>, m: nat, w: nat)
    ensures forall j :: 0 <= j < |WeeksBefore(es, m, w)| ==>
      var r := WeeksBefore(es, m, w);
      1 <= r[j].weekNumber < w && r[j] == WeekRowOf(es, m, r[j].weekNumber) && Occupied(r[j])
    ensures forall v :: 1 <= v < w && Occupied(WeekRowOf(es, m, v)) ==> WeekRowOf(es, m, v) in WeeksBefore(es, m, w)
    ensures forall j, j' :: 0 <= j < j' < |WeeksBefore(es, m, w)| ==>
      WeeksBefore(es, m, w)[j].weekNumber < WeeksBefore(es, m, w)[j'].weekNumber
  {
    WeeksKeptOccupied(es, m, w);
    WeeksKeptAll(es, m, w);
    WeeksKeptIncreasing(es, m, w);
  }

  function MonthBlockOf(es: seq<Entry>, m: nat): MonthBlock
    requires m < |MonthNames|
  {
    MonthBlock(MonthNames[m], m, WeeksBefore(es, m, 6))
  }

  /** The month loop's output after months 0 .. n - 1: those with a week. */
  function MonthsBefore(es: seq<Entry>, n: nat): seq<MonthBlock>
    requires n <= |MonthNames|
  {
    if n == 0 then []
    else
      var block := MonthBlockOf(es, n - 1);
      MonthsBefore(es, n - 1) + (if |block.weeks| > 0 then [block] else [])
  }

  /** Every block kept is a month among 0 .. n - 1 with a week. */
  lemma {:induction false} MonthsKeptOccupied(es: seq<Entry>, n: nat)
    requires n <= |MonthNames|
    ensures forall i :: 0 <= i < |MonthsBefore(es, n)| ==>
      var r := MonthsBefore(es, n);
      r[i].monthIndex < n && r[i] == MonthBlockOf(es, r[i].monthIndex) && |r[i].weeks| > 0
  {
    if n > 0 {
      MonthsKeptOccupied(es, n - 1);
      var prev := MonthsBefore(es, n - 1);
      var r := MonthsBefore(es, n);
      assert forall i :: 0 <= i < |prev| ==> r[i] == prev[i];
    }
  }

  /** Every month among 0 .. n - 1 with a week is kept. */
  lemma {:induction false} MonthsKeptAll(es: seq<Entry>, n: nat)
    requires n <= |MonthNames|
    ensures forall m :: 0 <= m < n && |MonthBlockOf(es, m).weeks| > 0 ==> MonthBlockOf(es, m) in MonthsBefore(es, n)
  {
    if n > 0 {
      MonthsKeptAll(es, n - 1);
      var prev := MonthsBefore(es, n - 1);
      var r := MonthsBefore(es, n);
      assert forall x :: x in prev ==> x in r;
    }
  }

  /** The blocks kept come in increasing month order. */
  lemma {:induction false} MonthsKeptIncreasing(es: seq<Entry>, n: nat)
    requires n <= |MonthNames|
    ensures forall i, i' :: 0 <= i < i' < |MonthsBefore(es, n)| ==>
      MonthsBefore(es, n)[i].monthIndex < MonthsBefore(es, n)[i'].monthIndex
  {
    if n > 0 {
      MonthsKeptIncreasing(es, n - 1);
      MonthsKeptOccupied(es, n - 1);
      var prev := MonthsBefore(es, n - 1);
      var r := MonthsBefore(es, n);
      assert forall i :: 0 <= i < |prev| ==> r[i] == prev[i];
    }
  }

  /** The blocks kept are exactly the months 0 .. n - 1 with a week, in increasing order. */
  lemma {:induction false} MonthsBeforeShape(es: seq<Entry>, n: nat)
    requires n <= |MonthNames|
    ensures forall i :: 0 <= i < |MonthsBefore(es, n)| ==>
      var r := MonthsBefore(es, n);
      r[i].monthIndex < n && r[i] == MonthBlockOf(es, r[i].monthIndex) && |r[i].weeks| > 0
    ensures forall m :: 0 <= m < n && |MonthBlockOf(es, m).weeks| > 0 ==> MonthBlockOf(es, m) in MonthsBefore(es, n)
    ensures forall i, i' :: 0 <= i < i' < |MonthsBefore(es, n)| ==>
      MonthsBefore(es, n)[i].monthIndex < MonthsBefore(es, n)[i'].monthIndex
  {
    MonthsKeptOccupied(es, n);
    MonthsKeptAll(es, n);
    MonthsKeptIncreasing(es, n);
  }

  /** The grid getCalendarGrid builds. */
  function Grid(es: seq<Entry>): seq<MonthBlock> {
    MonthsBefore(es, |MonthNames|)
  }

  /** Entry e is listed in cell k of week j of month block i. */
  ghost predicate ShownAt(grid: seq<MonthBlock>, e: Entry, i: int, j: int, k: int) {
    && 0 <= i < |grid|
    && 0 <= j < |grid[i].weeks|
    && 0 <= k < |grid[i].weeks[j].days|
    && e in grid[i].weeks[j].days[k].entries
  }

  /** A cell only lists entries dated on that cell's month and day, in the
      week that day belongs to. */
  lemma {:induction false} ShownWhereDated(es: seq<Entry>, e: Entry, i: int, j: int, k: int)
    requires ShownAt(Grid(es), e, i, j, k)
    ensures e in es
    ensures Grid(es)[i].monthIndex == e.month
    ensures Grid(es)[i].weeks[j].weekNumber == WeekOfMonth(e.day)
    ensures Grid(es)[i].weeks[j].days[k].day == e.day
  {
    var grid := Grid(es);
    MonthsBeforeShape(es, |MonthNames|);
    var block := grid[i];
    assert block == MonthBlockOf(es, block.monthIndex);
    WeeksBeforeShape(es, block.monthIndex, 6);
    var row := block.weeks[j];
    var w := row.weekNumber;
    assert block == MonthBlockOf(es, block.monthIndex);
    assert row == WeekRowOf(es, block.monthIndex, w) && 1 <= w < 6;
    var cell := row.days[k];
    assert cell == DayCell(WeekStart(w) + k, OnDay(es, block.monthIndex, WeekStart(w) + k));
    assert e.day == WeekStart(w) + k && e.day <= WeekEnd(w);
    WeeksPartitionMonth(e.day, w);
  }

  /** Every matching entry of months 0..7 and days 1..31 is shown in some cell. */
  lemma {:induction false} DatedEntryShown(es: seq<Entry>, e: Entry)
    requires e in es && e.month < |MonthNames| && 1 <= e.day <= DaysInMonth
    ensures exists i, j, k :: ShownAt(Grid(es), e, i, j, k)
  {
    var m, d := e.month, e.day;
    var w := WeekOfMonth(d);
    WeeksPartitionMonth(d, w);
    var row := WeekRowOf(es, m, w);
    var k := d - WeekStart(w);
    assert row.days[k] == DayCell(d, OnDay(es, m, d));
    assert e in row.days[k].entries;
    assert Occupied(row);
    var weeks := WeeksBefore(es, m, 6);
    WeeksBeforeShape(es, m, 6);
    MonthsBeforeShape(es, |MonthNames|);
    assert row in weeks;
    var j :| 0 <= j < |weeks| && weeks[j] == row;
    var block := MonthBlockOf(es, m);
    var grid := Grid(es);
    assert block in grid;
    var i :| 0 <= i < |grid| && grid[i] == block;
    assert ShownAt(grid, e, i, j, k);
  }

  /** No entry is shown in two cells. */
  lemma {:induction false} ShownOnce(es: seq<Entry>, e: Entry, i: int, j: int, k: int, i': int, j': int, k': int)
    requires ShownAt(Grid(es), e, i, j, k) && ShownAt(Grid(es), e, i', j', k')
    ensures i == i' && j == j' && k == k'
  {
    var grid := Grid(es);
    ShownWhereDated(es, e, i, j, k);
    ShownWhereDated(es, e, i', j', k');
    MonthsBeforeShape(es, |MonthNames|);
    var weeks := grid[i].weeks;
    var block := grid[i];
    assert block == MonthBlockOf(es, block.monthIndex);
    WeeksBeforeShape(es, block.monthIndex, 6);
    var row := weeks[j];
    assert row == WeekRowOf(es, block.monthIndex, row.weekNumber);
    assert row.days[k].day == WeekStart(row.weekNumber) + k;
    assert row.days[k'].day == WeekStart(row.weekNumber) + k';
  }

  /** Every block of the grid has a week and every week an entry. */
  lemma {:induction false} GridBlocksOccupied(es: seq<Entry>)
    ensures forall i :: 0 <= i < |Grid(es)| ==> |Grid(es)[i].weeks| > 0
    ensures forall i, j :: 0 <= i < |Grid(es)| && 0 <= j < |Grid(es)[i].weeks| ==> Occupied(Grid(es)[i].weeks[j])
  {
    var grid := Grid(es);
    MonthsBeforeShape(es, |MonthNames|);
    forall i, j | 0 <= i < |grid| && 0 <= j < |grid[i].weeks| ensures Occupied(grid[i].weeks[j]) {
      assert grid[i] == MonthBlockOf(es, grid[i].monthIndex);
      WeeksBeforeShape(es, grid[i].monthIndex, 6);
    }
  }

  /** getCalendarGrid: months 0..7 in order, each kept when it has a week
      (see MonthWeeks). */
  method CalendarGrid(filtered: seq<Entry>) returns (grid: seq<MonthBlock>)
    ensures grid == Grid(filtered)
    ensures forall i :: 0 <= i < |grid| ==> |grid[i].weeks| > 0
    ensures forall i, j :: 0 <= i < |grid| && 0 <= j < |grid[i].weeks| ==> Occupied(grid[i].weeks[j])
  {
    grid := [];
    var month := 0;
    while month < 8
      invariant 0 <= month <= 8
      invariant grid == MonthsBefore(filtered, month)
    {
      var weeks := MonthWeeks(filtered, month);
      var block := MonthBlock(MonthNames[month], month, weeks);
      assert block == MonthBlockOf(filtered, month);
      if |weeks| > 0 {
        grid := grid + [block];
      }
      month := month + 1;
    }
    GridBlocksOccupied(filtered);
  }

  /** The body of getCalendarGrid's month loop: weeks 1..5, each kept when
      one of its days has an entry. */
  method MonthWeeks(filtered: seq<Entry>, month: nat) returns (weeks: seq<WeekRow>)
    ensures weeks == WeeksBefore(filtered, month, 6)
    ensures forall j :: 0 <= j < |weeks| ==> Occupied(weeks[j]) && 1 <= weeks[j].weekNumber <= 5
  {
    weeks := [];
    var week := 1;
    while week <= 5
      invariant 1 <= week <= 6
      invariant weeks == WeeksBefore(filtered, month, week)
    {
      var days := WeekDays(filtered, month, week);
      var row := WeekRow(week, days);
      if Occupied(row) {
        weeks := weeks + [row];
      }
      week := week + 1;
    }
    WeeksBeforeShape(filtered, month, 6);
  }

  /** The body of the week loop: one cell per day from `(week - 1) * 7 + 1`
      to `min(week * 7, 31)`, listing the entries dated that day. */
  method WeekDays(filtered: seq<Entry>, month: nat, week: nat) returns (days: seq<DayCell>)
    requires 1 <= week
    ensures WeekRow(week, days) == WeekRowOf(filtered, month, week)
    ensures forall k :: 0 <= k < |days| ==>
      days[k].day == WeekStart(week) + k &&
      forall e :: e in days[k].entries <==> e in filtered && e.month == month && e.day == days[k].day
  {
    var startDay := (week - 1) * 7 + 1;
    var endDay := if week * 7 < DaysInMonth then week * 7 else DaysInMonth;
    days := [];
    var day := startDay;
    while day <= endDay
      invariant startDay <= day && (day <= endDay + 1 || day == startDay)
      invariant days == DayCells(filtered, month, startDay, day)
    {
      days := days + [DayCell(day, OnDay(filtered, month, day))];
      day := day + 1;
    }
  }

  // ------------------------------------------------------- types, colours

  /** `[...new Set(xs)]` after the elements in `seen`: first occurrences, in order. */
  function Distinct(xs: seq<string>, seen: set<string>): (r: seq<string>)
    ensures forall x :: x in r <==> x in xs && x !in seen
    ensures forall i, j :: 0 <= i < j < |r| ==> r[i] != r[j]
    ensures IsSubsequence(r, xs)
  {
    if |xs| == 0 then []
    else
      assert forall x :: x in xs[1..] ==> x in xs;
      assert xs == [xs[0]] + xs[1..];
      if xs[0] in seen then
        var rest := Distinct(xs[1..], seen);
        assert rest == [] || rest[0] != xs[0] by {
          if rest != [] { assert rest[0] in rest; }
        }
        rest
      else [xs[0]] + Distinct(xs[1..], seen + {xs[0]})
  }

  /** documentTypes: every entry's type, each exactly once. */
  function DocumentTypes(es: seq<Entry>): (r: seq<string>)
    ensures forall i :: 0 <= i < |es| ==> es[i].documentType in r
    ensures forall t :: t in r ==> exists i :: 0 <= i < |es| && es[i].documentType == t
    ensures forall i, j :: 0 <= i < j < |r| ==> r[i] != r[j]
  {
    var types := seq(|es|, i requires 0 <= i < |es| => es[i].documentType);
    assert forall i :: 0 <= i < |es| ==> es[i].documentType == types[i];
    Distinct(types, {})
  }

  const KnownStatuses: set<string> := {"completed", "in-progress", "pending", "overdue"}

  /** getStatusColor: one class per known status, gray for anything else. */
  function StatusColor(status: string): (c: string)
    ensures c == "bg-gray-500" <==> status !in KnownStatuses
    ensures status == "completed" ==> c == "bg-green-500"
    ensures status == "in-progress" ==> c == "bg-blue-500"
    ensures status == "pending" ==> c == "bg-yellow-500"
    ensures status == "overdue" ==> c == "bg-red-500"
  {
    match status
    case "completed" => "bg-green-500"
    case "in-progress" => "bg-blue-500"
    case "pending" => "bg-yellow-500"
    case "overdue" => "bg-red-500"
    case _ => "bg-gray-500"
  }
}
