/** Level 2, the last ten years in detail: every row's date is split and read with
    unary `+`, the rows of 2008 to 2017 are kept, grouped by year and then by month
    (`d3.groups`), and each (year, month) becomes a cell holding its mean maximum and
    minimum and its days sorted by day of month for the cell's mini line chart. */
module Level2 {
  import opened Options
  import opened Seqs
  import opened Strings
  import opened JsNumbers
  import opened Stats
  import opened Grouping
  import opened Sorting
  import opened Legend
  import opened Table

  /** A CSV row after the `data.forEach` pass: the date's pieces as numbers. */
  datatype Record = Record(date: string, year: JsNumber, month: JsNumber, day: JsNumber,
                           maxTemperature: real, minTemperature: real)

  /** `+dateParts[0]`, `+dateParts[1]`, `+dateParts[2]` (a missing piece is
      `undefined`, which reads as NaN). */
  function ParseRecord(row: Row): Record {
    var parts := Split(row.date, '-');
    Record(row.date, ToNumberAt(parts, 0), ToNumberAt(parts, 1), ToNumberAt(parts, 2),
           row.maxTemperature, row.minTemperature)
  }

  const StartYear: int := 2008
  const EndYear: int := 2017

  /** `d.year >= startYear && d.year <= endYear`; a NaN year compares false both ways. */
  predicate InWindow(r: Record) {
    r.year.Int? && StartYear <= r.year.value <= EndYear
  }

  /** `filteredData`. */
  function FilteredData(rows: seq<Row>): (filtered: seq<Record>)
    ensures |filtered| <= |rows|
    ensures forall r :: r in filtered ==> InWindow(r)
  {
    Filter(Map(rows, ParseRecord), InWindow)
  }

  function YearOf(r: Record): JsNumber { r.year }
  function MonthOf(r: Record): JsNumber { r.month }
  function DayNumber(r: Record): JsNumber { r.day }
  function RecordMax(r: Record): real { r.maxTemperature }
  function RecordMin(r: Record): real { r.minTemperature }

  /** The key equality of `d3.groups`, SameValueZero: on the numbers that date pieces
      read as, plain equality, under which NaN keys share a group. */
  predicate SameValueZero(a: JsNumber, b: JsNumber) {
    a == b
  }

  lemma SameValueZeroIsPartialEquivalence()
    ensures PartialEquivalence(SameValueZero)
  {
  }

  /** One heat-map cell. */
  datatype Cell = Cell(year: JsNumber, month: JsNumber, avgMax: real, avgMin: real, days: seq<Record>)

  /** The outer level of `d3.groups(filteredData, d => d.year, d => d.month)`. */
  function YearGroups(filtered: seq<Record>): seq<Group<JsNumber, Record>> {
    GroupBy(filtered, YearOf, SameValueZero)
  }

  /** The inner level: one year's records grouped by month. */
  function MonthGroups(yg: Group<JsNumber, Record>): seq<Group<JsNumber, Record>> {
    GroupBy(yg.items, MonthOf, SameValueZero)
  }

  /** The cell pushed for one month group of `year`. */
  function CellOf(year: JsNumber, mg: Group<JsNumber, Record>): Cell
    requires |mg.items| > 0
  {
    Cell(year, mg.key, MeanBy(mg.items, RecordMax), MeanBy(mg.items, RecordMin), SortBy(mg.items, DayNumber))
  }

  /** `yearGroup[1].forEach(...)`: the cells of one year, month group by month group. */
  function CellsOfYear(year: JsNumber, mgs: seq<Group<JsNumber, Record>>): (cells: seq<Cell>)
    requires forall q :: 0 <= q < |mgs| ==> |mgs[q].items| > 0
    ensures |cells| == |mgs|
    ensures forall q :: 0 <= q < |cells| ==> cells[q].year == year && cells[q].month == mgs[q].key
  {
    seq(|mgs|, q requires 0 <= q < |mgs| => CellOf(year, mgs[q]))
  }

  /** `nestedData.forEach(...)`: the cells of the year groups, year after year. */
  function CellsFrom(ygs: seq<Group<JsNumber, Record>>): seq<Cell>
    decreases |ygs|
  {
    if |ygs| == 0 then []
    else
      GroupByWellGrouped(ygs[0].items, MonthOf, SameValueZero);
      CellsOfYear(ygs[0].key, MonthGroups(ygs[0])) + CellsFrom(ygs[1..])
  }

  /** `cellData`. */
  function CellData(rows: seq<Row>): seq<Cell> {
    CellsFrom(YearGroups(FilteredData(rows)))
  }

  /** A date of three decimal pieces reads as their three numeric values. */
  lemma ParseDecimalDate(year: string, month: string, day: string, row: Row)
    requires IsDecimal(year) && IsDecimal(month) && IsDecimal(day)
    requires row.date == year + "-" + month + "-" + day
    ensures ParseRecord(row).year == Int(DigitsValue(year, 10))
    ensures ParseRecord(row).month == Int(DigitsValue(month, 10))
    ensures ParseRecord(row).day == Int(DigitsValue(day, 10))
    ensures ParseRecord(row).maxTemperature == row.maxTemperature
    ensures ParseRecord(row).minTemperature == row.minTemperature
  {
    SplitDate(year, month, day);
    SplitWithout(day, '-');
    ToNumberOfDecimal(year);
    ToNumberOfDecimal(month);
    ToNumberOfDecimal(day);
  }

  /** Writing a date out as `y-m-d` and reading it back gives `y`, `m` and `d`. */
  lemma ParseWrittenDate(y: nat, m: nat, d: nat, row: Row)
    requires row.date == DecimalString(y) + "-" + DecimalString(m) + "-" + DecimalString(d)
    ensures ParseRecord(row).year == Int(y)
    ensures ParseRecord(row).month == Int(m)
    ensures ParseRecord(row).day == Int(d)
  {
    ParseDecimalDate(DecimalString(y), DecimalString(m), DecimalString(d), row);
  }

  /** The other half of the round trip: a date written with canonical decimal pieces
      (no superfluous leading zero) is written back unchanged from its parsed fields. */
  lemma WrittenDateOfRecord(year: string, month: string, day: string, row: Row)
    requires IsCanonicalDecimal(year) && IsCanonicalDecimal(month) && IsCanonicalDecimal(day)
    requires row.date == year + "-" + month + "-" + day
    ensures var r := ParseRecord(row);
      && r.year.Int? && r.month.Int? && r.day.Int?
      && r.year.value >= 0 && r.month.value >= 0 && r.day.value >= 0
      && DecimalString(r.year.value) + "-" + DecimalString(r.month.value) + "-" + DecimalString(r.day.value) == row.date
  {
    ParseDecimalDate(year, month, day, row);
    DecimalStringOfValue(year);
    DecimalStringOfValue(month);
    DecimalStringOfValue(day);
  }

  /** `data.filter(...)` keeps exactly the records inside the window, in their input
      order: the `k`-th kept record is the parsed row at the `k`-th passing position. */
  lemma FilterKeepsWindowInOrder(rows: seq<Row>)
    ensures var idx := Positions(Map(rows, ParseRecord), InWindow);
      && |idx| == |FilteredData(rows)|
      && (forall k :: 0 <= k < |idx| ==> 0 <= idx[k] < |rows| && FilteredData(rows)[k] == ParseRecord(rows[idx[k]]))
      && (forall k, l :: 0 <= k < l < |idx| ==> idx[k] < idx[l])
      && (forall i :: 0 <= i < |rows| ==> (InWindow(ParseRecord(rows[i])) <==> i in idx))
  {
    FilterIsStableSelection(Map(rows, ParseRecord), InWindow);
  }

  /** The records that belong in the cell of `year` and `month`. */
  function InCell(year: JsNumber, month: JsNumber): Record -> bool {
    (r: Record) => r.year == year && r.month == month
  }

  /** The records of the window with a cell's year and month. */
  function Members(filtered: seq<Record>, year: JsNumber, month: JsNumber): seq<Record> {
    Filter(filtered, InCell(year, month))
  }

  /** A cell is built from exactly the records with its key: it holds them sorted by
      day and averages them. */
  ghost predicate BuiltFromMembers(c: Cell, filtered: seq<Record>) {
    var members := Members(filtered, c.year, c.month);
    && |members| > 0
    && c.days == SortBy(members, DayNumber)
    && c.avgMax == MeanBy(members, RecordMax)
    && c.avgMin == MeanBy(members, RecordMin)
  }

  /** A year group holds exactly the records of its year. */
  lemma YearGroupContents(filtered: seq<Record>)
    ensures forall p :: 0 <= p < |YearGroups(filtered)| ==>
      YearGroups(filtered)[p].items == Filter(filtered, KeyMatches(YearGroups(filtered)[p].key, YearOf, SameValueZero))
  {
    GroupByContents(filtered, YearOf, SameValueZero);
  }

  /** Keeping a year's records and then a month's is keeping the records of both. */
  lemma YearThenMonth(filtered: seq<Record>, year: JsNumber, month: JsNumber)
    ensures Filter(Filter(filtered, KeyMatches(year, YearOf, SameValueZero)), KeyMatches(month, MonthOf, SameValueZero))
         == Members(filtered, year, month)
  {
    var inYear := KeyMatches(year, YearOf, SameValueZero);
    var inMonth := KeyMatches(month, MonthOf, SameValueZero);
    forall x | x in filtered
      ensures (inYear(x) && inMonth(x)) == InCell(year, month)(x)
    {
      assert inYear(x) == SameValueZero(year, YearOf(x));
      assert inMonth(x) == SameValueZero(month, MonthOf(x));
    }
    FilterFilter(filtered, inYear, inMonth, InCell(year, month));
  }

  /** Inside the group of one year, a month group holds exactly the records of that
      year and month. */
  lemma MonthGroupContents(yg: Group<JsNumber, Record>, filtered: seq<Record>)
    requires yg.items == Filter(filtered, KeyMatches(yg.key, YearOf, SameValueZero))
    ensures forall q :: 0 <= q < |MonthGroups(yg)| ==>
      MonthGroups(yg)[q].items == Members(filtered, yg.key, MonthGroups(yg)[q].key)
  {
    GroupByContents(yg.items, MonthOf, SameValueZero);
    var mgs := MonthGroups(yg);
    forall q | 0 <= q < |mgs|
      ensures mgs[q].items == Members(filtered, yg.key, mgs[q].key)
    {
      YearThenMonth(filtered, yg.key, mgs[q].key);
    }
  }

  lemma CellsOfYearBuiltFromMembers(yg: Group<JsNumber, Record>, filtered: seq<Record>)
    requires yg.items == Filter(filtered, KeyMatches(yg.key, YearOf, SameValueZero))
    ensures forall q :: 0 <= q < |MonthGroups(yg)| ==> |MonthGroups(yg)[q].items| > 0
    ensures forall q :: 0 <= q < |MonthGroups(yg)| ==>
      BuiltFromMembers(CellsOfYear(yg.key, MonthGroups(yg))[q], filtered)
  {
    GroupByWellGrouped(yg.items, MonthOf, SameValueZero);
    MonthGroupContents(yg, filtered);
  }

  lemma {:induction false} CellsFromBuiltFromMembers(ygs: seq<Group<JsNumber, Record>>, filtered: seq<Record>)
    requires forall p :: 0 <= p < |ygs| ==> ygs[p].items == Filter(filtered, KeyMatches(ygs[p].key, YearOf, SameValueZero))
    ensures forall i :: 0 <= i < |CellsFrom(ygs)| ==> BuiltFromMembers(CellsFrom(ygs)[i], filtered)
    decreases |ygs|
  {
    if |ygs| > 0 {
      CellsOfYearBuiltFromMembers(ygs[0], filtered);
      CellsFromBuiltFromMembers(ygs[1..], filtered);
    }
  }

  /** Every cell of `cellData` is built from exactly the window's records with its
      year and month. */
  lemma CellDataBuiltFromMembers(rows: seq<Row>)
    ensures forall i :: 0 <= i < |CellData(rows)| ==> BuiltFromMembers(CellData(rows)[i], FilteredData(rows))
  {
    YearGroupContents(FilteredData(rows));
    CellsFromBuiltFromMembers(YearGroups(FilteredData(rows)), FilteredData(rows));
  }

  /** What a cell built from its members promises: its days are those records, each
      as often as in the window; its means are the means of its days; and when every
      day is a number the days are in ascending day order, records with equal days
      keeping their input order (the sort is stable). */
  lemma CellFromMembers(c: Cell, filtered: seq<Record>)
    requires BuiltFromMembers(c, filtered)
    ensures multiset(c.days) == multiset(Members(filtered, c.year, c.month))
    ensures |c.days| > 0
    ensures c.avgMax == MeanBy(c.days, RecordMax) && c.avgMin == MeanBy(c.days, RecordMin)
    ensures AllNumbers(Members(filtered, c.year, c.month), DayNumber) ==>
      && SortedBy(c.days, DayNumber)
      && forall k :: Filter(c.days, KeyIs(k, DayNumber)) == Filter(Members(filtered, c.year, c.month), KeyIs(k, DayNumber))
  {
    var members := Members(filtered, c.year, c.month);
    MeanByPermutation(members, c.days, RecordMax);
    MeanByPermutation(members, c.days, RecordMin);
    if AllNumbers(members, DayNumber) {
      SortByIsSorted(members, DayNumber);
      forall k
        ensures Filter(c.days, KeyIs(k, DayNumber)) == Filter(members, KeyIs(k, DayNumber))
      {
        SortByIsStable(members, DayNumber, k);
      }
    }
  }

  /** Each cell of `cellData` averages, and lists sorted by day, exactly the records of
      the window with its year and month. */
  lemma CellDataContents(rows: seq<Row>)
    ensures forall i :: 0 <= i < |CellData(rows)| ==>
      var c := CellData(rows)[i];
      var members := Members(FilteredData(rows), c.year, c.month);
      && |members| > 0
      && multiset(c.days) == multiset(members)
      && c.avgMax == MeanBy(members, RecordMax) && c.avgMin == MeanBy(members, RecordMin)
      && c.avgMax == MeanBy(c.days, RecordMax) && c.avgMin == MeanBy(c.days, RecordMin)
      && (AllNumbers(members, DayNumber) ==>
            && SortedBy(c.days, DayNumber)
            && forall k :: Filter(c.days, KeyIs(k, DayNumber)) == Filter(members, KeyIs(k, DayNumber)))
  {
    CellDataBuiltFromMembers(rows);
    forall i | 0 <= i < |CellData(rows)|
      ensures var c := CellData(rows)[i];
        var members := Members(FilteredData(rows), c.year, c.month);
        && |members| > 0
        && multiset(c.days) == multiset(members)
        && c.avgMax == MeanBy(members, RecordMax) && c.avgMin == MeanBy(members, RecordMin)
        && c.avgMax == MeanBy(c.days, RecordMax) && c.avgMin == MeanBy(c.days, RecordMin)
        && (AllNumbers(members, DayNumber) ==>
              && SortedBy(c.days, DayNumber)
              && forall k :: Filter(c.days, KeyIs(k, DayNumber)) == Filter(members, KeyIs(k, DayNumber)))
    {
      CellFromMembers(CellData(rows)[i], FilteredData(rows));
    }
  }

  /** A year that no year group has is the year of none of their cells. */
  lemma {:induction false} CellsFromAvoid(ygs: seq<Group<JsNumber, Record>>, year: JsNumber)
    requires forall p :: 0 <= p < |ygs| ==> ygs[p].key != year
    ensures forall i :: 0 <= i < |CellsFrom(ygs)| ==> CellsFrom(ygs)[i].year != year
    decreases |ygs|
  {
    if |ygs| > 0 {
      CellsFromAvoid(ygs[1..], year);
      GroupByWellGrouped(ygs[0].items, MonthOf, SameValueZero);
      assert CellsFrom(ygs) == CellsOfYear(ygs[0].key, MonthGroups(ygs[0])) + CellsFrom(ygs[1..]);
    }
  }

  /** No two cells share a (year, month) key. */
  predicate KeysDistinct(cells: seq<Cell>) {
    forall i, j :: 0 <= i < j < |cells| ==> cells[i].year != cells[j].year || cells[i].month != cells[j].month
  }

  lemma DistinctAppend(a: seq<Cell>, b: seq<Cell>, year: JsNumber)
    requires forall i :: 0 <= i < |a| ==> a[i].year == year
    requires forall i, j :: 0 <= i < j < |a| ==> a[i].month != a[j].month
    requires forall j :: 0 <= j < |b| ==> b[j].year != year
    requires KeysDistinct(b)
    ensures KeysDistinct(a + b)
  {
    var cells := a + b;
    forall i, j | 0 <= i < j < |cells|
      ensures cells[i].year != cells[j].year || cells[i].month != cells[j].month
    {
      if j < |a| {
        assert cells[i] == a[i] && cells[j] == a[j];
      } else if i < |a| {
        assert cells[i] == a[i] && cells[j] == b[j - |a|];
      } else {
        assert cells[i] == b[i - |a|] && cells[j] == b[j - |a|];
      }
    }
  }

  /** Cells of distinct years, and of distinct months within a year, never share a key. */
  lemma {:induction false} CellsFromDistinct(ygs: seq<Group<JsNumber, Record>>)
    requires forall p, q :: 0 <= p < q < |ygs| ==> ygs[p].key != ygs[q].key
    ensures KeysDistinct(CellsFrom(ygs))
    decreases |ygs|
  {
    if |ygs| > 0 {
      var mgs := MonthGroups(ygs[0]);
      GroupByWellGrouped(ygs[0].items, MonthOf, SameValueZero);
      var a := CellsOfYear(ygs[0].key, mgs);
      assert CellsFrom(ygs) == a + CellsFrom(ygs[1..]);
      CellsFromAvoid(ygs[1..], ygs[0].key);
      CellsFromDistinct(ygs[1..]);
      DistinctAppend(a, CellsFrom(ygs[1..]), ygs[0].key);
    }
  }

  /** No two cells of `cellData` share a (year, month) key. */
  lemma CellKeysDistinct(rows: seq<Row>)
    ensures KeysDistinct(CellData(rows))
  {
    GroupByWellGrouped(FilteredData(rows), YearOf, SameValueZero);
    CellsFromDistinct(YearGroups(FilteredData(rows)));
  }

  /** All the days held by some cells, counted with multiplicity. */
  function CellDays(cells: seq<Cell>): multiset<Record>
    decreases |cells|
  {
    if |cells| == 0 then multiset{} else multiset(cells[0].days) + CellDays(cells[1..])
  }

  lemma {:induction false} CellDaysConcat(a: seq<Cell>, b: seq<Cell>)
    ensures CellDays(a + b) == CellDays(a) + CellDays(b)
    decreases |a|
  {
    if |a| > 0 {
      assert (a + b)[1..] == a[1..] + b;
      CellDaysConcat(a[1..], b);
    } else {
      assert a + b == b;
    }
  }

  lemma {:induction false} CellsOfYearDays(year: JsNumber, mgs: seq<Group<JsNumber, Record>>)
    requires forall q :: 0 <= q < |mgs| ==> |mgs[q].items| > 0
    ensures CellDays(CellsOfYear(year, mgs)) == multiset(Flatten(mgs))
    decreases |mgs|
  {
    if |mgs| > 0 {
      CellsOfYearTail(year, mgs);
      CellsOfYearDays(year, mgs[1..]);
    }
  }

  lemma CellsOfYearTail(year: JsNumber, mgs: seq<Group<JsNumber, Record>>)
    requires forall q :: 0 <= q < |mgs| ==> |mgs[q].items| > 0
    requires |mgs| > 0
    ensures CellsOfYear(year, mgs)[1..] == CellsOfYear(year, mgs[1..])
    ensures CellsOfYear(year, mgs)[0] == CellOf(year, mgs[0])
  {
  }

  lemma {:induction false} CellsFromDays(ygs: seq<Group<JsNumber, Record>>)
    ensures CellDays(CellsFrom(ygs)) == multiset(Flatten(ygs))
    decreases |ygs|
  {
    if |ygs| > 0 {
      GroupByWellGrouped(ygs[0].items, MonthOf, SameValueZero);
      var a := CellsOfYear(ygs[0].key, MonthGroups(ygs[0]));
      assert CellsFrom(ygs) == a + CellsFrom(ygs[1..]);
      CellDaysConcat(a, CellsFrom(ygs[1..]));
      CellsOfYearDays(ygs[0].key, MonthGroups(ygs[0]));
      GroupByPartitions(ygs[0].items, MonthOf, SameValueZero);
      CellsFromDays(ygs[1..]);
    }
  }

  lemma {:induction false} InSomeCell(cells: seq<Cell>, r: Record) returns (i: int)
    requires r in CellDays(cells)
    ensures 0 <= i < |cells| && r in cells[i].days
    decreases |cells|
  {
    if r in cells[0].days {
      i := 0;
    } else {
      var i' := InSomeCell(cells[1..], r);
      i := i' + 1;
    }
  }

  /** A cell built from its members holds only records of its year and month. */
  lemma MembersHaveTheKey(c: Cell, filtered: seq<Record>, r: Record)
    requires BuiltFromMembers(c, filtered) && r in c.days
    ensures c.year == r.year && c.month == r.month
  {
    assert r in multiset(Members(filtered, c.year, c.month));
    assert r in Members(filtered, c.year, c.month);
    assert InCell(c.year, c.month)(r);
  }

  /** The cells partition the window: their days are the filtered records, each as often
      as it occurs there; every record lies in a cell, and any cell holding it is the
      one of its year and month. */
  lemma EveryRecordInItsCell(rows: seq<Row>)
    ensures CellDays(CellData(rows)) == multiset(FilteredData(rows))
    ensures forall r :: r in FilteredData(rows) ==>
      exists i :: 0 <= i < |CellData(rows)| && r in CellData(rows)[i].days
    ensures forall i, r :: 0 <= i < |CellData(rows)| && r in CellData(rows)[i].days ==>
      CellData(rows)[i].year == r.year && CellData(rows)[i].month == r.month
  {
    var filtered := FilteredData(rows);
    var cells := CellData(rows);
    CellsFromDays(YearGroups(filtered));
    GroupByPartitions(filtered, YearOf, SameValueZero);
    forall r | r in filtered
      ensures exists i :: 0 <= i < |cells| && r in cells[i].days
    {
      var i := InSomeCell(cells, r);
    }
    CellDataBuiltFromMembers(rows);
    forall i, r | 0 <= i < |cells| && r in cells[i].days
      ensures cells[i].year == r.year && cells[i].month == r.month
    {
      MembersHaveTheKey(cells[i], filtered, r);
    }
  }

  /** Every cell lies in the ten-year window: its year is a number from 2008 to 2017. */
  lemma CellsInsideWindow(rows: seq<Row>)
    ensures forall i :: 0 <= i < |CellData(rows)| ==>
      CellData(rows)[i].year.Int? && StartYear <= CellData(rows)[i].year.value <= EndYear
  {
    var cells := CellData(rows);
    CellDataBuiltFromMembers(rows);
    forall i | 0 <= i < |cells|
      ensures cells[i].year.Int? && StartYear <= cells[i].year.value <= EndYear
    {
      var members := Members(FilteredData(rows), cells[i].year, cells[i].month);
      assert members[0] in members;
      assert InCell(cells[i].year, cells[i].month)(members[0]);
    }
  }

  /** The year groups, and so the cells' years, come in the order in which each year
      first occurs among the filtered records. */
  lemma YearsInFirstOccurrenceOrder(rows: seq<Row>)
    ensures var filtered := FilteredData(rows);
      var idx := Openers(filtered, YearOf, SameValueZero);
      && |YearGroups(filtered)| == |idx|
      && (forall p :: 0 <= p < |idx| ==> 0 <= idx[p] < |filtered| && YearGroups(filtered)[p].key == filtered[idx[p]].year)
      && (forall p, q :: 0 <= p < q < |idx| ==> idx[p] < idx[q])
      && (forall i :: 0 <= i < |filtered| ==>
            (i in idx <==> forall j :: 0 <= j < i ==> filtered[j].year != filtered[i].year))
  {
    var filtered := FilteredData(rows);
    GroupByFirstOccurrence(filtered, YearOf, SameValueZero);
    OpenersAreOpeners(filtered, YearOf, SameValueZero);
  }

  /** Inside a year group the month groups, and so that year's cells, come in the order
      in which each month first occurs among the year's records. */
  lemma MonthsInFirstOccurrenceOrder(yg: Group<JsNumber, Record>)
    ensures var idx := Openers(yg.items, MonthOf, SameValueZero);
      && |MonthGroups(yg)| == |idx|
      && (forall p :: 0 <= p < |idx| ==> 0 <= idx[p] < |yg.items| && MonthGroups(yg)[p].key == yg.items[idx[p]].month)
      && (forall p, q :: 0 <= p < q < |idx| ==> idx[p] < idx[q])
      && (forall i :: 0 <= i < |yg.items| ==>
            (i in idx <==> forall j :: 0 <= j < i ==> yg.items[j].month != yg.items[i].month))
  {
    GroupByFirstOccurrence(yg.items, MonthOf, SameValueZero);
    OpenersAreOpeners(yg.items, MonthOf, SameValueZero);
  }

  /** `d.avgMax` or `d.avgMin`, for the selected view. */
  function MetricOf(c: Cell, metric: Metric): real {
    match metric
    case MaxTemperature => c.avgMax
    case MinTemperature => c.avgMin
  }

  /** The domain of a view's colour scale and its legend's `tempRange`:
      `[d3.min(cellData, ...), d3.max(cellData, ...)]`, undefined with no cells. */
  function ColourDomain(cells: seq<Cell>, metric: Metric): (domain: Option<Range>)
    ensures domain.None? <==> |cells| == 0
    ensures domain.Some? ==> forall i :: 0 <= i < |cells| ==>
      domain.value.lo <= MetricOf(cells[i], metric) <= domain.value.hi
    ensures domain.Some? ==> exists i :: 0 <= i < |cells| && MetricOf(cells[i], metric) == domain.value.lo
    ensures domain.Some? ==> exists i :: 0 <= i < |cells| && MetricOf(cells[i], metric) == domain.value.hi
  {
    ValueRange(cells, (c: Cell) => MetricOf(c, metric))
  }

  /** The legend of a view: its stops run from the coldest to the warmest cell of the
      metric, and every cell's value lies between the first stop and the last. */
  lemma LegendSpansColourDomain(cells: seq<Cell>, metric: Metric)
    ensures LegendStops(ColourDomain(cells, metric)).Some? <==> |cells| > 0
    ensures |cells| > 0 ==>
      var stops := LegendStops(ColourDomain(cells, metric)).value;
      && (exists i :: 0 <= i < |cells| && MetricOf(cells[i], metric) == stops[0].value)
      && (exists i :: 0 <= i < |cells| && MetricOf(cells[i], metric) == stops[Intervals].value)
      && forall s :: 0 <= s <= Intervals ==> forall i :: 0 <= i < |cells| ==>
           stops[0].value <= stops[s].value <= stops[Intervals].value
           && stops[0].value <= MetricOf(cells[i], metric) <= stops[Intervals].value
  {
  }

  /** The y-domain of a cell's mini chart: one degree below the coldest daily minimum
      to one degree above the warmest daily maximum. */
  function MiniChartDomain(days: seq<Record>): (domain: Range)
    requires |days| > 0
    ensures forall i :: 0 <= i < |days| ==>
      domain.lo + 1.0 <= days[i].minTemperature && days[i].maxTemperature <= domain.hi - 1.0
    ensures exists i :: 0 <= i < |days| && days[i].minTemperature == domain.lo + 1.0
    ensures exists i :: 0 <= i < |days| && days[i].maxTemperature == domain.hi - 1.0
  {
    Range(MinBy(days, RecordMin) - 1.0, MaxBy(days, RecordMax) + 1.0)
  }

  /** When no day's minimum exceeds its maximum, both lines of a mini chart lie inside its
      y-domain with at least a degree to spare, and the domain is never degenerate. */
  lemma MiniChartFitsBothLines(days: seq<Record>)
    requires |days| > 0
    requires forall i :: 0 <= i < |days| ==> days[i].minTemperature <= days[i].maxTemperature
    ensures MiniChartDomain(days).lo + 2.0 <= MiniChartDomain(days).hi
    ensures forall i :: 0 <= i < |days| ==>
      && MiniChartDomain(days).lo + 1.0 <= days[i].minTemperature <= MiniChartDomain(days).hi - 1.0
      && MiniChartDomain(days).lo + 1.0 <= days[i].maxTemperature <= MiniChartDomain(days).hi - 1.0
  {
    var d := MiniChartDomain(days);
    assert d.lo + 1.0 <= days[0].minTemperature <= days[0].maxTemperature <= d.hi - 1.0;
  }
}
