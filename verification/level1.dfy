/** Level 1, the full-history heat map: `processData` groups the daily rows into
    (year, month) entries with a find-or-append loop, averages each entry's daily
    maxima and minima, rounds the means to one decimal and drops the days; the colour
    scales and the legend then span the range of the selected mean. */
module Level1 {
  import opened Options
  import opened Seqs
  import opened Strings
  import opened JsNumbers
  import opened Stats
  import opened Grouping
  import opened Legend
  import opened Table

  /** The key an entry is found by: the year piece of the date exactly as written,
      and `parseInt` of the month piece. */
  datatype MonthKey = MonthKey(year: string, month: JsNumber)

  /** One `{ max, min }` pushed onto an entry's `days`. */
  datatype DayTemps = DayTemps(max: real, min: real)

  /** An entry of `monthlyTemp` while the rows are being collected. */
  datatype Entry = Entry(year: string, month: JsNumber, days: seq<DayTemps>)

  /** An entry as `processData` returns it: rounded means, no days. */
  datatype MonthlyTemperature = MonthlyTemperature(year: string, month: JsNumber, maxTemperature: real, minTemperature: real)

  /** `d.date.split('-')`, then `dateParts[0]` and `parseInt(dateParts[1])`. */
  function KeyOf(row: Row): MonthKey {
    var parts := Split(row.date, '-');
    MonthKey(parts[0], ParseIntAt(parts, 1))
  }

  /** `entry.year === year && entry.month === month`: the years are equal strings and
      the months are equal numbers (NaN is equal to nothing, itself included). */
  predicate SameKey(a: MonthKey, b: MonthKey) {
    a.year == b.year && a.month.Int? && b.month.Int? && a.month.value == b.month.value
  }

  function DayOf(row: Row): DayTemps {
    DayTemps(row.maxTemperature, row.minTemperature)
  }

  function DayMax(d: DayTemps): real { d.max }
  function DayMin(d: DayTemps): real { d.min }
  function RowMax(r: Row): real { r.maxTemperature }
  function RowMin(r: Row): real { r.minTemperature }

  lemma SameKeyIsPartialEquivalence()
    ensures PartialEquivalence(SameKey)
  {
  }

  /** The rows grouped by the find-or-append loop (the rows themselves, whose
      `{ max, min }` pairs make up the entries' days). */
  function Groups(rows: seq<Row>): seq<Group<MonthKey, Row>> {
    GroupBy(rows, KeyOf, SameKey)
  }

  function EntryOf(g: Group<MonthKey, Row>): Entry {
    Entry(g.key.year, g.key.month, Map(g.items, DayOf))
  }

  /** `monthlyTemp` after the `rawData.forEach` loop: one entry per group, in order. */
  function Entries(rows: seq<Row>): (entries: seq<Entry>)
    ensures |entries| == |Groups(rows)|
    ensures forall p :: 0 <= p < |entries| ==> |entries[p].days| > 0
  {
    SameKeyIsPartialEquivalence();
    GroupByWellGrouped(rows, KeyOf, SameKey);
    Map(Groups(rows), EntryOf)
  }

  /** The rounded monthly means of one entry. */
  function Summarise(e: Entry): MonthlyTemperature
    requires |e.days| > 0
  {
    MonthlyTemperature(e.year, e.month,
      RoundToTenth(MeanBy(e.days, DayMax)),
      RoundToTenth(MeanBy(e.days, DayMin)))
  }

  /** `processData(rawData)`. */
  function ProcessData(rows: seq<Row>): (monthly: seq<MonthlyTemperature>)
    ensures |monthly| == |Entries(rows)|
    ensures forall p :: 0 <= p < |monthly| ==>
      && monthly[p].year == Entries(rows)[p].year
      && monthly[p].month == Entries(rows)[p].month
  {
    var entries := Entries(rows);
    seq(|entries|, p requires 0 <= p < |entries| => Summarise(entries[p]))
  }

  /** All the days held by the entries, entry after entry. */
  function AllDays(entries: seq<Entry>): seq<DayTemps>
    decreases |entries|
  {
    if |entries| == 0 then [] else entries[0].days + AllDays(entries[1..])
  }

  lemma {:induction false} AllDaysOfGroups(gs: seq<Group<MonthKey, Row>>)
    ensures AllDays(Map(gs, EntryOf)) == Map(Flatten(gs), DayOf)
    decreases |gs|
  {
    if |gs| > 0 {
      AllDaysOfGroups(gs[1..]);
      assert Map(gs, EntryOf)[1..] == Map(gs[1..], EntryOf);
      MapConcat(gs[0].items, Flatten(gs[1..]), DayOf);
    }
  }

  /** Every input row is pushed onto exactly one entry: the entries' days are the
      rows' `{ max, min }` pairs, each as often as in the input, so the day counts
      add up to the number of rows. */
  lemma EveryRowInOneEntry(rows: seq<Row>)
    ensures multiset(AllDays(Entries(rows))) == multiset(Map(rows, DayOf))
    ensures |AllDays(Entries(rows))| == |rows|
  {
    GroupByPartitions(rows, KeyOf, SameKey);
    AllDaysOfGroups(Groups(rows));
    MapPermutation(Flatten(Groups(rows)), rows, DayOf);
    assert |multiset(AllDays(Entries(rows)))| == |multiset(Map(rows, DayOf))|;
  }

  /** No two entries share a (year, month) key under `===`. */
  lemma EntryKeysDistinct(rows: seq<Row>)
    ensures forall p, q :: 0 <= p < q < |Entries(rows)| ==>
      !SameKey(MonthKey(Entries(rows)[p].year, Entries(rows)[p].month),
               MonthKey(Entries(rows)[q].year, Entries(rows)[q].month))
  {
    SameKeyIsPartialEquivalence();
    GroupByWellGrouped(rows, KeyOf, SameKey);
    var gs := Groups(rows);
    forall p | 0 <= p < |gs|
      ensures MonthKey(Entries(rows)[p].year, Entries(rows)[p].month) == gs[p].key
    {
    }
  }

  /** Entries appear in the order in which their keys first occur: entry `p` carries
      the key of the `p`-th row whose key matches no earlier row's. */
  lemma EntriesInFirstOccurrenceOrder(rows: seq<Row>)
    ensures |Entries(rows)| == |Openers(rows, KeyOf, SameKey)|
    ensures forall p :: 0 <= p < |Entries(rows)| ==>
      && 0 <= Openers(rows, KeyOf, SameKey)[p] < |rows|
      && MonthKey(Entries(rows)[p].year, Entries(rows)[p].month) == KeyOf(rows[Openers(rows, KeyOf, SameKey)[p]])
    ensures forall p, q :: 0 <= p < q < |Openers(rows, KeyOf, SameKey)| ==>
      Openers(rows, KeyOf, SameKey)[p] < Openers(rows, KeyOf, SameKey)[q]
    ensures forall i :: 0 <= i < |rows| ==>
      (i in Openers(rows, KeyOf, SameKey) <==> forall j :: 0 <= j < i ==> !SameKey(KeyOf(rows[j]), KeyOf(rows[i])))
  {
    SameKeyIsPartialEquivalence();
    GroupByFirstOccurrence(rows, KeyOf, SameKey);
    OpenersAreOpeners(rows, KeyOf, SameKey);
  }

  /** The rows whose key is `===`-equal to `k`. */
  function RowsWithKey(rows: seq<Row>, k: MonthKey): seq<Row> {
    Filter(rows, KeyMatches(k, KeyOf, SameKey))
  }

  /** Before rounding, an entry with a numeric month averages exactly the rows with its
      key; an entry with a NaN month holds the one row that opened it. */
  lemma EntryMeansOverItsRows(rows: seq<Row>)
    ensures forall p :: 0 <= p < |Entries(rows)| && Entries(rows)[p].month.Int? ==>
      var k := MonthKey(Entries(rows)[p].year, Entries(rows)[p].month);
      && |RowsWithKey(rows, k)| > 0
      && MeanBy(Entries(rows)[p].days, DayMax) == MeanBy(RowsWithKey(rows, k), RowMax)
      && MeanBy(Entries(rows)[p].days, DayMin) == MeanBy(RowsWithKey(rows, k), RowMin)
    ensures forall p :: 0 <= p < |Entries(rows)| && Entries(rows)[p].month.NaN? ==>
      |Entries(rows)[p].days| == 1
  {
    SameKeyIsPartialEquivalence();
    GroupByContents(rows, KeyOf, SameKey);
    var gs := Groups(rows);
    var entries := Entries(rows);
    forall p | 0 <= p < |entries| && entries[p].month.Int?
      ensures var k := MonthKey(entries[p].year, entries[p].month);
        && |RowsWithKey(rows, k)| > 0
        && MeanBy(entries[p].days, DayMax) == MeanBy(RowsWithKey(rows, k), RowMax)
        && MeanBy(entries[p].days, DayMin) == MeanBy(RowsWithKey(rows, k), RowMin)
    {
      var k := gs[p].key;
      assert MonthKey(entries[p].year, entries[p].month) == k;
      assert SameKey(k, k);
      MeanOfDays(gs[p].items);
    }
  }

  /** Averaging the `{ max, min }` pairs of some rows is averaging the rows' temperatures. */
  lemma {:induction false} SumOfDays(rs: seq<Row>)
    ensures SumBy(Map(rs, DayOf), DayMax) == SumBy(rs, RowMax)
    ensures SumBy(Map(rs, DayOf), DayMin) == SumBy(rs, RowMin)
    decreases |rs|
  {
    if |rs| > 0 {
      var n := |rs| - 1;
      SumOfDays(rs[..n]);
      assert Map(rs, DayOf)[..n] == Map(rs[..n], DayOf);
    }
  }

  lemma MeanOfDays(rs: seq<Row>)
    requires |rs| > 0
    ensures MeanBy(Map(rs, DayOf), DayMax) == MeanBy(rs, RowMax)
    ensures MeanBy(Map(rs, DayOf), DayMin) == MeanBy(rs, RowMin)
  {
    SumOfDays(rs);
  }

  /** `processData` reports, for each entry with a numeric month, the means over exactly
      the rows with its key, each rounded to a multiple of 0.1 at most 0.05 away; an
      entry with a NaN month reports the rounded temperatures of the one row that
      opened it. */
  lemma ProcessDataRoundsTheMeans(rows: seq<Row>)
    ensures forall p :: 0 <= p < |ProcessData(rows)| && ProcessData(rows)[p].month.Int? ==>
      var k := MonthKey(ProcessData(rows)[p].year, ProcessData(rows)[p].month);
      var m := ProcessData(rows)[p];
      && |RowsWithKey(rows, k)| > 0
      && m.maxTemperature == RoundToTenth(MeanBy(RowsWithKey(rows, k), RowMax))
      && m.minTemperature == RoundToTenth(MeanBy(RowsWithKey(rows, k), RowMin))
      && (m.maxTemperature * 10.0).Floor as real == m.maxTemperature * 10.0
      && MeanBy(RowsWithKey(rows, k), RowMax) - 0.05 < m.maxTemperature
      && m.maxTemperature <= MeanBy(RowsWithKey(rows, k), RowMax) + 0.05
      && (m.minTemperature * 10.0).Floor as real == m.minTemperature * 10.0
      && MeanBy(RowsWithKey(rows, k), RowMin) - 0.05 < m.minTemperature
      && m.minTemperature <= MeanBy(RowsWithKey(rows, k), RowMin) + 0.05
    ensures forall p :: 0 <= p < |ProcessData(rows)| && ProcessData(rows)[p].month.NaN? ==>
      && p < |Openers(rows, KeyOf, SameKey)|
      && 0 <= Openers(rows, KeyOf, SameKey)[p] < |rows|
      && |Entries(rows)[p].days| == 1
      && ProcessData(rows)[p].maxTemperature == RoundToTenth(rows[Openers(rows, KeyOf, SameKey)[p]].maxTemperature)
      && ProcessData(rows)[p].minTemperature == RoundToTenth(rows[Openers(rows, KeyOf, SameKey)[p]].minTemperature)
  {
    EntryMeansOverItsRows(rows);
    NaNMonthReportsItsOpener(rows);
  }

  lemma NaNMonthReportsItsOpener(rows: seq<Row>)
    ensures forall p :: 0 <= p < |ProcessData(rows)| && ProcessData(rows)[p].month.NaN? ==>
      && p < |Openers(rows, KeyOf, SameKey)|
      && 0 <= Openers(rows, KeyOf, SameKey)[p] < |rows|
      && |Entries(rows)[p].days| == 1
      && ProcessData(rows)[p].maxTemperature == RoundToTenth(rows[Openers(rows, KeyOf, SameKey)[p]].maxTemperature)
      && ProcessData(rows)[p].minTemperature == RoundToTenth(rows[Openers(rows, KeyOf, SameKey)[p]].minTemperature)
  {
    EntryMeansOverItsRows(rows);
    SameKeyIsPartialEquivalence();
    GroupByFirstOccurrence(rows, KeyOf, SameKey);
    var o := Openers(rows, KeyOf, SameKey);
    forall p | 0 <= p < |ProcessData(rows)| && ProcessData(rows)[p].month.NaN?
      ensures p < |o| && 0 <= o[p] < |rows| && |Entries(rows)[p].days| == 1
      ensures ProcessData(rows)[p].maxTemperature == RoundToTenth(rows[o[p]].maxTemperature)
      ensures ProcessData(rows)[p].minTemperature == RoundToTenth(rows[o[p]].minTemperature)
    {
      LoneDay(Entries(rows)[p], Groups(rows)[p], rows[o[p]]);
    }
  }

  /** An entry of one day, taken from row `r`, has that row's temperatures as means. */
  lemma LoneDay(e: Entry, g: Group<MonthKey, Row>, r: Row)
    requires e == EntryOf(g) && |e.days| == 1 && g.items[0] == r
    ensures MeanBy(e.days, DayMax) == r.maxTemperature
    ensures MeanBy(e.days, DayMin) == r.minTemperature
  {
    var d := e.days[0];
    assert d == DayOf(r);
    assert e.days[..0] == [];
    assert SumBy(e.days, DayMax) == SumBy(e.days[..0], DayMax) + DayMax(d);
    assert SumBy(e.days, DayMin) == SumBy(e.days[..0], DayMin) + DayMin(d);
  }

  /** `d[tempType]` for the selected view. */
  function MetricOf(m: MonthlyTemperature, metric: Metric): real {
    match metric
    case MaxTemperature => m.maxTemperature
    case MinTemperature => m.minTemperature
  }

  /** The domain of the view's colour scale, `[d3.min(...), d3.max(...)]` over the
      monthly means; the legend's `tempRange` is the same pair. Undefined when there
      are no months. */
  function ColourDomain(monthly: seq<MonthlyTemperature>, metric: Metric): (domain: Option<Range>)
    ensures domain.None? <==> |monthly| == 0
    ensures domain.Some? ==> forall p :: 0 <= p < |monthly| ==>
      domain.value.lo <= MetricOf(monthly[p], metric) <= domain.value.hi
    ensures domain.Some? ==> exists p :: 0 <= p < |monthly| && MetricOf(monthly[p], metric) == domain.value.lo
    ensures domain.Some? ==> exists p :: 0 <= p < |monthly| && MetricOf(monthly[p], metric) == domain.value.hi
  {
    ValueRange(monthly, (m: MonthlyTemperature) => MetricOf(m, metric))
  }

  /** The legend of a view: its stops run from the coldest to the warmest month of the
      metric, every one inside the colour scale's domain. */
  lemma LegendSpansColourDomain(monthly: seq<MonthlyTemperature>, metric: Metric)
    ensures LegendStops(ColourDomain(monthly, metric)).Some? <==> |monthly| > 0
    ensures |monthly| > 0 ==>
      var stops := LegendStops(ColourDomain(monthly, metric)).value;
      && (exists p :: 0 <= p < |monthly| && MetricOf(monthly[p], metric) == stops[0].value)
      && (exists p :: 0 <= p < |monthly| && MetricOf(monthly[p], metric) == stops[Intervals].value)
      && forall i :: 0 <= i <= Intervals ==> forall p :: 0 <= p < |monthly| ==>
           stops[0].value <= stops[i].value <= stops[Intervals].value
           && stops[0].value <= MetricOf(monthly[p], metric) <= stops[Intervals].value
  {
  }

  /** A date written `year-month-rest` with a decimal month is filed under the year
      as written and the month's numeric value. */
  lemma KeyOfDate(year: string, month: string, rest: string, hi: real, lo: real)
    requires '-' !in year
    requires IsDecimal(month)
    ensures KeyOf(Row(year + "-" + month + "-" + rest, hi, lo)) == MonthKey(year, Int(DigitsValue(month, 10)))
  {
    var date := year + "-" + month + "-" + rest;
    assert '-' !in month by {
      assert forall i :: 0 <= i < |month| ==> IsDigit(month[i], 10);
    }
    SplitDate(year, month, rest);
    var parts := Split(date, '-');
    assert parts[0] == year && parts[1] == month;
    ParseIntOfDecimal(month, "");
    assert month + "" == month;
    assert ParseIntAt(parts, 1) == ParseInt(month);
  }

  /** Zero-padded and unpadded months of the same year fall into the same entry
      (`parseInt("02") === parseInt("2")`), while the year is compared as text. */
  lemma PaddedMonthSharesEntry(year: string, month: string, rest1: string, rest2: string, row1: Row, row2: Row)
    requires '-' !in year
    requires IsDecimal(month)
    requires row1.date == year + "-" + ("0" + month) + "-" + rest1
    requires row2.date == year + "-" + month + "-" + rest2
    ensures SameKey(KeyOf(row1), KeyOf(row2))
  {
    LeadingZero(month, 10);
    KeyOfDate(year, "0" + month, rest1, row1.maxTemperature, row1.minTemperature);
    KeyOfDate(year, month, rest2, row2.maxTemperature, row2.minTemperature);
  }

  /** A date with no month piece has a NaN month, which is `===` to nothing: such a row
      never joins an existing entry. */
  lemma {:induction false} MissingMonthIsNaN(year: string, row: Row)
    requires '-' !in year
    requires row.date == year
    ensures KeyOf(row).month == NaN
    ensures forall k :: !SameKey(KeyOf(row), k) && !SameKey(k, KeyOf(row))
  {
    SplitWithout(year, '-');
  }
}
