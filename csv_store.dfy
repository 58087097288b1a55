/** The store of imported revenue rows shared by the pages: rows are appended or cleared,
    and read back through a date window (yesterday, the last 7 or 30 days, or a custom
    range inclusive at both ends). */
module CsvStore {
  import opened Wrappers
  import Seqs
  import CsvImport

  type CsvRow = CsvImport.CsvRow

  /** The instants the date windows are measured from, read off the clock by the caller:
      yesterday's date as `YYYY-MM-DD`, and the instants seven and thirty days ago in
      milliseconds. */
  datatype Clock = Clock(yesterday: string, sevenDaysAgo: int, thirtyDaysAgo: int)

  /** A custom window, as the two date strings the user typed. */
  datatype DateRange = DateRange(start: string, end: string)

  /** `new Date(a) >= b`: false when `a` is not a date (an Invalid Date compares false). */
  predicate AtOrAfter(a: Option<int>, b: int)
  {
    a.Some? && a.value >= b
  }

  /** `start <= d && d <= end` on three parsed dates; false when any of them is invalid. */
  predicate Between(d: Option<int>, start: Option<int>, end: Option<int>)
  {
    d.Some? && start.Some? && end.Some? && start.value <= d.value <= end.value
  }

  /** Whether `getFilteredData` keeps a row, for the selected filter. `instant` reads a
      date string as milliseconds, `None` standing for an Invalid Date. */
  predicate Keeps(dateFilter: string, range: Option<DateRange>, clock: Clock,
                  instant: string -> Option<int>, row: CsvRow)
  {
    if dateFilter == "yesterday" then row.date == clock.yesterday
    else if dateFilter == "7days" then AtOrAfter(instant(row.date), clock.sevenDaysAgo)
    else if dateFilter == "30days" then AtOrAfter(instant(row.date), clock.thirtyDaysAgo)
    else if dateFilter == "custom" && range.Some? then
      Between(instant(row.date), instant(range.value.start), instant(range.value.end))
    else true
  }

  /** `getFilteredData`: the stored rows the filter keeps, in their stored order. */
  function GetFilteredData(csvData: seq<CsvRow>, dateFilter: string, range: Option<DateRange>,
                           clock: Clock, instant: string -> Option<int>): (r: seq<CsvRow>)
    ensures Seqs.IsSubseq(r, csvData)
    ensures forall row :: row in r <==> row in csvData && Keeps(dateFilter, range, clock, instant, row)
    ensures forall row :: multiset(r)[row] ==
              if Keeps(dateFilter, range, clock, instant, row) then multiset(csvData)[row] else 0
  {
    Seqs.FilterMultiset(csvData, row => Keeps(dateFilter, range, clock, instant, row));
    Seqs.Filter(csvData, row => Keeps(dateFilter, range, clock, instant, row))
  }

  /** An unrecognised filter, or `custom` without a range, returns every row. */
  lemma NoFilterKeepsAll(csvData: seq<CsvRow>, dateFilter: string, range: Option<DateRange>,
                         clock: Clock, instant: string -> Option<int>)
    requires dateFilter !in {"yesterday", "7days", "30days", "custom"}
             || (dateFilter == "custom" && range.None?)
    ensures GetFilteredData(csvData, dateFilter, range, clock, instant) == csvData
  {
    Seqs.FilterAll(csvData, row => Keeps(dateFilter, range, clock, instant, row));
  }

  /** A custom range keeps a row exactly when its date and both bounds are valid dates and
      the row's date lies between the bounds, both ends included. */
  lemma CustomRangeInclusive(csvData: seq<CsvRow>, range: DateRange, clock: Clock,
                             instant: string -> Option<int>, row: CsvRow)
    requires row in csvData
    ensures row in GetFilteredData(csvData, "custom", Some(range), clock, instant) <==>
              && instant(row.date).Some? && instant(range.start).Some? && instant(range.end).Some?
              && instant(range.start).value <= instant(row.date).value <= instant(range.end).value
    ensures && instant(range.start).Some? && instant(range.end).Some?
            && instant(range.start).value <= instant(range.end).value
            && (instant(row.date) == instant(range.start) || instant(row.date) == instant(range.end))
            ==> row in GetFilteredData(csvData, "custom", Some(range), clock, instant)
  {
  }

  /** `yesterday` keeps exactly the rows whose date string is yesterday's. */
  lemma YesterdayExact(csvData: seq<CsvRow>, range: Option<DateRange>, clock: Clock,
                       instant: string -> Option<int>)
    ensures forall row :: row in GetFilteredData(csvData, "yesterday", range, clock, instant) <==>
              row in csvData && row.date == clock.yesterday
  {
  }

  /** The 30-day window holds every row of the 7-day window, in the same order, when
      thirty days ago is no later than seven days ago. */
  lemma SevenDaysWithinThirty(csvData: seq<CsvRow>, range: Option<DateRange>, clock: Clock,
                              instant: string -> Option<int>)
    requires clock.thirtyDaysAgo <= clock.sevenDaysAgo
    ensures Seqs.IsSubseq(GetFilteredData(csvData, "7days", range, clock, instant),
                          GetFilteredData(csvData, "30days", range, clock, instant))
  {
    var seven := row => Keeps("7days", range, clock, instant, row);
    var thirty := row => Keeps("30days", range, clock, instant, row);
    FilterNarrower(csvData, seven, thirty);
  }

  /** Filtering by a stronger predicate picks a subsequence of what the weaker one picks. */
  lemma {:induction false} FilterNarrower(s: seq<CsvRow>, p: CsvRow -> bool, q: CsvRow -> bool)
    requires forall x :: p(x) ==> q(x)
    ensures Seqs.IsSubseq(Seqs.Filter(s, p), Seqs.Filter(s, q))
  {
    if s != [] {
      FilterNarrower(s[1..], p, q);
      var fp, fq := Seqs.Filter(s[1..], p), Seqs.Filter(s[1..], q);
      if p(s[0]) {
        assert ([s[0]] + fp)[1..] == fp && ([s[0]] + fq)[1..] == fq;
      } else if q(s[0]) {
        assert ([s[0]] + fq)[1..] == fq;
        SubseqDropFront(fp, fq, s[0]);
      }
    }
  }

  /** A subsequence of `t` is a subsequence of `[x] + t`. */
  lemma {:induction false} SubseqDropFront(r: seq<CsvRow>, t: seq<CsvRow>, x: CsvRow)
    requires Seqs.IsSubseq(r, t)
    ensures Seqs.IsSubseq(r, [x] + t)
  {
    assert ([x] + t)[1..] == t;
  }

  /** Filtering the rows after an import gives the old filtered rows followed by the
      filtered new ones. */
  lemma FilterAfterAdd(before: seq<CsvRow>, added: seq<CsvRow>, dateFilter: string,
                       range: Option<DateRange>, clock: Clock, instant: string -> Option<int>)
    ensures GetFilteredData(before + added, dateFilter, range, clock, instant)
            == GetFilteredData(before, dateFilter, range, clock, instant)
               + GetFilteredData(added, dateFilter, range, clock, instant)
  {
    Seqs.FilterAppend(before, added, row => Keeps(dateFilter, range, clock, instant, row));
  }

  /** The provider's state: the stored rows. */
  class Store {
    var csvData: seq<CsvRow>

    constructor ()
      ensures csvData == []
    {
      csvData := [];
    }

    /** `addCSVData`: the new rows go after the existing ones, both orders kept. */
    method AddCsvData(data: seq<CsvRow>)
      modifies this
      ensures csvData == old(csvData) + data
      ensures csvData[..|old(csvData)|] == old(csvData) && csvData[|old(csvData)|..] == data
    {
      csvData := csvData + data;
    }

    /** `clearCSVData`: the store is left empty. */
    method ClearCsvData()
      modifies this
      ensures csvData == []
    {
      csvData := [];
    }
  }
}
