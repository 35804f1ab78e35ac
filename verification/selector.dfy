/**
 * The batch history selector of the analytics screen: which records the
 * current view window shows and in what order, which record drives the
 * charts, and which years and months the archive offers.
 */
module Selector {
  import opened Options
  import opened Sequences
  import opened Dates
  import opened Batches

  /** `viewMode`: the live month, the archive date picker, or one archived month. */
  datatype ViewMode = Current | ArchiveMenu | ArchiveView

  /** Record `b` has a readable timestamp in year `y`. */
  predicate InYear(reader: DateReader, b: BatchRecord, y: int) {
    match ParseDate(reader, b.timestamp)
    case None => false
    case Some(d) => d.year == y
  }

  /**
   * Record `b` has a readable timestamp whose year and month are the target
   * ones; an absent target (`null`) matches nothing.
   */
  predicate InMonth(reader: DateReader, b: BatchRecord, year: Option<int>, month: Option<int>) {
    match ParseDate(reader, b.timestamp)
    case None => false
    case Some(d) => year == Some(d.year) && month == Some(d.month as int)
  }

  /** `InMonth` as the callback handed to `filter`. */
  function MonthTest(reader: DateReader, year: Option<int>, month: Option<int>): BatchRecord -> bool {
    b => InMonth(reader, b, year, month)
  }

  /** The target year: the clock's in the live view, `archiveYear` otherwise. */
  function TargetYear(mode: ViewMode, now: DateParts, archiveYear: Option<int>): Option<int> {
    if mode == Current then Some(now.year) else archiveYear
  }

  /** The target month: the clock's in the live view, `archiveMonth` otherwise. */
  function TargetMonth(mode: ViewMode, now: DateParts, archiveMonth: Option<int>): Option<int> {
    if mode == Current then Some(now.month as int) else archiveMonth
  }

  /** Every record carries its own id. */
  ghost predicate UniqueIds(records: seq<BatchRecord>) {
    DistinctKeys(records, BatchId)
  }

  /**
   * The records inside the target month, in input order: the `filter` step
   * of `filteredBatches`. Each record keeps its multiplicity if it matches
   * and disappears otherwise.
   */
  function Matching(reader: DateReader, records: seq<BatchRecord>, year: Option<int>, month: Option<int>)
    : (r: seq<BatchRecord>)
    ensures forall b :: multiset(r)[b] == (if InMonth(reader, b, year, month) then multiset(records)[b] else 0)
    ensures forall b :: b in r <==> b in records && InMonth(reader, b, year, month)
    ensures UniqueIds(records) ==> UniqueIds(r)
  {
    var r := Filter(records, MonthTest(reader, year, month));
    FilterMultiset(records, MonthTest(reader, year, month));
    assert UniqueIds(records) ==> UniqueIds(r) by {
      if UniqueIds(records) {
        FilterKeepsDistinctKeys(records, MonthTest(reader, year, month), BatchId);
      }
    }
    r
  }

  /**
   * `filteredBatches`: nothing in the archive date picker; otherwise the
   * records of the target month, largest id first. The order follows the
   * ids, not the timestamps, and the sort is stable among equal ids.
   */
  function FilteredBatches(reader: DateReader, records: seq<BatchRecord>, now: DateParts,
                           mode: ViewMode, archiveYear: Option<int>, archiveMonth: Option<int>)
    : (r: seq<BatchRecord>)
    ensures mode == ArchiveMenu ==> r == []
    ensures mode != ArchiveMenu ==>
              forall b :: multiset(r)[b] ==
                (if InMonth(reader, b, TargetYear(mode, now, archiveYear), TargetMonth(mode, now, archiveMonth))
                 then multiset(records)[b] else 0)
    ensures mode != ArchiveMenu ==> forall b :: b in r <==>
      b in records && InMonth(reader, b, TargetYear(mode, now, archiveYear), TargetMonth(mode, now, archiveMonth))
    ensures SortedDesc(r, BatchId)
    ensures UniqueIds(records) ==> StrictlyDesc(r, BatchId)
  {
    if mode == ArchiveMenu then []
    else
      var year, month := TargetYear(mode, now, archiveYear), TargetMonth(mode, now, archiveMonth);
      var m := Matching(reader, records, year, month);
      var r := SortDesc(m, BatchId);
      assert forall b :: b in r <==> b in multiset(r);
      assert forall b :: b in m <==> b in multiset(m);
      assert UniqueIds(records) ==> StrictlyDesc(r, BatchId) by {
        if UniqueIds(records) {
          SortDescStrict(m, BatchId);
        }
      }
      r
  }

  /**
   * Records sharing an id appear in the list in the order they arrived in:
   * the listed records of one id are that id's records, in input order,
   * with those outside the window dropped.
   */
  lemma FilteredBatchesStable(reader: DateReader, records: seq<BatchRecord>, now: DateParts,
                              mode: ViewMode, archiveYear: Option<int>, archiveMonth: Option<int>, id: int)
    requires mode != ArchiveMenu
    ensures WithKey(FilteredBatches(reader, records, now, mode, archiveYear, archiveMonth), BatchId, id)
         == Filter(WithKey(records, BatchId, id), MonthTest(reader, TargetYear(mode, now, archiveYear), TargetMonth(mode, now, archiveMonth)))
  {
    var test := MonthTest(reader, TargetYear(mode, now, archiveYear), TargetMonth(mode, now, archiveMonth));
    var m := Matching(reader, records, TargetYear(mode, now, archiveYear), TargetMonth(mode, now, archiveMonth));
    assert m == Filter(records, test);
    SortDescStable(m, BatchId, id);
    FilterWithKey(records, test, BatchId, id);
  }

  /**
   * With unique ids, the list depends only on which records there are, not
   * on the order the server sent them in.
   */
  lemma FilteredBatchesOrderFree(reader: DateReader, xs: seq<BatchRecord>, ys: seq<BatchRecord>, now: DateParts,
                                 mode: ViewMode, archiveYear: Option<int>, archiveMonth: Option<int>)
    requires UniqueIds(xs) && UniqueIds(ys)
    requires forall b :: b in xs <==> b in ys
    ensures FilteredBatches(reader, xs, now, mode, archiveYear, archiveMonth)
         == FilteredBatches(reader, ys, now, mode, archiveYear, archiveMonth)
  {
    StrictlyDescUnique(FilteredBatches(reader, xs, now, mode, archiveYear, archiveMonth),
                       FilteredBatches(reader, ys, now, mode, archiveYear, archiveMonth), BatchId);
  }

  /** `filteredBatches.find(b => b.id === selectedBatchId)`: the first position carrying the selected id. */
  function FindSelected(s: seq<BatchRecord>, selected: Option<int>): (r: Option<nat>)
    ensures r.Some? ==> r.value < |s| && selected == Some(s[r.value].id)
    ensures r.Some? ==> forall j | 0 <= j < r.value :: selected != Some(s[j].id)
    ensures r.None? ==> forall j | 0 <= j < |s| :: selected != Some(s[j].id)
  {
    if |s| == 0 then None
    else if selected == Some(s[0].id) then Some(0)
    else
      match FindSelected(s[1..], selected)
      case None => None
      case Some(i) => Some(i + 1)
  }

  /**
   * `activeBatch`: the empty sentinel for an empty list; otherwise the first
   * record carrying the selected id, or the head of the list when there is
   * none (including when nothing is selected).
   */
  function ActiveBatch(filtered: seq<BatchRecord>, selected: Option<int>): (a: Active)
    ensures a == NoBatch <==> |filtered| == 0
    ensures a.Batch? ==> a.record in filtered
    ensures a.Batch? && (exists i | 0 <= i < |filtered| :: selected == Some(filtered[i].id)) ==>
      exists i | 0 <= i < |filtered| :: a.record == filtered[i] && selected == Some(filtered[i].id)
        && forall j | 0 <= j < i :: selected != Some(filtered[j].id)
    ensures a.Batch? && (forall i | 0 <= i < |filtered| :: selected != Some(filtered[i].id)) ==>
      a.record == filtered[0]
  {
    if |filtered| == 0 then NoBatch
    else
      match FindSelected(filtered, selected)
      case Some(i) => Batch(filtered[i])
      case None => Batch(filtered[0])
  }

  /** With no record of the list selected, the head of the list is active. */
  lemma ActiveDefaultsToHead(filtered: seq<BatchRecord>, selected: Option<int>)
    requires |filtered| > 0
    requires forall b | b in filtered :: selected != Some(b.id)
    ensures ActiveBatch(filtered, selected) == Batch(filtered[0])
  {
    assert forall i | 0 <= i < |filtered| :: filtered[i] in filtered;
  }

  /** The head of a list sorted by descending id carries the largest id. */
  lemma HeadHasLargestId(filtered: seq<BatchRecord>)
    requires |filtered| > 0 && SortedDesc(filtered, BatchId)
    ensures forall b | b in filtered :: b.id <= filtered[0].id
  {
    forall b | b in filtered ensures b.id <= filtered[0].id {
      var i :| 0 <= i < |filtered| && filtered[i] == b;
      if i > 0 {
        assert BatchId(filtered[0]) >= BatchId(filtered[i]);
      }
    }
  }

  /**
   * Without a selection inside the window, the charts show the window's
   * record with the largest id: the most recently inserted one, whatever
   * the timestamps say.
   */
  lemma DefaultActiveIsNewest(reader: DateReader, records: seq<BatchRecord>, now: DateParts,
                              mode: ViewMode, archiveYear: Option<int>, archiveMonth: Option<int>, selected: Option<int>)
    requires mode != ArchiveMenu
    requires forall b | b in records && InMonth(reader, b, TargetYear(mode, now, archiveYear), TargetMonth(mode, now, archiveMonth))
      :: selected != Some(b.id)
    ensures var f := FilteredBatches(reader, records, now, mode, archiveYear, archiveMonth);
      var a := ActiveBatch(f, selected);
      a.Batch? ==> forall b | b in records && InMonth(reader, b, TargetYear(mode, now, archiveYear), TargetMonth(mode, now, archiveMonth))
        :: b.id <= a.record.id
  {
    var f := FilteredBatches(reader, records, now, mode, archiveYear, archiveMonth);
    if |f| > 0 {
      ActiveDefaultsToHead(f, selected);
      HeadHasLargestId(f);
    }
  }

  /** The years of readable timestamps. */
  function YearsOf(reader: DateReader, records: seq<BatchRecord>): (ys: seq<int>)
    ensures forall y :: y in ys <==> exists b | b in records :: InYear(reader, b, y)
  {
    if |records| == 0 then []
    else
      var head := records[0];
      var rest := YearsOf(reader, records[1..]);
      assert records == [head] + records[1..];
      match ParseDate(reader, head.timestamp)
      case None => rest
      case Some(d) =>
        var r := [d.year] + rest;
        assert forall y :: y in r <==> exists b | b in records :: InYear(reader, b, y) by {
          forall y ensures y in r <==> exists b | b in records :: InYear(reader, b, y) {
            if y == d.year {
              assert InYear(reader, head, y);
            }
            if exists b | b in records :: InYear(reader, b, y) {
              var b :| b in records && InYear(reader, b, y);
              assert b == head || b in records[1..];
            }
          }
        }
        r
  }

  /** `availableYears`: each year with a readable record once, latest first. */
  function AvailableYears(reader: DateReader, records: seq<BatchRecord>): (r: seq<int>)
    ensures forall y :: y in r <==> exists b | b in records :: InYear(reader, b, y)
    ensures StrictlyDesc(r, Id)
  {
    DistinctDesc(YearsOf(reader, records))
  }

  /** The months of readable timestamps in year `y`. */
  function MonthsOf(reader: DateReader, records: seq<BatchRecord>, y: int): (ms: seq<int>)
    ensures forall m :: m in ms <==> exists b | b in records :: InMonth(reader, b, Some(y), Some(m))
    ensures forall m | m in ms :: 0 <= m < 12
  {
    if |records| == 0 then []
    else
      var head := records[0];
      var rest := MonthsOf(reader, records[1..], y);
      assert records == [head] + records[1..];
      match ParseDate(reader, head.timestamp)
      case None => rest
      case Some(d) =>
        if d.year != y then rest
        else
          var r := [d.month as int] + rest;
          assert forall m :: m in r <==> exists b | b in records :: InMonth(reader, b, Some(y), Some(m)) by {
            forall m ensures m in r <==> exists b | b in records :: InMonth(reader, b, Some(y), Some(m)) {
              if m == d.month as int {
                assert InMonth(reader, head, Some(y), Some(m));
              }
              if exists b | b in records :: InMonth(reader, b, Some(y), Some(m)) {
                var b :| b in records && InMonth(reader, b, Some(y), Some(m));
                assert b == head || b in records[1..];
              }
            }
          }
          r
  }

  /** `getMonthsForYear(y)`: each 0-based month of `y` with a readable record once, latest first. */
  function MonthsForYear(reader: DateReader, records: seq<BatchRecord>, y: int): (r: seq<int>)
    ensures forall m :: m in r <==> exists b | b in records :: InMonth(reader, b, Some(y), Some(m))
    ensures forall m | m in r :: 0 <= m < 12
    ensures StrictlyDesc(r, Id)
    ensures r == [] <==> forall b | b in records :: !InYear(reader, b, y)
  {
    var r := DistinctDesc(MonthsOf(reader, records, y));
    assert r == [] <==> forall b | b in records :: !InYear(reader, b, y) by {
      if b :| b in records && InYear(reader, b, y) {
        var m := ParseDate(reader, b.timestamp).value.month as int;
        assert InMonth(reader, b, Some(y), Some(m));
        assert m in r;
      }
      if r != [] {
        assert r[0] in r;
        var b :| b in records && InMonth(reader, b, Some(y), Some(r[0]));
        assert InYear(reader, b, y);
      }
    }
    r
  }

  /** The year list depends only on which records there are. */
  lemma AvailableYearsOrderFree(reader: DateReader, xs: seq<BatchRecord>, ys: seq<BatchRecord>)
    requires forall b :: b in xs <==> b in ys
    ensures AvailableYears(reader, xs) == AvailableYears(reader, ys)
  {
    DistinctDescSameElements(YearsOf(reader, xs), YearsOf(reader, ys));
  }

  /** The month list of a year depends only on which records there are. */
  lemma MonthsForYearOrderFree(reader: DateReader, xs: seq<BatchRecord>, ys: seq<BatchRecord>, y: int)
    requires forall b :: b in xs <==> b in ys
    ensures MonthsForYear(reader, xs, y) == MonthsForYear(reader, ys, y)
  {
    DistinctDescSameElements(MonthsOf(reader, xs, y), MonthsOf(reader, ys, y));
  }

  /** A month offered for an offered year selects at least one record. */
  lemma OfferedMonthIsNonEmpty(reader: DateReader, records: seq<BatchRecord>, now: DateParts, y: int, m: int)
    requires m in MonthsForYear(reader, records, y)
    ensures |FilteredBatches(reader, records, now, ArchiveView, Some(y), Some(m))| > 0
  {
    var b :| b in records && InMonth(reader, b, Some(y), Some(m));
    assert b in FilteredBatches(reader, records, now, ArchiveView, Some(y), Some(m));
  }
}
