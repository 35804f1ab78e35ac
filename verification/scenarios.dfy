/**
 * Worked examples of the selector on concrete records. The date reader is
 * left open except for the timestamps each example uses.
 */
module Scenarios {
  import opened Options
  import opened Sequences
  import opened Dates
  import opened Batches
  import opened Selector

  function Record(id: int, ts: string, total: nat): BatchRecord {
    BatchRecord(id, None, Some(ts), total, 0, 0, 0, 0, 0)
  }

  /** Two records of the shown month are listed by id, whatever their timestamps. */
  lemma TwoInWindow(reader: DateReader, x: BatchRecord, y: BatchRecord, now: DateParts,
                    mode: ViewMode, archiveYear: Option<int>, archiveMonth: Option<int>)
    requires mode != ArchiveMenu && x.id < y.id
    requires InMonth(reader, x, TargetYear(mode, now, archiveYear), TargetMonth(mode, now, archiveMonth))
    requires InMonth(reader, y, TargetYear(mode, now, archiveYear), TargetMonth(mode, now, archiveMonth))
    ensures FilteredBatches(reader, [x, y], now, mode, archiveYear, archiveMonth) == [y, x]
  {
    var f := FilteredBatches(reader, [x, y], now, mode, archiveYear, archiveMonth);
    assert UniqueIds([x, y]);
    assert forall b :: b in f <==> b in [y, x];
    StrictlyDescUnique(f, [y, x], BatchId);
  }

  /** The server's timestamp form reaches the reader in ISO 8601 form. */
  lemma ReadsServerStamp(reader: DateReader, s: string, iso: string, d: DateParts)
    requires |s| == 19 && s[10] == ' ' && ' ' !in s[..10]
    requires iso == s[..10] + "T" + s[11..]
    requires reader(iso) == Some(d)
    ensures ParseDate(reader, Some(s)) == Some(d)
  {
    ParseDateSeesIsoForm(reader, s);
  }

  /**
   * When every readable record falls in month `m` of year `y`, and one does,
   * the archive offers exactly that year and that month.
   */
  lemma SingleMonthArchive(reader: DateReader, records: seq<BatchRecord>, y: int, m: int, sample: BatchRecord)
    requires sample in records && InMonth(reader, sample, Some(y), Some(m))
    requires forall b | b in records && ParseDate(reader, b.timestamp).Some? ::
      InMonth(reader, b, Some(y), Some(m))
    ensures AvailableYears(reader, records) == [y]
    ensures MonthsForYear(reader, records, y) == [m]
  {
    var ys := AvailableYears(reader, records);
    assert InYear(reader, sample, y);
    assert forall x :: x in ys <==> x in [y];
    StrictlyDescUnique(ys, [y], Id);
    var ms := MonthsForYear(reader, records, y);
    assert forall x :: x in ms <==> x in [m];
    StrictlyDescUnique(ms, [m], Id);
  }

  // The concrete numbers and timestamps of these examples are parameters pinned by
  // `requires x == literal`: applied to a literal directly, the recursive renderers
  // unfold on constants far past what the verifier can afford.

  /** Hour 11 renders as `11`. */
  lemma Eleven(h: nat)
    requires h == 11
    ensures NatToString(h) == "11"
  {
    assert NatToString(1) == [DigitChar(1)] == "1";
    assert NatToString(h) == NatToString(1) + [DigitChar(1)];
  }

  /** Minute 30 renders as `30`. */
  lemma Thirty(m: Minute)
    requires m == 30
    ensures MinuteText(m) == "30"
  {
    assert NatToString(3) == [DigitChar(3)] == "3";
    assert NatToString(m) == NatToString(3) + [DigitChar(0)] == "30";
  }

  /**
   * Two March 2024 records viewed live on 15 March 2024: both are listed,
   * the later id first, and with nothing selected that one drives the charts.
   */
  lemma LiveMonthExample(reader: DateReader, stamp1: string, stamp2: string)
    requires stamp1 == "2024-03-05 10:00:00" && stamp2 == "2024-03-06 11:30:00"
    requires reader("2024-03-05T10:00:00") == Some(DateParts(2024, 2, 5, 10, 0))
    requires reader("2024-03-06T11:30:00") == Some(DateParts(2024, 2, 6, 11, 30))
    ensures var r1, r2 := Record(1, stamp1, 50), Record(2, stamp2, 70);
      var f := FilteredBatches(reader, [r1, r2], DateParts(2024, 2, 15, 9, 0), Current, None, None);
      f == [r2, r1] && ActiveBatch(f, None) == Batch(r2)
  {
    var r1, r2 := Record(1, stamp1, 50), Record(2, stamp2, 70);
    ReadsServerStamp(reader, stamp1, "2024-03-05T10:00:00", DateParts(2024, 2, 5, 10, 0));
    ReadsServerStamp(reader, stamp2, "2024-03-06T11:30:00", DateParts(2024, 2, 6, 11, 30));
    TwoInWindow(reader, r1, r2, DateParts(2024, 2, 15, 9, 0), Current, None, None);
  }

  /** The timestamp `2024-03-06 11:30:00` renders as `Mar 6 - 11:30`. */
  lemma FormatExample(reader: DateReader, dateLabel: DateParts -> string, stamp: string)
    requires stamp == "2024-03-06 11:30:00"
    requires reader("2024-03-06T11:30:00") == Some(DateParts(2024, 2, 6, 11, 30))
    requires dateLabel(DateParts(2024, 2, 6, 11, 30)) == "Mar 6"
    ensures FormatDate(reader, dateLabel, Some(stamp)) == "Mar 6 - 11:30"
  {
    ReadsServerStamp(reader, stamp, "2024-03-06T11:30:00", DateParts(2024, 2, 6, 11, 30));
    Eleven(11);
    Thirty(30);
    assert "Mar 6" + " - " + "11" + ":" + "30" == "Mar 6 - 11:30";
  }

  /**
   * Ids order the list, not timestamps: the record with id 6 stamped on
   * 1 January precedes the one with id 5 stamped on 2 January.
   */
  lemma IdBeatsTimestampExample(reader: DateReader, stamp5: string, stamp6: string)
    requires stamp5 == "2024-01-02 08:00:00" && stamp6 == "2024-01-01 08:00:00"
    requires reader("2024-01-02T08:00:00") == Some(DateParts(2024, 0, 2, 8, 0))
    requires reader("2024-01-01T08:00:00") == Some(DateParts(2024, 0, 1, 8, 0))
    ensures var a, b := Record(5, stamp5, 10), Record(6, stamp6, 10);
      FilteredBatches(reader, [a, b], DateParts(2024, 0, 20, 12, 0), Current, None, None) == [b, a]
  {
    var a, b := Record(5, stamp5, 10), Record(6, stamp6, 10);
    ReadsServerStamp(reader, stamp5, "2024-01-02T08:00:00", DateParts(2024, 0, 2, 8, 0));
    ReadsServerStamp(reader, stamp6, "2024-01-01T08:00:00", DateParts(2024, 0, 1, 8, 0));
    TwoInWindow(reader, a, b, DateParts(2024, 0, 20, 12, 0), Current, None, None);
  }

  /**
   * An unreadable timestamp beside two March 2024 records contributes
   * nothing to the archive: the years offered are just 2024, and its months
   * just March.
   */
  lemma UnreadableRecordExample(reader: DateReader, stamp1: string, stamp2: string, bad: string)
    requires stamp1 == "2024-03-05 10:00:00" && stamp2 == "2024-03-06 11:30:00" && bad == "not-a-date"
    requires reader("2024-03-05T10:00:00") == Some(DateParts(2024, 2, 5, 10, 0))
    requires reader("2024-03-06T11:30:00") == Some(DateParts(2024, 2, 6, 11, 30))
    requires reader(bad) == None
    ensures var records := [Record(1, stamp1, 50), Record(2, stamp2, 70), Record(3, bad, 5)];
      && AvailableYears(reader, records) == [2024]
      && MonthsForYear(reader, records, 2024) == [2]
  {
    var records := [Record(1, stamp1, 50), Record(2, stamp2, 70), Record(3, bad, 5)];
    ReadsServerStamp(reader, stamp1, "2024-03-05T10:00:00", DateParts(2024, 2, 5, 10, 0));
    ReadsServerStamp(reader, stamp2, "2024-03-06T11:30:00", DateParts(2024, 2, 6, 11, 30));
    ParseDateWithoutSpace(reader, bad);
    SingleMonthArchive(reader, records, 2024, 2, records[0]);
  }
}
