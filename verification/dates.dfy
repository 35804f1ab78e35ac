/**
 * Timestamps of batch records and how the analytics screen reads and
 * renders them. JavaScript's `Date` constructor is not modelled: it is the
 * uninterpreted partial function `DateReader`, supplied by the caller.
 */
module Dates {
  import opened Options

  type Month = m: int | 0 <= m < 12
  type Hour = h: int | 0 <= h < 24
  type Minute = m: int | 0 <= m < 60

  /** The local-time fields `getFullYear`, `getMonth` (0-based), `getDate`, `getHours`, `getMinutes`. */
  datatype DateParts = DateParts(year: int, month: Month, day: int, hour: Hour, minute: Minute)

  /**
   * `new Date(s)` followed by the `isNaN(d.getTime())` test: the fields of the
   * instant `s` denotes in local time, or `None` when `s` is not a date.
   */
  type DateReader = string -> Option<DateParts>

  /** Position `i` of `s` holds the first space of `s`. */
  ghost predicate IsFirstSpace(s: string, i: int)
    requires 0 <= i < |s|
  {
    s[i] == ' ' && ' ' !in s[..i]
  }

  /** `s.replace(' ', 'T')`: a string pattern replaces only the first space. */
  function ReplaceFirstSpace(s: string): (r: string)
    ensures |r| == |s|
    ensures forall i | 0 <= i < |s| :: r[i] == if IsFirstSpace(s, i) then 'T' else s[i]
  {
    if |s| == 0 then s
    else if s[0] == ' ' then
      var r := "T" + s[1..];
      assert forall i | 0 < i < |s| :: s[..i][0] == ' ';
      r
    else
      var rest := ReplaceFirstSpace(s[1..]);
      var r := [s[0]] + rest;
      assert forall i | 0 < i < |s| :: IsFirstSpace(s, i) == IsFirstSpace(s[1..], i - 1) by {
        forall i | 0 < i < |s| ensures IsFirstSpace(s, i) == IsFirstSpace(s[1..], i - 1) {
          assert s[..i] == [s[0]] + s[1..][..i - 1];
        }
      }
      r
  }

  /** Without a space, the replacement changes nothing. */
  lemma ReplaceWithoutSpace(s: string)
    requires ' ' !in s
    ensures ReplaceFirstSpace(s) == s
  {
  }

  /**
   * `parseDate`: a missing or empty timestamp is not a date; otherwise the
   * first space is turned into the ISO 8601 date/time separator `T` and the
   * result is handed to the reader.
   */
  function ParseDate(reader: DateReader, ts: Option<string>): (r: Option<DateParts>)
    ensures ts == None || ts == Some("") ==> r == None
    ensures ts.Some? && ts.value != "" ==> r == reader(ReplaceFirstSpace(ts.value))
  {
    match ts
    case None => None
    case Some(s) => if s == "" then None else reader(ReplaceFirstSpace(s))
  }

  /**
   * A server timestamp `YYYY-MM-DD HH:MM:SS` reaches the reader as
   * `YYYY-MM-DDTHH:MM:SS`: the date part is kept, its one separator becomes `T`.
   */
  lemma ParseDateSeesIsoForm(reader: DateReader, s: string)
    requires |s| > 10 && s[10] == ' ' && ' ' !in s[..10]
    ensures ParseDate(reader, Some(s)) == reader(s[..10] + "T" + s[11..])
  {
    var r := ReplaceFirstSpace(s);
    var iso := s[..10] + "T" + s[11..];
    forall k | 0 <= k < |s| ensures r[k] == iso[k] {
      if k > 10 {
        assert s[..k][10] == ' ';
      } else if k < 10 {
        assert s[..10][k] == s[k];
      }
    }
    assert r == iso;
  }

  /** A non-empty timestamp without a space reaches the reader unchanged. */
  lemma ParseDateWithoutSpace(reader: DateReader, s: string)
    requires s != "" && ' ' !in s
    ensures ParseDate(reader, Some(s)) == reader(s)
  {
    ReplaceWithoutSpace(s);
  }

  // ----- decimal rendering --------------------------------------------------

  predicate IsDigit(c: char) { '0' <= c <= '9' }

  ghost predicate IsDigits(s: string) {
    forall i | 0 <= i < |s| :: IsDigit(s[i])
  }

  function DigitChar(d: nat): (c: char)
    requires d < 10
    ensures IsDigit(c) && c as int - '0' as int == d
  {
    ('0' as int + d) as char
  }

  /** The number a string of decimal digits denotes, most significant first. */
  ghost function DigitsValue(s: string): nat
    requires IsDigits(s)
  {
    if |s| == 0 then 0
    else 10 * DigitsValue(s[..|s| - 1]) + (s[|s| - 1] as int - '0' as int)
  }

  /** `n.toString()` for a non-negative integer: its decimal digits, without leading zeros. */
  function NatToString(n: nat): (r: string)
    ensures IsDigits(r) && DigitsValue(r) == n
    ensures |r| == 1 <==> n < 10
    ensures n < 100 ==> |r| <= 2
    ensures |r| > 1 ==> r[0] != '0'
  {
    if n < 10 then [DigitChar(n)]
    else
      var prefix := NatToString(n / 10);
      var r := prefix + [DigitChar(n % 10)];
      assert r[..|r| - 1] == prefix;
      r
  }

  /** `s.padStart(width, fill)`: `s` preceded by as many `fill` characters as it lacks of `width`. */
  function PadStart(s: string, width: nat, fill: char): (r: string)
    ensures |r| == if |s| >= width then |s| else width
    ensures r[|r| - |s|..] == s
    ensures forall i | 0 <= i < |r| - |s| :: r[i] == fill
    decreases width - |s|
  {
    if |s| >= width then s
    else
      var t := [fill] + s;
      var r := PadStart(t, width, fill);
      assert r[|r| - |t|..] == t;
      assert r[|r| - |s|..] == t[1..] == s;
      assert r[|r| - |t|] == t[0] == fill;
      r
  }

  /** `d.getMinutes().toString().padStart(2, '0')`. */
  function MinuteText(m: Minute): (r: string)
    ensures |r| == 2 && IsDigits(r) && DigitsValue(r) == m
  {
    var digits := NatToString(m);
    var r := PadStart(digits, 2, '0');
    assert DigitsValue(r) == m by {
      if |digits| == 1 {
        assert r == ['0', digits[0]];
        assert r[..1] == ['0'] && r[..1][..0] == [];
      } else {
        assert r == digits;
      }
    }
    r
  }

  const Placeholder: string := "--:--"

  /**
   * `formatDate`: an unreadable timestamp renders as the placeholder `--:--`;
   * otherwise the locale date label (`toLocaleDateString`, supplied as
   * `dateLabel`), then ` - `, the hour and the two-digit minute.
   */
  function FormatDate(reader: DateReader, dateLabel: DateParts -> string, ts: Option<string>): (r: string)
    ensures r == Placeholder <==> ParseDate(reader, ts) == None
    ensures ParseDate(reader, ts).Some? ==>
      && |r| >= 3 && r[|r| - 3] == ':'
      && IsDigits(r[|r| - 2..])
      && DigitsValue(r[|r| - 2..]) == ParseDate(reader, ts).value.minute
    ensures ParseDate(reader, ts).Some? ==>
      var d := ParseDate(reader, ts).value;
      exists hour :: IsDigits(hour) && DigitsValue(hour) == d.hour && 1 <= |hour| <= 2
        && (|hour| == 2 ==> hour[0] != '0')
        && r == dateLabel(d) + " - " + hour + ":" + MinuteText(d.minute)
  {
    match ParseDate(reader, ts)
    case None => Placeholder
    case Some(d) =>
      var minute := MinuteText(d.minute);
      var r := dateLabel(d) + " - " + NatToString(d.hour) + ":" + minute;
      assert r[|r| - 2..] == minute;
      assert r[|r| - 3] == ':';
      assert r[|r| - 1] == minute[1] && IsDigit(minute[1]);
      assert Placeholder[|Placeholder| - 1] == '-';
      var hour := NatToString(d.hour);
      assert IsDigits(hour) && DigitsValue(hour) == d.hour && 1 <= |hour| <= 2 && (|hour| == 2 ==> hour[0] != '0');
      r
  }
}
