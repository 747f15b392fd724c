/** minutize.py: reads the normalised log, skips its header, and writes one
    `YYYY-MM-DD HH:MM,activity` record per minute of each row, counting back
    from the row's end time. */
module Minutize {
  import opened Wrappers
  import opened Text
  import opened Calendar

  const MinutesHeader: string := "date_time,activity"

  /** The exceptions the script can die with, in the order it meets them. */
  datatype Error =
    | MalformedRow          // IndexError: fewer than four comma fields
    | BadDuration           // ValueError from int() on the minutes field
    | MalformedTimestamp    // IndexError or ValueError while taking the end field apart
    | InvalidCalendarValue  // ValueError from datetime(): a field out of range
                            // (OverflowError for a field outside the C int range)
    | BeforeYearOne         // OverflowError: a decrement went below 0001-01-01 00:00

  /** What one data row contributes: its activity, its end time and its length. */
  datatype Row = Row(activity: string, end: DateTime, minutes: int)

  /** The five texts lines 26 to 30 cut from an end field `Y-M-D H:M`: year
      and month are the first two `-` pieces, the day is the third `-` piece
      up to a space, hour and minute are the first two `:` pieces of the
      second space-separated piece. None is the IndexError of a missing piece. */
  function EndFields(s: string): Option<seq<string>>
  {
    var dash := Split(s, '-');
    var space := Split(s, ' ');
    if |dash| < 3 || |space| < 2 then None
    else
      var colon := Split(space[1], ':');
      if |colon| < 2 then None
      else Some([dash[0], dash[1], Split(dash[2], ' ')[0], colon[0], colon[1]])
  }

  /** `int()` of each of the five texts; no range check happens here. */
  function FieldsToDateTime(fields: seq<string>): Option<DateTime>
    requires |fields| == 5
  {
    match (ParseInt(fields[0]), ParseInt(fields[1]), ParseInt(fields[2]), ParseInt(fields[3]), ParseInt(fields[4]))
    case (Some(y), Some(mo), Some(d), Some(h), Some(mi)) => Some(DateTime(y, mo, d, h, mi))
    case _ => None
  }

  /** The end field as the five integers the script hands to `datetime`. */
  function ParseEnd(s: string): Option<DateTime>
  {
    match EndFields(s)
    case None => None
    case Some(fields) => FieldsToDateTime(fields)
  }

  predicate NonNegative(dt: DateTime) {
    dt.year >= 0 && dt.month >= 0 && dt.day >= 0 && dt.hour >= 0 && dt.minute >= 0
  }

  /** `strftime("%Y-%m-%d %H:%M")`, with a four-digit year. */
  function Format(dt: DateTime): string
    requires NonNegative(dt)
  {
    ZeroPad(dt.year, 4) + "-" + ZeroPad(dt.month, 2) + "-" + ZeroPad(dt.day, 2) + " "
      + ZeroPad(dt.hour, 2) + ":" + ZeroPad(dt.minute, 2)
  }

  /** One output line: the timestamp, a comma, the activity. */
  function Record(dt: DateTime, activity: string): string
    requires Valid(dt)
  {
    Format(dt) + "," + activity
  }

  // How the end field groups around each separator, proved apart from the
  // splitting facts that use it.
  lemma EndFieldRegrouped(y: string, mo: string, d: string, h: string, mi: string)
    ensures y + "-" + mo + "-" + d + " " + h + ":" + mi == y + ['-'] + mo + ['-'] + (d + " " + h + ":" + mi)
    ensures y + "-" + mo + "-" + d + " " + h + ":" + mi == (y + "-" + mo + "-" + d) + [' '] + (h + ":" + mi)
    ensures d + " " + h + ":" + mi == d + [' '] + (h + ":" + mi)
  {
  }

  lemma EndFieldSeparators(y: string, mo: string, d: string, h: string, mi: string)
    requires IsDigits(y) && IsDigits(mo) && IsDigits(d) && IsDigits(h) && IsDigits(mi)
    ensures '-' !in y && '-' !in mo && '-' !in d + " " + h + ":" + mi
    ensures ' ' !in d && ' ' !in y + "-" + mo + "-" + d && ' ' !in h + ":" + mi
    ensures ':' !in h && ':' !in mi
  {
    DigitsAvoid(y, '-'); DigitsAvoid(mo, '-'); DigitsAvoid(d, '-'); DigitsAvoid(h, '-'); DigitsAvoid(mi, '-');
    DigitsAvoid(y, ' '); DigitsAvoid(mo, ' '); DigitsAvoid(d, ' '); DigitsAvoid(h, ' '); DigitsAvoid(mi, ' ');
    DigitsAvoid(h, ':'); DigitsAvoid(mi, ':');
  }

  /** How the splits of lines 26 to 30 cut an end field made of digit fields. */
  lemma EndFieldPieces(y: string, mo: string, d: string, h: string, mi: string)
    requires IsDigits(y) && IsDigits(mo) && IsDigits(d) && IsDigits(h) && IsDigits(mi)
    ensures var s := y + "-" + mo + "-" + d + " " + h + ":" + mi;
      Split(s, '-') == [y, mo, d + " " + h + ":" + mi] &&
      Split(d + " " + h + ":" + mi, ' ')[0] == d &&
      Split(s, ' ') == [y + "-" + mo + "-" + d, h + ":" + mi] &&
      Split(h + ":" + mi, ':') == [h, mi]
  {
    EndFieldRegrouped(y, mo, d, h, mi);
    EndFieldSeparators(y, mo, d, h, mi);
    SplitThree(y, mo, d + " " + h + ":" + mi, '-');
    SplitFirstPiece(d, ' ', h + ":" + mi);
    SplitTwo(y + "-" + mo + "-" + d, h + ":" + mi, ' ');
    SplitTwo(h, mi, ':');
  }

  lemma EndFieldsOfDigits(y: string, mo: string, d: string, h: string, mi: string)
    requires IsDigits(y) && IsDigits(mo) && IsDigits(d) && IsDigits(h) && IsDigits(mi)
    ensures EndFields(y + "-" + mo + "-" + d + " " + h + ":" + mi) == Some([y, mo, d, h, mi])
  {
    EndFieldPieces(y, mo, d, h, mi);
  }

  lemma FieldsOfDigits(y: string, mo: string, d: string, h: string, mi: string)
    requires IsDigits(y) && IsDigits(mo) && IsDigits(d) && IsDigits(h) && IsDigits(mi)
    ensures FieldsToDateTime([y, mo, d, h, mi])
         == Some(DateTime(DigitsValue(y), DigitsValue(mo), DigitsValue(d), DigitsValue(h), DigitsValue(mi)))
  {
    ParseIntDigits(y); ParseIntDigits(mo); ParseIntDigits(d); ParseIntDigits(h); ParseIntDigits(mi);
  }

  lemma ParseEndOfFields(s: string, fields: seq<string>)
    requires EndFields(s) == Some(fields) && |fields| == 5
    ensures ParseEnd(s) == FieldsToDateTime(fields)
  {
  }

  /** Fields written as decimal digits, padded or not, are read back as the
      numbers they denote. */
  lemma ParseEndOfDigits(y: string, mo: string, d: string, h: string, mi: string)
    requires IsDigits(y) && IsDigits(mo) && IsDigits(d) && IsDigits(h) && IsDigits(mi)
    ensures ParseEnd(y + "-" + mo + "-" + d + " " + h + ":" + mi)
         == Some(DateTime(DigitsValue(y), DigitsValue(mo), DigitsValue(d), DigitsValue(h), DigitsValue(mi)))
  {
    EndFieldsOfDigits(y, mo, d, h, mi);
    ParseEndOfFields(y + "-" + mo + "-" + d + " " + h + ":" + mi, [y, mo, d, h, mi]);
    FieldsOfDigits(y, mo, d, h, mi);
  }

  /** The end-field parser reads back exactly what the formatter writes. */
  lemma FormatRoundTrip(dt: DateTime)
    requires NonNegative(dt)
    ensures ParseEnd(Format(dt)) == Some(dt)
  {
    ZeroPadDigits(dt.year, 4); ZeroPadDigits(dt.month, 2); ZeroPadDigits(dt.day, 2);
    ZeroPadDigits(dt.hour, 2); ZeroPadDigits(dt.minute, 2);
    ParseEndOfDigits(ZeroPad(dt.year, 4), ZeroPad(dt.month, 2), ZeroPad(dt.day, 2),
                     ZeroPad(dt.hour, 2), ZeroPad(dt.minute, 2));
  }

  /** Every timestamp of a valid date-time is exactly 16 characters wide. */
  lemma FormatWidth(dt: DateTime)
    requires Valid(dt)
    ensures |Format(dt)| == 16
  {
    ZeroPadWidth(dt.year, 4);
    ZeroPadWidth(dt.month, 2);
    ZeroPadWidth(dt.day, 2);
    ZeroPadWidth(dt.hour, 2);
    ZeroPadWidth(dt.minute, 2);
  }

  /** Different date-times never share a record line. */
  lemma RecordInjective(a: DateTime, b: DateTime, activity: string)
    requires Valid(a) && Valid(b)
    requires Record(a, activity) == Record(b, activity)
    ensures a == b
  {
    FormatWidth(a);
    FormatWidth(b);
    assert Format(a) == Record(a, activity)[..16] == Record(b, activity)[..16] == Format(b);
    FormatRoundTrip(a);
    FormatRoundTrip(b);
  }

  /** Lines 16 to 32: split the row on commas, read the minutes, take the end
      field apart and build the date-time; the start field is never read. */
  function ParseRow(line: string): (r: Result<Row, Error>)
    ensures r.Ok? ==> Valid(r.value.end)
  {
    var parts := Split(line, ',');
    if |parts| < 4 then Err(MalformedRow)
    else
      match ParseInt(parts[3])
      case None => Err(BadDuration)
      case Some(minutes) =>
        match ParseEnd(parts[2])
        case None => Err(MalformedTimestamp)
        case Some(end) => if Valid(end) then Ok(Row(parts[0], end, minutes)) else Err(InvalidCalendarValue)
  }

  lemma FormatAvoidsComma(dt: DateTime)
    requires NonNegative(dt)
    ensures ',' !in Format(dt)
  {
    ZeroPadDigits(dt.year, 4); ZeroPadDigits(dt.month, 2); ZeroPadDigits(dt.day, 2);
    ZeroPadDigits(dt.hour, 2); ZeroPadDigits(dt.minute, 2);
    DigitsAvoid(ZeroPad(dt.year, 4), ','); DigitsAvoid(ZeroPad(dt.month, 2), ',');
    DigitsAvoid(ZeroPad(dt.day, 2), ','); DigitsAvoid(ZeroPad(dt.hour, 2), ',');
    DigitsAvoid(ZeroPad(dt.minute, 2), ',');
  }

  lemma ShowIntAvoidsComma(m: int)
    ensures ',' !in ShowInt(m)
  {
    var n := if m < 0 then -m else m;
    ZeroPadDigits(n, 1);
    DigitsAvoid(ZeroPad(n, 1), ',');
  }

  /** The three ways a row of comma-free fields is refused before its date
      is checked, in the order the script meets them: fewer than four fields
      (IndexError), a minutes field `int()` cannot read, then an end field
      that cannot be taken apart into five integers (both ValueError or
      IndexError). */
  lemma ParseRowErrors(fields: seq<string>)
    requires |fields| >= 1 && forall i :: 0 <= i < |fields| ==> ',' !in fields[i]
    ensures |fields| < 4 ==> ParseRow(Join(fields, ',')) == Err(MalformedRow)
    ensures |fields| >= 4 && ParseInt(fields[3]).None? ==> ParseRow(Join(fields, ',')) == Err(BadDuration)
    ensures |fields| >= 4 && ParseInt(fields[3]).Some? && ParseEnd(fields[2]).None?
      ==> ParseRow(Join(fields, ',')) == Err(MalformedTimestamp)
  {
    SplitJoin(fields, ',');
  }

  lemma ParseRowOfPieces(line: string, end: DateTime, minutes: int)
    requires |Split(line, ',')| >= 4
    requires ParseInt(Split(line, ',')[3]) == Some(minutes) && ParseEnd(Split(line, ',')[2]) == Some(end)
    ensures ParseRow(line)
         == if Valid(end) then Ok(Row(Split(line, ',')[0], end, minutes)) else Err(InvalidCalendarValue)
  {
  }

  /** A row whose end field is a formatted timestamp and whose minutes field
      is a printed number parses to exactly those values when the timestamp is
      a real date-time, and is rejected (not clamped) when it is not. The
      start field and any fields after the fourth play no part. */
  lemma ParseRowOfFields(fields: seq<string>, end: DateTime, minutes: int)
    requires |fields| >= 4 && NonNegative(end) && fields[2] == Format(end) && fields[3] == ShowInt(minutes)
    requires forall i :: 0 <= i < |fields| && i != 2 && i != 3 ==> ',' !in fields[i]
    ensures ParseRow(Join(fields, ','))
         == if Valid(end) then Ok(Row(fields[0], end, minutes)) else Err(InvalidCalendarValue)
  {
    FormatAvoidsComma(end);
    ShowIntAvoidsComma(minutes);
    assert forall i :: 0 <= i < |fields| ==> ',' !in fields[i];
    SplitJoin(fields, ',');
    ParseShowInt(minutes);
    FormatRoundTrip(end);
    ParseRowOfPieces(Join(fields, ','), end, minutes);
  }

  /** The timestamps lines 37 to 43 write for one row of `n` minutes ending
      at `dt`: the current time is formatted, then stepped back one minute,
      then its line is written, so a step below year 1 raises before the line
      of the time it started from is written. */
  function RowStamps(dt: DateTime, n: int): (stamps: seq<DateTime>)
    requires Valid(dt)
    ensures forall i :: 0 <= i < |stamps| ==> Valid(stamps[i])
    decreases n
  {
    if n <= 0 then []
    else
      match PrevMinute(dt)
      case None => []
      case Some(prev) => [dt] + RowStamps(prev, n - 1)
  }

  /** The output lines for a run of timestamps, in the same order. */
  function Records(stamps: seq<DateTime>, activity: string): (lines: seq<string>)
    requires forall i :: 0 <= i < |stamps| ==> Valid(stamps[i])
  {
    seq(|stamps|, i requires 0 <= i < |stamps| => Record(stamps[i], activity))
  }

  /** A row of `n` minutes writes `n` timestamps (none when `n` is not
      positive), unless its end lies fewer than `n` minutes after
      0001-01-01 00:00, where it writes as many as there are minutes. */
  lemma {:induction false} RowStampsLength(dt: DateTime, n: int)
    requires Valid(dt)
    ensures |RowStamps(dt, n)| == if n <= 0 then 0 else if n <= ToMinutes(dt) then n else ToMinutes(dt)
    decreases n
  {
    ToMinutesNonNegative(dt);
    if n > 0 {
      var p := PrevMinute(dt);
      if p.Some? {
        RowStampsStep(dt, n, p.value);
        RowStampsLength(p.value, n - 1);
      }
    }
  }

  lemma RowStampsBound(dt: DateTime, n: int)
    requires Valid(dt)
    ensures |RowStamps(dt, n)| <= ToMinutes(dt)
    ensures |RowStamps(dt, n)| > 0 ==> n > 0
  {
    RowStampsLength(dt, n);
    ToMinutesNonNegative(dt);
  }

  /** Timestamp `k` of a row is exactly `k` minutes before the end: the first
      is the end itself, and they strictly descend after it. */
  lemma {:induction false} RowStampAt(dt: DateTime, n: int, k: nat)
    requires Valid(dt) && k < |RowStamps(dt, n)|
    ensures k < ToMinutes(dt)
    ensures RowStamps(dt, n)[k] == MinutesBefore(dt, k)
    decreases n
  {
    RowStampsBound(dt, n);
    if k > 0 {
      var prev := PrevMinute(dt).value;
      RowStampsStep(dt, n, prev);
      assert RowStamps(dt, n)[k] == RowStamps(prev, n - 1)[k - 1];
      RowStampAt(prev, n - 1, k - 1);
      ToMinutesInjective(MinutesBefore(prev, k - 1), MinutesBefore(dt, k));
    }
  }

  lemma RowStampsAll(dt: DateTime, n: int)
    requires Valid(dt)
    ensures |RowStamps(dt, n)| <= ToMinutes(dt)
    ensures forall k :: 0 <= k < |RowStamps(dt, n)| ==> RowStamps(dt, n)[k] == MinutesBefore(dt, k)
  {
    ToMinutesOrigin(dt);
    RowStampsLength(dt, n);
    forall k | 0 <= k < |RowStamps(dt, n)|
      ensures RowStamps(dt, n)[k] == MinutesBefore(dt, k)
    {
      RowStampAt(dt, n, k);
    }
  }

  /** The minute `n` before the end, where the interval of a row of `n`
      minutes starts, is never written by that row. */
  lemma RowSkipsStartMinute(activity: string, dt: DateTime, n: nat, k: nat)
    requires Valid(dt) && n <= ToMinutes(dt) && k < |RowStamps(dt, n)|
    ensures Records(RowStamps(dt, n), activity)[k] != Record(MinutesBefore(dt, n), activity)
  {
    RowStampsLength(dt, n);
    RowStampAt(dt, n, k);
    if Records(RowStamps(dt, n), activity)[k] == Record(MinutesBefore(dt, n), activity) {
      RecordInjective(MinutesBefore(dt, k), MinutesBefore(dt, n), activity);
    }
  }

  lemma RecordsAppend(stamps: seq<DateTime>, dt: DateTime, activity: string)
    requires forall i :: 0 <= i < |stamps| ==> Valid(stamps[i])
    requires Valid(dt)
    ensures Records(stamps + [dt], activity) == Records(stamps, activity) + [Record(dt, activity)]
  {
  }

  /** Record `k` of a row is the line of the time `k` minutes before its end. */
  lemma RowRecordsAll(end: DateTime, n: int, activity: string)
    requires Valid(end)
    ensures |Records(RowStamps(end, n), activity)| <= ToMinutes(end)
    ensures forall k :: 0 <= k < |Records(RowStamps(end, n), activity)| ==>
      Records(RowStamps(end, n), activity)[k] == Record(MinutesBefore(end, k), activity)
  {
    RowStampsAll(end, n);
  }

  /** The inner loop (lines 34 to 43) for one parsed row. `ok` is false when a
      decrement raised OverflowError. */
  method ExpandRow(activity: string, end: DateTime, minutes: int) returns (records: seq<string>, ok: bool)
    requires Valid(end)
    ensures records == Records(RowStamps(end, minutes), activity)
    ensures ok <==> minutes <= ToMinutes(end)
    ensures |records| == if !ok then ToMinutes(end) else if minutes <= 0 then 0 else minutes
    ensures forall k :: 0 <= k < |records| ==> records[k] == Record(MinutesBefore(end, k), activity)
  {
    records := [];
    ghost var written: seq<DateTime> := [];
    var current := end;
    var x := 0;
    while x < minutes
      invariant 0 <= x && (minutes > 0 ==> x <= minutes)
      invariant Valid(current) && ToMinutes(current) + x == ToMinutes(end)
      invariant forall i :: 0 <= i < |written| ==> Valid(written[i])
      invariant RowStamps(end, minutes) == written + RowStamps(current, minutes - x)
      invariant records == Records(written, activity)
      decreases minutes - x
    {
      var outLine := Record(current, activity);
      var prev := PrevMinute(current);
      if prev.None? {
        assert RowStamps(current, minutes - x) == [];
        assert written + [] == written;
        ok := false;
        RowStampsLength(end, minutes);
        RowRecordsAll(end, minutes, activity);
        return;
      }
      RowStampsStep(current, minutes - x, prev.value);
      assert written + [current] + RowStamps(prev.value, minutes - x - 1)
          == written + ([current] + RowStamps(prev.value, minutes - x - 1));
      RecordsAppend(written, current, activity);
      written := written + [current];
      records := records + [outLine];
      current := prev.value;
      x := x + 1;
    }
    ToMinutesOrigin(current);
    assert written + [] == written;
    ok := true;
    RowStampsLength(end, minutes);
    RowRecordsAll(end, minutes, activity);
  }

  lemma RowStampsStep(dt: DateTime, n: int, prev: DateTime)
    requires Valid(dt) && n > 0 && PrevMinute(dt) == Some(prev)
    ensures RowStamps(dt, n) == [dt] + RowStamps(prev, n - 1)
  {
  }

  /** Within a row the timestamps start at the end time itself and run
      strictly downwards, one minute apart. */
  lemma RowStampsDescend(dt: DateTime, n: int)
    requires Valid(dt)
    ensures |RowStamps(dt, n)| > 0 ==> RowStamps(dt, n)[0] == dt
    ensures forall i, j :: 0 <= i < j < |RowStamps(dt, n)| ==>
      ToMinutes(RowStamps(dt, n)[j]) == ToMinutes(RowStamps(dt, n)[i]) - (j - i)
  {
    RowStampsAll(dt, n);
    if |RowStamps(dt, n)| > 0 {
      ToMinutesInjective(RowStamps(dt, n)[0], dt);
    }
  }

  /** The row in the script's own comment, ending 2018-12-11 02:43 and
      lasting 63 minutes, is stamped from 02:43 down to 01:41; 01:40, its
      start, is not stamped. */
  lemma ExampleRowStamps(end: DateTime, n: int, last: DateTime, start: DateTime)
    requires end == DateTime(2018, 12, 11, 2, 43) && n == 63
    requires last == DateTime(2018, 12, 11, 1, 41) && start == DateTime(2018, 12, 11, 1, 40)
    ensures |RowStamps(end, n)| == 63
    ensures RowStamps(end, n)[0] == end && RowStamps(end, n)[62] == last
    ensures start !in RowStamps(end, n)
  {
    assert ToMinutes(last) == ToMinutes(end) - 62;
    assert ToMinutes(start) == ToMinutes(end) - 63;
    ToMinutesNonNegative(start);
    RowStampsLength(end, n);
    assert |RowStamps(end, n)| == 63;
    RowStampsDescend(end, n);
    RowStampAt(end, n, 62);
    ToMinutesInjective(RowStamps(end, n)[62], last);
    forall k | 0 <= k < |RowStamps(end, n)|
      ensures RowStamps(end, n)[k] != start
    {
      RowStampAt(end, n, k);
    }
  }

  /** The start field (parts[1]) is never read: rows that differ only there
      parse alike and expand to the same records with the same outcome. */
  lemma StartFieldIgnored(fields: seq<string>, start: string)
    requires |fields| >= 2 && ',' !in start
    requires forall i :: 0 <= i < |fields| ==> ',' !in fields[i]
    ensures ParseRow(Join(fields[1 := start], ',')) == ParseRow(Join(fields, ','))
    ensures LineExpansion(Join(fields[1 := start], ',')) == LineExpansion(Join(fields, ','))
  {
    SplitJoin(fields, ',');
    SplitJoin(fields[1 := start], ',');
  }

  /** What the script writes for some rows, and the exception that ends it
      early, if any. */
  datatype Expansion = Expansion(lines: seq<string>, error: Option<Error>)

  /** One data row (lines 16 to 43): its records, and the exception it raises
      if it does not parse or runs below year 1. */
  function LineExpansion(line: string): Expansion
  {
    match ParseRow(line)
    case Err(e) => Expansion([], Some(e))
    case Ok(row) =>
      Expansion(Records(RowStamps(row.end, row.minutes), row.activity),
                if row.minutes > ToMinutes(row.end) then Some(BeforeYearOne) else None)
  }

  /** The data rows in input order: each row's records follow the previous
      row's, and the first failing row stops the run after whatever it wrote. */
  function ExpandRows(rows: seq<string>): Expansion
    decreases |rows|
  {
    if rows == [] then Expansion([], None)
    else
      var first := LineExpansion(rows[0]);
      if first.error.Some? then first
      else
        var rest := ExpandRows(rows[1..]);
        Expansion(first.lines + rest.lines, rest.error)
  }

  /** The minutes a row asks for, counting a non-positive number as none. */
  function RowMinutes(line: string): nat
  {
    match ParseRow(line)
    case Ok(row) => if row.minutes > 0 then row.minutes else 0
    case Err(_) => 0
  }

  function TotalMinutes(rows: seq<string>): nat
    decreases |rows|
  {
    if rows == [] then 0 else RowMinutes(rows[0]) + TotalMinutes(rows[1..])
  }

  /** A row the script gets through: it parses, and its end lies at least
      its number of minutes after 0001-01-01 00:00. */
  predicate RowCompletes(line: string) {
    ParseRow(line).Ok? && ParseRow(line).value.minutes <= ToMinutes(ParseRow(line).value.end)
  }

  /** A run finishes without error exactly when every row completes. */
  lemma {:induction false} ExpandRowsSucceeds(rows: seq<string>)
    ensures ExpandRows(rows).error.None? <==> forall i :: 0 <= i < |rows| ==> RowCompletes(rows[i])
    decreases |rows|
  {
    if rows != [] {
      assert LineExpansion(rows[0]).error.None? <==> RowCompletes(rows[0]);
      ExpandRowsSucceeds(rows[1..]);
      assert forall i :: 1 <= i < |rows| ==> rows[i] == rows[1..][i - 1];
    }
  }

  /** A run that finishes writes one record per minute summed over the rows. */
  lemma {:induction false} ExpandRowsCount(rows: seq<string>)
    requires ExpandRows(rows).error.None?
    ensures |ExpandRows(rows).lines| == TotalMinutes(rows)
    decreases |rows|
  {
    if rows != [] {
      var row := ParseRow(rows[0]).value;
      RowStampsLength(row.end, row.minutes);
      ExpandRowsCount(rows[1..]);
    }
  }

  /** Every record starts with a digit of its year, so none is the header. */
  lemma RecordsAreNotHeader(stamps: seq<DateTime>, activity: string)
    requires forall i :: 0 <= i < |stamps| ==> Valid(stamps[i])
    ensures MinutesHeader !in Records(stamps, activity)
  {
    forall i | 0 <= i < |stamps| ensures Records(stamps, activity)[i] != MinutesHeader {
      ZeroPadDigits(stamps[i].year, 4);
      assert Records(stamps, activity)[i][0] == ZeroPad(stamps[i].year, 4)[0];
      assert !IsDigit(MinutesHeader[0]);
    }
  }

  lemma {:induction false} ExpandRowsHeaderFree(rows: seq<string>)
    ensures MinutesHeader !in ExpandRows(rows).lines
    decreases |rows|
  {
    if rows != [] {
      match ParseRow(rows[0])
      case Err(_) =>
      case Ok(row) =>
        RecordsAreNotHeader(RowStamps(row.end, row.minutes), row.activity);
        if LineExpansion(rows[0]).error.None? {
          ExpandRowsHeaderFree(rows[1..]);
        }
    }
  }

  /** The lines after the one header line the script skips (lines 10 to 14). */
  function DataRows(input: seq<string>): seq<string>
  {
    if input == [] then [] else input[1..]
  }

  // Kept as a lemma: stated inline, the loop of Minutize runs out of resource.
  lemma ConcatAssoc(a: seq<string>, b: seq<string>, c: seq<string>)
    ensures a + b + c == a + (b + c)
  {
  }

  /** The body of the outer loop for one line: parse it, then run the inner loop. */
  method ExpandLine(line: string) returns (records: seq<string>, err: Option<Error>)
    ensures Expansion(records, err) == LineExpansion(line)
  {
    match ParseRow(line) {
      case Err(e) =>
        records, err := [], Some(e);
      case Ok(row) =>
        var ok;
        records, ok := ExpandRow(row.activity, row.end, row.minutes);
        err := if ok then None else Some(BeforeYearOne);
    }
  }

  lemma ExpandRowsAt(rows: seq<string>, i: nat)
    requires i < |rows|
    ensures ExpandRows(rows[i..]) ==
      if LineExpansion(rows[i]).error.Some? then LineExpansion(rows[i])
      else Expansion(LineExpansion(rows[i]).lines + ExpandRows(rows[i + 1..]).lines, ExpandRows(rows[i + 1..]).error)
  {
    assert rows[i..][0] == rows[i] && rows[i..][1..] == rows[i + 1..];
  }

  /** The whole script: the header `date_time,activity` once, then the records
      of the data rows; `err` is the exception that ended the run, if any. */
  method Minutize(input: seq<string>) returns (output: seq<string>, err: Option<Error>)
    ensures output == [MinutesHeader] + ExpandRows(DataRows(input)).lines
    ensures err == ExpandRows(DataRows(input)).error
  {
    output := [MinutesHeader];
    err := None;
    var rows := DataRows(input);
    ghost var done: seq<string> := [];
    var i := 0;
    while i < |rows|
      invariant 0 <= i <= |rows|
      invariant output == [MinutesHeader] + done
      invariant ExpandRows(rows) == Expansion(done + ExpandRows(rows[i..]).lines, ExpandRows(rows[i..]).error)
    {
      ExpandRowsAt(rows, i);
      var records, lineErr := ExpandLine(rows[i]);
      ConcatAssoc(done, records, ExpandRows(rows[i + 1..]).lines);
      ConcatAssoc([MinutesHeader], done, records);
      output := output + records;
      done := done + records;
      if lineErr.Some? {
        err := lineErr;
        assert done + [] == done;
        return;
      }
      i := i + 1;
    }
    assert rows[i..] == [];
    assert done + [] == done;
  }
}
