/** How the two scripts fit together: a raw line that clean.py rewrites is a
    row minutize.py can read, with the end time taken from the raw fields. */
module Pipeline {
  import opened Wrappers
  import opened Text
  import opened Calendar
  import opened Clean
  import opened Minutize

  /** A raw month token: one leading character (the `M`), then digits. */
  predicate MonthToken(month: string) {
    |month| >= 1 && month[0] != ' ' && month[0] != ',' && IsDigits(month[1..])
  }

  /** The end time a raw `D M<m> YYYY HH:MM` field names. */
  function RawEndTime(day: string, month: string, year: string, h: string, mi: string): DateTime
    requires IsDigits(day) && MonthToken(month) && IsDigits(year) && IsDigits(h) && IsDigits(mi)
  {
    DateTime(DigitsValue(year), DigitsValue(month[1..]), DigitsValue(day), DigitsValue(h), DigitsValue(mi))
  }

  lemma MonthTokenAvoids(month: string, c: char)
    requires MonthToken(month) && !IsDigit(c) && c != month[0]
    ensures c !in month && DropFirst(month) == month[1..]
  {
    DigitsAvoid(month[1..], c);
    assert month == [month[0]] + month[1..];
  }

  lemma TimeAvoids(h: string, mi: string, c: char)
    requires IsDigits(h) && IsDigits(mi) && !IsDigit(c) && c != ':'
    ensures c !in h + ":" + mi
  {
    DigitsAvoid(h, c);
    DigitsAvoid(mi, c);
  }

  /** The end field rewritten by clean.py, as text. */
  lemma CleanedEndText(end: string, day: string, month: string, year: string, h: string, mi: string)
    requires IsDigits(day) && MonthToken(month) && IsDigits(year) && IsDigits(h) && IsDigits(mi)
    requires end == day + " " + month + " " + year + " " + (h + ":" + mi)
    ensures NormalizeTimestamp(end) == Some(year + "-" + month[1..] + "-" + day + " " + h + ":" + mi)
  {
    DigitsAvoid(day, ' ');
    DigitsAvoid(year, ' ');
    MonthTokenAvoids(month, ' ');
    TimeAvoids(h, mi, ' ');
    NormalizeTimestampOfFour(end, day, month, year, h + ":" + mi);
    assert year + "-" + month[1..] + "-" + day + " " + (h + ":" + mi)
        == year + "-" + month[1..] + "-" + day + " " + h + ":" + mi;
  }

  lemma DateTextAvoidsComma(year: string, month: string, day: string, h: string, mi: string)
    requires IsDigits(day) && IsDigits(month) && IsDigits(year) && IsDigits(h) && IsDigits(mi)
    ensures ',' !in year + "-" + month + "-" + day + " " + h + ":" + mi
  {
    DigitsAvoid(day, ',');
    DigitsAvoid(year, ',');
    DigitsAvoid(month, ',');
    DigitsAvoid(h, ',');
    DigitsAvoid(mi, ',');
  }

  /** The rewritten end field is the `YYYY-m-D HH:MM` text that minutize.py
      splits back into the five numbers of the raw field. */
  lemma CleanedEndParses(end: string, day: string, month: string, year: string, h: string, mi: string)
    requires IsDigits(day) && MonthToken(month) && IsDigits(year) && IsDigits(h) && IsDigits(mi)
    requires end == day + " " + month + " " + year + " " + (h + ":" + mi)
    ensures NormalizeTimestamp(end).Some?
    ensures ',' !in NormalizeTimestamp(end).value
    ensures ParseEnd(NormalizeTimestamp(end).value) == Some(RawEndTime(day, month, year, h, mi))
  {
    CleanedEndText(end, day, month, year, h, mi);
    DateTextAvoidsComma(year, month[1..], day, h, mi);
    ParseEndOfDigits(year, month[1..], day, h, mi);
  }

  /** Any raw line clean.py rewrites, whatever its number of comma fields,
      becomes a row that minutize.py reads with the raw activity and minutes
      (fields 0 and 3), and with whatever end time the rewritten end field
      names. */
  lemma CleanedLineParses(line: string, dt: DateTime, minutes: int)
    requires NormalizeLine(line).Some?
    requires ParseEnd(NormalizeTimestamp(Split(line, ',')[2]).value) == Some(dt)
    requires ParseInt(Split(line, ',')[3]) == Some(minutes)
    ensures ParseRow(NormalizeLine(line).value)
         == if Valid(dt) then Ok(Row(Split(line, ',')[0], dt, minutes)) else Err(InvalidCalendarValue)
  {
    NormalizedFields(line);
    ParseRowOfPieces(NormalizeLine(line).value, dt, minutes);
  }

  /** A raw line of four or more comma fields whose start field clean.py can
      rewrite, whose end field is `D M<m> YYYY HH:MM` in digits and whose
      minutes field is an integer is rewritten into a row that minutize.py
      reads back with the same activity, the same minutes and the end time the
      raw field names; the row is refused only when that end time is not a
      calendar date. Fields after the fourth play no part. */
  lemma CleanedRowParses(line: string, day: string, month: string, year: string, h: string, mi: string, minutes: int)
    requires |Split(line, ',')| >= 4 && NormalizeTimestamp(Split(line, ',')[1]).Some?
    requires IsDigits(day) && MonthToken(month) && IsDigits(year) && IsDigits(h) && IsDigits(mi)
    requires Split(line, ',')[2] == day + " " + month + " " + year + " " + (h + ":" + mi)
    requires ParseInt(Split(line, ',')[3]) == Some(minutes)
    ensures NormalizeLine(line).Some?
    ensures var dt := RawEndTime(day, month, year, h, mi);
      ParseRow(NormalizeLine(line).value)
        == if Valid(dt) then Ok(Row(Split(line, ',')[0], dt, minutes)) else Err(InvalidCalendarValue)
  {
    CleanedEndParses(Split(line, ',')[2], day, month, year, h, mi);
    CleanedLineParses(line, RawEndTime(day, month, year, h, mi), minutes);
  }
}
