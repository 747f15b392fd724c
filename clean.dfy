/** clean.py: rewrites each raw log line `activity,D M<m> YYYY HH:MM,D M<m> YYYY HH:MM,minutes`
    with its dates reordered to `YYYY-m-D`, under a fixed header. */
module Clean {
  import opened Wrappers
  import opened Text

  const CleanHeader: string := "activity,start,end,minutes"

  /** Python's `s[1:]`: the text without its first character, whatever that
      character is; empty text stays empty. */
  function DropFirst(s: string): string
  {
    if s == [] then [] else s[1..]
  }

  /** Lines 22 to 39 for one raw timestamp: split on spaces, then date as
      year-month-day from tokens 2, 1 (without its first character) and 0,
      followed by the time token. No number is parsed and nothing is padded.
      None is the IndexError of fewer than four tokens. */
  function NormalizeTimestamp(raw: string): Option<string>
  {
    var tokens := Split(raw, ' ');
    if |tokens| < 4 then None
    else Some(tokens[2] + "-" + DropFirst(tokens[1]) + "-" + tokens[0] + " " + tokens[3])
  }

  /** Lines 11 to 51 for one line: the four comma fields, the two timestamps
      rewritten, activity and minutes passed through. None is the IndexError
      of a missing field or token. */
  function NormalizeLine(line: string): Option<string>
  {
    var parts := Split(line, ',');
    if |parts| < 4 then None
    else
      match (NormalizeTimestamp(parts[1]), NormalizeTimestamp(parts[2]))
      case (Some(start), Some(end)) => Some(parts[0] + "," + start + "," + end + "," + parts[3])
      case _ => None
  }

  /** A timestamp written as space-separated tokens is rewritten from its
      first four tokens, whatever follows them, and rejected with fewer. */
  lemma NormalizeTimestampOfTokens(tokens: seq<string>)
    requires |tokens| >= 1 && forall i :: 0 <= i < |tokens| ==> ' ' !in tokens[i]
    ensures NormalizeTimestamp(Join(tokens, ' ')) ==
      if |tokens| < 4 then None
      else Some(tokens[2] + "-" + DropFirst(tokens[1]) + "-" + tokens[0] + " " + tokens[3])
  {
    SplitJoin(tokens, ' ');
  }

  /** A line written as comma-separated fields is rewritten from its first
      four fields, whatever follows them, and rejected with fewer. */
  lemma NormalizeLineOfFields(fields: seq<string>)
    requires |fields| >= 1 && forall i :: 0 <= i < |fields| ==> ',' !in fields[i]
    ensures NormalizeLine(Join(fields, ',')) ==
      if |fields| < 4 then None
      else
        match (NormalizeTimestamp(fields[1]), NormalizeTimestamp(fields[2]))
        case (Some(start), Some(end)) => Some(fields[0] + "," + start + "," + end + "," + fields[3])
        case _ => None
  {
    SplitJoin(fields, ',');
  }

  lemma DropFirstAvoids(s: string, c: char)
    requires c !in s
    ensures c !in DropFirst(s)
  {
  }

  /** A rewritten timestamp holds no comma when its raw text held none. */
  lemma NormalizeTimestampAvoidsComma(raw: string)
    requires ',' !in raw && NormalizeTimestamp(raw).Some?
    ensures ',' !in NormalizeTimestamp(raw).value
  {
    var tokens := Split(raw, ' ');
    SplitPiecesAvoid(raw, ' ', ',');
    DropFirstAvoids(tokens[1], ',');
  }

  /** A rewritten timestamp always holds the `-` between year and month. */
  lemma NormalizeTimestampHasDash(raw: string)
    requires NormalizeTimestamp(raw).Some?
    ensures '-' in NormalizeTimestamp(raw).value
  {
    var tokens := Split(raw, ' ');
    assert NormalizeTimestamp(raw).value[|tokens[2]|] == '-';
  }

  /** Read back by commas, an output line has exactly four fields: the
      activity and the minutes of the input verbatim, between the two
      rewritten timestamps. Extra input fields are dropped. */
  lemma NormalizedFields(line: string)
    requires NormalizeLine(line).Some?
    ensures var parts := Split(line, ',');
      Split(NormalizeLine(line).value, ',')
        == [parts[0], NormalizeTimestamp(parts[1]).value, NormalizeTimestamp(parts[2]).value, parts[3]]
  {
    var parts := Split(line, ',');
    var start, end := NormalizeTimestamp(parts[1]).value, NormalizeTimestamp(parts[2]).value;
    NormalizeTimestampAvoidsComma(parts[1]);
    NormalizeTimestampAvoidsComma(parts[2]);
    var out := [parts[0], start, end, parts[3]];
    JoinFour(parts[0], start, end, parts[3], ',');
    SplitJoin(out, ',');
  }

  const HeaderNames: seq<string> := ["activity", "start", "end", "minutes"]

  lemma HeaderJoined()
    ensures Join(HeaderNames, ',') == CleanHeader
    ensures forall i :: 0 <= i < |HeaderNames| ==> ',' !in HeaderNames[i]
  {
    JoinFour("activity", "start", "end", "minutes", ',');
  }

  lemma HeaderFields()
    ensures Split(CleanHeader, ',') == HeaderNames
  {
    HeaderJoined();
    SplitJoin(HeaderNames, ',');
  }

  /** The raw header line `activity,start,end,minutes` is rejected: its
      second field has fewer than four space-separated tokens. */
  lemma HeaderLineRejected()
    ensures NormalizeLine(CleanHeader) == None
  {
    HeaderJoined();
    NormalizeLineOfFields(HeaderNames);
    SplitWhole(HeaderNames[1], ' ');
  }

  lemma NormalizeTimestampNotStart(raw: string)
    requires NormalizeTimestamp(raw).Some?
    ensures NormalizeTimestamp(raw).value != HeaderNames[1]
  {
    NormalizeTimestampHasDash(raw);
    assert '-' !in HeaderNames[1];
  }

  /** No data line can be the header: the header's second field, `start`,
      has no `-`, which every rewritten timestamp has. So the header appears
      only once, first. */
  lemma HeaderNotData(line: string)
    ensures NormalizeLine(line) != Some(CleanHeader)
  {
    if NormalizeLine(line).Some? {
      HeaderFields();
      NormalizedFields(line);
      NormalizeTimestampNotStart(Split(line, ',')[1]);
    }
  }

  /** `D M<m> YYYY HH:MM` becomes `YYYY-m-D HH:MM`. */
  lemma NormalizeTimestampOfFour(raw: string, day: string, month: string, year: string, time: string)
    requires ' ' !in day && ' ' !in month && ' ' !in year && ' ' !in time
    requires raw == day + " " + month + " " + year + " " + time
    ensures NormalizeTimestamp(raw) == Some(year + "-" + DropFirst(month) + "-" + day + " " + time)
  {
    JoinFour(day, month, year, time, ' ');
    NormalizeTimestampOfTokens([day, month, year, time]);
  }

  /** A line of four fields keeps its first and last field and rewrites the
      two in between. */
  lemma NormalizeLineOfFour(line: string, activity: string, start: string, end: string, minutes: string,
                            newStart: string, newEnd: string)
    requires ',' !in activity && ',' !in start && ',' !in end && ',' !in minutes
    requires NormalizeTimestamp(start) == Some(newStart) && NormalizeTimestamp(end) == Some(newEnd)
    requires line == activity + "," + start + "," + end + "," + minutes
    ensures NormalizeLine(line) == Some(activity + "," + newStart + "," + newEnd + "," + minutes)
  {
    JoinFour(activity, start, end, minutes, ',');
    NormalizeLineOfFields([activity, start, end, minutes]);
  }

  /** The month token loses its first character whatever that character is:
      `M12`, `X12` and `112` all give month `12`. */
  lemma MonthMarkerIgnored(raw: string, day: string, marker: char, month: string, year: string, time: string)
    requires ' ' !in day && marker != ' ' && ' ' !in month && ' ' !in year && ' ' !in time
    requires raw == day + " " + ([marker] + month) + " " + year + " " + time
    ensures NormalizeTimestamp(raw) == Some(year + "-" + month + "-" + day + " " + time)
  {
    assert DropFirst([marker] + month) == month;
    NormalizeTimestampOfFour(raw, day, [marker] + month, year, time);
  }

  lemma ExampleStart()
    ensures NormalizeTimestamp("11 M12 2018 01:40") == Some("2018-12-11 01:40")
  {
    assert "2018" + "-" + DropFirst("M12") + "-" + "11" + " " + "01:40" == "2018-12-11 01:40";
    NormalizeTimestampOfFour("11 M12 2018 01:40", "11", "M12", "2018", "01:40");
  }

  lemma ExampleEnd()
    ensures NormalizeTimestamp("11 M12 2018 02:43") == Some("2018-12-11 02:43")
  {
    assert "2018" + "-" + DropFirst("M12") + "-" + "11" + " " + "02:43" == "2018-12-11 02:43";
    NormalizeTimestampOfFour("11 M12 2018 02:43", "11", "M12", "2018", "02:43");
  }

  // The literal facts ExampleLine needs, kept apart so that each is proved
  // in a small context.
  lemma ExampleRawText()
    ensures "Study" + "," + "11 M12 2018 01:40" + "," + "11 M12 2018 02:43" + "," + "63"
         == "Study,11 M12 2018 01:40,11 M12 2018 02:43,63"
  {
  }

  lemma ExampleCleanText()
    ensures "Study" + "," + "2018-12-11 01:40" + "," + "2018-12-11 02:43" + "," + "63"
         == "Study,2018-12-11 01:40,2018-12-11 02:43,63"
  {
  }

  lemma ExampleFieldsAvoidComma()
    ensures ',' !in "Study" && ',' !in "11 M12 2018 01:40" && ',' !in "11 M12 2018 02:43" && ',' !in "63"
  {
  }

  /** The raw line given as the example in the script. */
  lemma ExampleLine()
    ensures NormalizeLine("Study,11 M12 2018 01:40,11 M12 2018 02:43,63")
         == Some("Study,2018-12-11 01:40,2018-12-11 02:43,63")
  {
    ExampleRawText();
    ExampleCleanText();
    ExampleStart();
    ExampleEnd();
    ExampleFieldsAvoidComma();
    NormalizeLineOfFour("Study,11 M12 2018 01:40,11 M12 2018 02:43,63",
                        "Study", "11 M12 2018 01:40", "11 M12 2018 02:43", "63",
                        "2018-12-11 01:40", "2018-12-11 02:43");
  }

  /** The whole script (lines 6 to 57): the header once, then one rewritten
      line per input line, the first included, in order. `ok` is false when a
      line raised IndexError; the lines before it are already written. */
  method Clean(input: seq<string>) returns (output: seq<string>, ok: bool)
    ensures |output| >= 1 && output[0] == CleanHeader
    ensures ok <==> forall i :: 0 <= i < |input| ==> NormalizeLine(input[i]).Some?
    ensures ok ==> |output| == |input| + 1
    ensures !ok ==> |output| <= |input| && NormalizeLine(input[|output| - 1]).None?
    ensures forall i :: 0 <= i < |output| - 1 ==> NormalizeLine(input[i]) == Some(output[i + 1])
    ensures forall i :: 1 <= i < |output| ==> output[i] != CleanHeader
  {
    output := [CleanHeader];
    var i := 0;
    while i < |input|
      invariant 0 <= i <= |input|
      invariant |output| == i + 1 && output[0] == CleanHeader
      invariant forall j :: 0 <= j < i ==> NormalizeLine(input[j]) == Some(output[j + 1])
      invariant forall j :: 1 <= j < |output| ==> output[j] != CleanHeader
    {
      var outLine := NormalizeLine(input[i]);
      if outLine.None? {
        ok := false;
        return;
      }
      HeaderNotData(input[i]);
      output := output + [outLine.value];
      i := i + 1;
    }
    ok := true;
  }
}
