/**
 * plotable_data: the report flattened to comma-separated text, one header
 * line and then one line per exchange, lines separated by "\r\n".
 */
module Csv {
  import opened Wrappers
  import opened Strings
  import opened Config
  import opened Timestamps
  import opened ModuleDetection
  import opened UserDiscovery
  import opened Segments
  import opened LogParser

  /** `", ".join(fields)`. */
  function JoinFields(fields: seq<string>): string {
    if fields == [] then []
    else if |fields| == 1 then fields[0]
    else fields[0] + ", " + JoinFields(fields[1..])
  }

  /** The header line. */
  lemma HeaderText()
    ensures JoinFields(CSV_HEADERS)
         == "User" + ", " + "ResponseModule" + ", " + "Question" + ", " + "Correct" + ", " + "Timestamp"
  {
    var h := CSV_HEADERS;
    assert h[1..][1..][1..][1..] == ["Timestamp"];
    assert JoinFields(h[1..][1..][1..]) == "Correct" + ", " + "Timestamp";
  }

  /** The module credited with the answer: SIREN when it took part, ChatScript otherwise. */
  function ResponseModule(mods: seq<string>): (r: string)
    ensures r == "SIREN" || r == "ChatScript"
    ensures r == "SIREN" <==> "SIREN" in mods
  {
    if "SIREN" in mods then "SIREN" else "ChatScript"
  }

  /** For a block's detected modules, SIREN is credited exactly when the block names it. */
  lemma ResponseModuleOfBlock(text: string)
    ensures ResponseModule(Detected(KNOWN_MODULES, text)) == "SIREN" <==> Contains(text, "SIREN")
  {
    DetectedMembers(KNOWN_MODULES, text, "SIREN");
  }

  /** Python's `str` of a boolean. */
  function BoolText(b: bool): (r: string)
    ensures r == "True" <==> b
    ensures r == "False" <==> !b
  {
    if b then "True" else "False"
  }

  /** The line of one exchange, with the line break placed before it. */
  function Row(user: string, x: Exchange): string {
    "\r\n" + user + ", " + ResponseModule(x.modules) + ", " + x.question + ", "
    + BoolText(x.correct) + ", " + IsoFormat(x.time)
  }

  /**
   * A row is a line break and then the five fields of the header's columns,
   * joined the way the header is.
   */
  lemma RowFields(user: string, x: Exchange)
    ensures Row(user, x)
         == "\r\n" + JoinFields([user, ResponseModule(x.modules), x.question, BoolText(x.correct), IsoFormat(x.time)])
  {
    var m, q, b, t := ResponseModule(x.modules), x.question, BoolText(x.correct), IsoFormat(x.time);
    var fs := [user, m, q, b, t];
    assert fs[1..][1..][1..][1..] == [t];
    var j4 := b + ", " + t;
    var j3 := q + ", " + j4;
    var j2 := m + ", " + j3;
    assert JoinFields(fs[1..][1..][1..]) == j4;
    assert JoinFields(fs[1..][1..]) == j3;
    assert JoinFields(fs[1..]) == j2;
    assert JoinFields(fs) == user + ", " + j2;
    var sep := ", ";
    calc {
      Row(user, x);
      "\r\n" + user + sep + m + sep + q + sep + b + sep + t;
      { assert "\r\n" + user + sep + m + sep + q + sep + b + sep + t
            == ("\r\n" + user + sep + m + sep + q + sep) + j4; }
      ("\r\n" + user + sep + m + sep) + j3;
      ("\r\n" + user + sep) + j2;
      "\r\n" + (user + sep + j2);
    }
  }



  /** The lines of one user's exchanges, in order. */
  function UserRows(user: string, xs: seq<Exchange>): string {
    if xs == [] then []
    else UserRows(user, xs[..|xs| - 1]) + Row(user, xs[|xs| - 1])
  }

  /** The lines of every user, users in report order. */
  function AllRows(report: seq<UserLog>): string {
    if report == [] then []
    else AllRows(report[..|report| - 1]) + UserRows(report[|report| - 1].user, report[|report| - 1].exchanges)
  }

  /** What plotable_data returns for a report. */
  function CsvText(report: seq<UserLog>): string {
    JoinFields(CSV_HEADERS) + AllRows(report)
  }

  /** Text written before a user's rows, then one more row of that user. */
  lemma UserRowsStep(before: string, user: string, xs: seq<Exchange>, j: nat)
    requires j < |xs|
    ensures before + UserRows(user, xs[..j + 1]) == before + UserRows(user, xs[..j]) + Row(user, xs[j])
  {
    assert xs[..j + 1][..j] == xs[..j];
  }

  /** Text written before the users' rows, then the rows of one more user. */
  lemma AllRowsStep(head: string, report: seq<UserLog>, i: nat)
    requires i < |report|
    ensures head + AllRows(report[..i + 1]) == head + AllRows(report[..i]) + UserRows(report[i].user, report[i].exchanges)
  {
    assert report[..i + 1][..i] == report[..i];
  }

  /** plotable_data: the header, then one line per exchange of each user. */
  method PlotableData(report: seq<UserLog>) returns (csv: string)
    ensures csv == CsvText(report)
  {
    csv := JoinFields(CSV_HEADERS);
    for i := 0 to |report|
      invariant csv == JoinFields(CSV_HEADERS) + AllRows(report[..i])
    {
      var user := report[i].user;
      var rows := report[i].exchanges;
      assert rows[..0] == [];
      ghost var before := csv;
      for j := 0 to |rows|
        invariant csv == before + UserRows(user, rows[..j])
      {
        var row := rows[j];
        UserRowsStep(before, user, rows, j);
        csv := csv + Row(user, row);
      }
      assert rows[..|rows|] == rows;
      AllRowsStep(JoinFields(CSV_HEADERS), report, i);
    }
    assert report[..|report|] == report;
  }

  // ---------------------------------------------------------------------
  // One line per exchange
  // ---------------------------------------------------------------------

  /** The number of exchanges in a report. */
  function TotalExchanges(report: seq<UserLog>): nat {
    if report == [] then 0
    else TotalExchanges(report[..|report| - 1]) + |report[|report| - 1].exchanges|
  }

  /** No user name or question contains a line break. */
  ghost predicate SingleLineFields(report: seq<UserLog>) {
    forall k :: 0 <= k < |report| ==>
      '\n' !in report[k].user
      && forall j :: 0 <= j < |report[k].exchanges| ==> '\n' !in report[k].exchanges[j].question
  }

  lemma RowBreaks(user: string, x: Exchange)
    requires '\n' !in user && '\n' !in x.question
    ensures CountChar(Row(user, x), '\n') == 1
  {
    var m, b, t := ResponseModule(x.modules), BoolText(x.correct), IsoFormat(x.time);
    assert '\n' !in m && '\n' !in b && '\n' !in t && '\n' !in ", ";
    var rest := user + ", " + m + ", " + x.question + ", " + b + ", " + t;
    assert '\n' !in rest;
    assert Row(user, x) == "\r\n" + rest;
    assert CountChar("\r\n", '\n') == 1;
    CountCharAppend("\r\n", rest, '\n');
    CountCharAbsent(rest, '\n');
  }

  lemma {:induction false} UserRowsBreaks(user: string, xs: seq<Exchange>)
    requires '\n' !in user
    requires forall j :: 0 <= j < |xs| ==> '\n' !in xs[j].question
    ensures CountChar(UserRows(user, xs), '\n') == |xs|
  {
    if xs != [] {
      var init := xs[..|xs| - 1];
      UserRowsBreaks(user, init);
      RowBreaks(user, xs[|xs| - 1]);
      CountCharAppend(UserRows(user, init), Row(user, xs[|xs| - 1]), '\n');
    }
  }

  lemma {:induction false} AllRowsBreaks(report: seq<UserLog>)
    requires SingleLineFields(report)
    ensures CountChar(AllRows(report), '\n') == TotalExchanges(report)
  {
    if report != [] {
      var init := report[..|report| - 1];
      var last := report[|report| - 1];
      assert SingleLineFields(init) by {
        forall k | 0 <= k < |init|
          ensures init[k] == report[k]
        {
        }
      }
      AllRowsBreaks(init);
      UserRowsBreaks(last.user, last.exchanges);
      CountCharAppend(AllRows(init), UserRows(last.user, last.exchanges), '\n');
    }
  }

  /**
   * The text has exactly one line per exchange after the header: as many
   * line breaks as exchanges, provided no field carries a line break.
   */
  lemma CsvLineCount(report: seq<UserLog>)
    requires SingleLineFields(report)
    ensures CountChar(CsvText(report), '\n') == TotalExchanges(report)
  {
    HeaderText();
    CountCharAbsent(JoinFields(CSV_HEADERS), '\n');
    AllRowsBreaks(report);
    CountCharAppend(JoinFields(CSV_HEADERS), AllRows(report), '\n');
  }

  /** The text is the bare header exactly when the report has no exchange. */
  lemma {:induction false} CsvHeaderOnly(report: seq<UserLog>)
    ensures CsvText(report) == JoinFields(CSV_HEADERS) <==> TotalExchanges(report) == 0
  {
    AllRowsEmpty(report);
  }

  lemma {:induction false} AllRowsEmpty(report: seq<UserLog>)
    ensures AllRows(report) == [] <==> TotalExchanges(report) == 0
  {
    if report != [] {
      var last := report[|report| - 1];
      AllRowsEmpty(report[..|report| - 1]);
      UserRowsEmpty(last.user, last.exchanges);
    }
  }

  lemma {:induction false} UserRowsEmpty(user: string, xs: seq<Exchange>)
    ensures UserRows(user, xs) == [] <==> xs == []
  {
    if xs != [] {
      assert |Row(user, xs[|xs| - 1])| >= 2;
    }
  }

  /** A question read from a log line has no line break in it. */
  lemma QuestionSingleLine(line: string)
    requires IsInputLine(line) && '\n' !in line
    ensures '\n' !in Question(line)
  {
    var q := Question(line);
    var pre := line[..MarkerIndex(line)] + INPUT_LINE;
    assert line == pre + q;
  }

  /**
   * For a report produced from a log, every exchange gets exactly one line:
   * user names and questions come from single log lines.
   */
  lemma ReportLineCount(logdata: string, year: nat)
    requires 1900 <= year <= 9999
    requires Report(logdata, year).Ok?
    ensures CountChar(CsvText(Report(logdata, year).value), '\n') == TotalExchanges(Report(logdata, year).value)
  {
    var report := Report(logdata, year).value;
    forall k | 0 <= k < |report|
      ensures '\n' !in report[k].user
      && forall j :: 0 <= j < |report[k].exchanges| ==> '\n' !in report[k].exchanges[j].question
    {
      ReportUsers(logdata, year, k);
      UsersAreTagged(logdata, report[k].user);
      forall j | 0 <= j < |report[k].exchanges|
        ensures '\n' !in report[k].exchanges[j].question
      {
        ReportExchangeSource(logdata, year, k, j);
        var line :| line in Split(logdata)
          && Contains(line, report[k].user) && IsInputLine(line)
          && report[k].exchanges[j].question == Question(line)
          && GetTime(line, year) == Ok(report[k].exchanges[j].time);
        QuestionSingleLine(line);
      }
    }
    CsvLineCount(report);
  }
}
