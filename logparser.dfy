/**
 * break_logs: the log is cut by user and by question/answer block, and each
 * block becomes one exchange record. The run stops at the first block whose
 * first line carries no usable timestamp.
 */
module LogParser {
  import opened Wrappers
  import opened Collecting
  import opened Strings
  import opened Config
  import opened Timestamps
  import opened ModuleDetection
  import opened UserDiscovery
  import opened Segments

  /** The record built for one block: the keys "question", "modules", "correct" and "time". */
  datatype Exchange = Exchange(question: string, modules: seq<string>, correct: bool, time: DateTime)

  /** One entry of the result: a user and that user's exchanges, in log order. */
  datatype UserLog = UserLog(user: string, exchanges: seq<Exchange>)

  // ---------------------------------------------------------------------
  // One block
  // ---------------------------------------------------------------------

  /** `first_line.index(inputLine)`: where the marker occurs in an input line. */
  function MarkerIndex(line: string): (i: nat)
    requires IsInputLine(line)
    ensures OccursAt(line, INPUT_LINE, i)
  {
    FindFrom(line, INPUT_LINE, 0).value
  }

  /** The marker index is the FIRST occurrence, as `str.index` promises. */
  lemma MarkerIndexIsFirst(line: string, j: nat)
    requires IsInputLine(line)
    requires j < MarkerIndex(line)
    ensures !OccursAt(line, INPUT_LINE, j)
  {
    if OccursAt(line, INPUT_LINE, j) {
      FindFromFirst(line, INPUT_LINE, 0, j);
    }
  }

  /** The question: what follows the first marker on the block's first line. */
  function Question(line: string): (q: string)
    requires IsInputLine(line)
    ensures line == line[..MarkerIndex(line)] + INPUT_LINE + q
  {
    var i := MarkerIndex(line);
    assert line == line[..i] + line[i..i + |INPUT_LINE|] + line[i + |INPUT_LINE|..];
    line[i + |INPUT_LINE|..]
  }

  /**
   * The marker's first letter appears nowhere else in it, so no proper
   * prefix of the marker is also a suffix: two occurrences never overlap.
   */
  lemma MarkerHasNoBorder()
    ensures forall d :: 1 <= d < |INPUT_LINE| ==> INPUT_LINE[d] != INPUT_LINE[0]
  {
  }

  /**
   * A line written as `pre`, the marker, then `q` gives back `q` as its
   * question, provided `pre` holds no marker.
   */
  lemma QuestionOfMarkedLine(pre: string, q: string)
    requires !Contains(pre, INPUT_LINE)
    ensures IsInputLine(pre + INPUT_LINE + q)
    ensures Question(pre + INPUT_LINE + q) == q
  {
    var line := pre + INPUT_LINE + q;
    var n := |pre|;
    var m := |INPUT_LINE|;
    assert line[n..n + m] == INPUT_LINE;
    ContainsWhenOccurs(line, INPUT_LINE, n);
    var i := MarkerIndex(line);
    if i < n {
      if i + m <= n {
        assert pre[i..i + m] == line[i..i + m];
        ContainsWhenOccurs(pre, INPUT_LINE, i);
        assert false;
      } else {
        assert line[n] == line[i..i + m][n - i] == INPUT_LINE[n - i];
        assert line[n] == INPUT_LINE[0];
        MarkerHasNoBorder();
        assert false;
      }
    } else if n < i {
      MarkerIndexIsFirst(line, n);
      assert false;
    }
    assert line[n + m..] == q;
  }


  /** The exchange built from one block, or the error `get_time` raises on its first line. */
  function MakeExchange(block: seq<string>, year: nat): (r: Result<Exchange, TimeError>)
    requires 1900 <= year <= 9999
    requires |block| >= 1 && IsInputLine(block[0])
    ensures r.Ok? <==> GetTime(block[0], year).Ok?
    ensures r.Err? ==> r.error == GetTime(block[0], year).error
  {
    var logtext := Join(block);
    match GetTime(block[0], year)
    case Err(e) => Err(e)
    case Ok(t) =>
      Ok(Exchange(Question(block[0]), Detected(KNOWN_MODULES, logtext), !Contains(logtext, BAD_RESPONSE), t))
  }

  /**
   * What an exchange says about its block: the question follows the first
   * marker of the first line, the answer is correct exactly when the
   * fallback answer appears nowhere in the block, the modules are exactly the
   * known modules named in the block, each once and in the order the known
   * modules are declared, and the time is the value `get_time` gives for the
   * first line: a valid date in the given year.
   */
  lemma ExchangeFields(block: seq<string>, year: nat)
    requires 1900 <= year <= 9999
    requires |block| >= 1 && IsInputLine(block[0])
    requires MakeExchange(block, year).Ok?
    ensures block[0] == block[0][..MarkerIndex(block[0])] + INPUT_LINE + MakeExchange(block, year).value.question
    ensures MakeExchange(block, year).value.correct <==> !Contains(Join(block), BAD_RESPONSE)
    ensures forall m :: m in MakeExchange(block, year).value.modules <==> m in KNOWN_MODULES && Contains(Join(block), m)
    ensures NoDup(MakeExchange(block, year).value.modules)
    ensures forall p, q :: 0 <= p < q < |MakeExchange(block, year).value.modules| ==>
      Pos(KNOWN_MODULES, MakeExchange(block, year).value.modules[p]) < Pos(KNOWN_MODULES, MakeExchange(block, year).value.modules[q])
    ensures MakeExchange(block, year).value.modules == Detected(KNOWN_MODULES, Join(block))
    ensures GetTime(block[0], year) == Ok(MakeExchange(block, year).value.time)
    ensures Valid(MakeExchange(block, year).value.time) && MakeExchange(block, year).value.time.year == year
  {
    var text := Join(block);
    forall m
      ensures m in Detected(KNOWN_MODULES, text) <==> m in KNOWN_MODULES && Contains(text, m)
    {
      DetectedMembers(KNOWN_MODULES, text, m);
    }
    KnownModulesDistinct();
    DetectedNoDup(KNOWN_MODULES, text);
    forall p, q | 0 <= p < q < |Detected(KNOWN_MODULES, text)|
      ensures Detected(KNOWN_MODULES, text)[p] in KNOWN_MODULES && Detected(KNOWN_MODULES, text)[q] in KNOWN_MODULES
      ensures Pos(KNOWN_MODULES, Detected(KNOWN_MODULES, text)[p]) < Pos(KNOWN_MODULES, Detected(KNOWN_MODULES, text)[q])
    {
      DetectedInDeclaredOrder(KNOWN_MODULES, text, p, q);
    }
  }

  // ---------------------------------------------------------------------
  // The blocks of one user
  // ---------------------------------------------------------------------

  /** The outcome of each block of a user, in order. */
  function Attempts(blocks: seq<seq<string>>, year: nat): (rs: seq<Result<Exchange, TimeError>>)
    requires 1900 <= year <= 9999
    requires Opened(blocks)
    ensures |rs| == |blocks|
    ensures forall k :: 0 <= k < |rs| ==> rs[k] == MakeExchange(blocks[k], year)
  {
    seq(|blocks|, k requires 0 <= k < |blocks| => MakeExchange(blocks[k], year))
  }

  /** The exchanges of a user's blocks, in order; the first failing block's error otherwise. */
  function ExchangesOf(blocks: seq<seq<string>>, year: nat): (r: Result<seq<Exchange>, TimeError>)
    requires 1900 <= year <= 9999
    requires Opened(blocks)
    ensures r.Ok? ==> |r.value| == |blocks|
  {
    Collect(Attempts(blocks, year))
  }

  /** The exchange-building loop of break_logs for one user. */
  method BuildExchanges(blocks: seq<seq<string>>, year: nat) returns (r: Result<seq<Exchange>, TimeError>)
    requires 1900 <= year <= 9999
    requires Opened(blocks)
    ensures r == ExchangesOf(blocks, year)
  {
    ghost var rs := Attempts(blocks, year);
    var exchanges := [];
    for i := 0 to |blocks|
      invariant Collect(rs[..i]) == Ok(exchanges)
    {
      var block := blocks[i];
      var firstLine := block[0];
      var question := Question(firstLine);
      var logtext := Join(block);
      var correct := !Contains(logtext, BAD_RESPONSE);
      var bmods := ModulesInBlock(logtext);
      var time := GetTime(firstLine, year);
      CollectStep(rs, i);
      assert rs[i] == MakeExchange(block, year);
      if time.Err? {
        CollectErrPersists(rs, i + 1);
        return Err(time.error);
      }
      exchanges := exchanges + [Exchange(question, bmods, correct, time.value)];
    }
    assert rs[..|blocks|] == rs;
    return Ok(exchanges);
  }

  /** All the blocks succeed exactly when every block's first line has a valid timestamp. */
  lemma ExchangesOkIff(blocks: seq<seq<string>>, year: nat)
    requires 1900 <= year <= 9999
    requires Opened(blocks)
    ensures ExchangesOf(blocks, year).Ok? <==> forall k :: 0 <= k < |blocks| ==> GetTime(blocks[k][0], year).Ok?
  {
    var rs := Attempts(blocks, year);
    CollectOkIff(rs);
    assert forall k :: 0 <= k < |blocks| ==> (rs[k].Ok? <==> GetTime(blocks[k][0], year).Ok?);
  }

  /** On success, the `k`-th exchange is the one built from the `k`-th block. */
  lemma ExchangeOfBlock(blocks: seq<seq<string>>, year: nat, k: nat)
    requires 1900 <= year <= 9999
    requires Opened(blocks)
    requires ExchangesOf(blocks, year).Ok? && k < |blocks|
    ensures Ok(ExchangesOf(blocks, year).value[k]) == MakeExchange(blocks[k], year)
  {
    CollectAt(Attempts(blocks, year), k);
  }

  /** On failure, the error is the one raised by the first block that fails. */
  lemma ExchangesFirstError(blocks: seq<seq<string>>, year: nat, k: nat)
    requires 1900 <= year <= 9999
    requires Opened(blocks)
    requires k < |blocks| && GetTime(blocks[k][0], year).Err?
    requires forall j :: 0 <= j < k ==> GetTime(blocks[j][0], year).Ok?
    ensures ExchangesOf(blocks, year) == Err(GetTime(blocks[k][0], year).error)
  {
    var rs := Attempts(blocks, year);
    assert forall j :: 0 <= j < k ==> rs[j].Ok?;
    CollectFirstError(rs, k);
  }

  // ---------------------------------------------------------------------
  // The whole log
  // ---------------------------------------------------------------------

  /** The blocks of one user's lines. */
  function UserBlocks(lines: seq<string>, user: string): (bs: seq<seq<string>>)
    ensures Opened(bs)
  {
    BlocksWellFormed(UserLines(lines, user));
    Blocks(UserLines(lines, user))
  }

  /** The entry of one user: the user with the exchanges of that user's blocks. */
  function UserEntry(lines: seq<string>, user: string, year: nat): Result<UserLog, TimeError>
    requires 1900 <= year <= 9999
  {
    match ExchangesOf(UserBlocks(lines, user), year)
    case Err(e) => Err(e)
    case Ok(xs) => Ok(UserLog(user, xs))
  }

  /** The outcome of each user, in order. */
  function Entries(lines: seq<string>, users: seq<string>, year: nat): (es: seq<Result<UserLog, TimeError>>)
    requires 1900 <= year <= 9999
    ensures |es| == |users|
    ensures forall k :: 0 <= k < |es| ==> es[k] == UserEntry(lines, users[k], year)
  {
    seq(|users|, k requires 0 <= k < |users| => UserEntry(lines, users[k], year))
  }

  /** The per-user entries for `users`, in order; the first error otherwise. */
  function ReportFrom(lines: seq<string>, users: seq<string>, year: nat): (r: Result<seq<UserLog>, TimeError>)
    requires 1900 <= year <= 9999
    ensures r.Ok? ==> |r.value| == |users|
  {
    Collect(Entries(lines, users, year))
  }

  /** What break_logs returns for a log, the current year being `year`. */
  function Report(logdata: string, year: nat): Result<seq<UserLog>, TimeError>
    requires 1900 <= year <= 9999
  {
    ReportFrom(Split(logdata), Users(logdata), year)
  }

  /** break_logs: users first, then the lines, then each user's blocks and exchanges. */
  method BreakLogs(logdata: string, year: nat) returns (r: Result<seq<UserLog>, TimeError>)
    requires 1900 <= year <= 9999
    ensures r == Report(logdata, year)
  {
    var users := DiscoverUsers(logdata);
    var ldata := Split(logdata);
    ghost var es := Entries(ldata, users, year);
    var logs := [];
    for i := 0 to |users|
      invariant Collect(es[..i]) == Ok(logs)
    {
      var user := users[i];
      var userData := UserLines(ldata, user);
      var blocks := CutBlocks(userData);
      BlocksWellFormed(userData);
      var exchanges := BuildExchanges(blocks, year);
      CollectStep(es, i);
      assert es[i] == UserEntry(ldata, user, year);
      if exchanges.Err? {
        CollectErrPersists(es, i + 1);
        return Err(exchanges.error);
      }
      logs := logs + [UserLog(user, exchanges.value)];
    }
    assert es[..|users|] == es;
    return Ok(logs);
  }

  /** On success, the entries are the discovered users, in discovery order. */
  lemma ReportEntry(lines: seq<string>, users: seq<string>, year: nat, k: nat)
    requires 1900 <= year <= 9999
    requires ReportFrom(lines, users, year).Ok? && k < |users|
    ensures ReportFrom(lines, users, year).value[k].user == users[k]
    ensures Ok(ReportFrom(lines, users, year).value[k].exchanges) == ExchangesOf(UserBlocks(lines, users[k]), year)
  {
    CollectAt(Entries(lines, users, year), k);
  }

  /**
   * A successful report has one entry per user named in a tag on an input
   * line, in order of first appearance, each user once; and each user has
   * one exchange per input line among the log lines that mention that user.
   */
  lemma ReportUsers(logdata: string, year: nat, k: nat)
    requires 1900 <= year <= 9999
    requires Report(logdata, year).Ok? && k < |Report(logdata, year).value|
    ensures |Report(logdata, year).value| == |Users(logdata)|
    ensures Report(logdata, year).value[k].user == Users(logdata)[k]
    ensures NoDup(Users(logdata))
    ensures |Report(logdata, year).value[k].exchanges| == InputLineCount(UserLines(Split(logdata), Users(logdata)[k]))
  {
    var users := Users(logdata);
    ReportEntry(Split(logdata), users, year, k);
    UsersAreTagged(logdata, users[k]);
    BlockCount(UserLines(Split(logdata), users[k]));
  }

  /**
   * Every exchange of a successful report comes from a line of the log that
   * mentions its user and carries the input marker: the question is what
   * follows the marker there and the time is read from that line.
   */
  lemma ReportExchangeSource(logdata: string, year: nat, k: nat, j: nat)
    requires 1900 <= year <= 9999
    requires Report(logdata, year).Ok? && k < |Report(logdata, year).value|
    requires j < |Report(logdata, year).value[k].exchanges|
    ensures exists line ::
              && line in Split(logdata)
              && Contains(line, Report(logdata, year).value[k].user) && IsInputLine(line)
              && Report(logdata, year).value[k].exchanges[j].question == Question(line)
              && GetTime(line, year) == Ok(Report(logdata, year).value[k].exchanges[j].time)
  {
    var lines := Split(logdata);
    var users := Users(logdata);
    ReportEntry(lines, users, year, k);
    var bs := UserBlocks(lines, users[k]);
    ExchangeOfBlock(bs, year, j);
    BlockLinesFromData(UserLines(lines, users[k]), j, 0);
    var line := bs[j][0];
    assert line in lines && Contains(line, users[k]);
  }

  /** The report succeeds exactly when every block of every user has a valid timestamp. */
  lemma ReportOkIff(lines: seq<string>, users: seq<string>, year: nat)
    requires 1900 <= year <= 9999
    ensures ReportFrom(lines, users, year).Ok?
        <==> forall k, j :: 0 <= k < |users| && 0 <= j < |UserBlocks(lines, users[k])|
               ==> GetTime(UserBlocks(lines, users[k])[j][0], year).Ok?
  {
    var es := Entries(lines, users, year);
    CollectOkIff(es);
    forall k | 0 <= k < |users|
      ensures es[k].Ok?
          <==> forall j :: 0 <= j < |UserBlocks(lines, users[k])| ==> GetTime(UserBlocks(lines, users[k])[j][0], year).Ok?
    {
      ExchangesOkIff(UserBlocks(lines, users[k]), year);
    }
  }

  /** A log without any user tag on an input line gives an empty report. */
  lemma NoTagsEmptyReport(logdata: string, year: nat)
    requires 1900 <= year <= 9999
    requires forall p, x :: !TagAt(logdata, p, x)
    ensures Report(logdata, year) == Ok([])
  {
    NoUsersIff(logdata);
  }
}
