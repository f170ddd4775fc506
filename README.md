# logparser, modelled in Dafny

`logparser.py` reads the log of a chat bot. Each log line carries a
year-less timestamp (`Jan 5 13:42`). Some lines also carry a user tag
(`[user: bob]`), and the line that opens a new question carries the marker
`Unitex input: `. The program does four things:

- It finds the users named in a tag that comes right before the marker,
  each user once and in order of first appearance.
- For each user, it keeps the log lines that mention that user. It cuts
  them into question/answer blocks, each opened by a marker line.
- It turns every block into an exchange: the question after the marker,
  the known modules named in the block, whether the fallback answer
  "Hey, sorry. What were we talking about?" is absent, and the time of the
  first line.
- If asked, it flattens the result into comma-separated text, one line per
  exchange.

The model follows the program's own structure, one module per part:

| module | file | models |
|---|---|---|
| `Config` | `config.dfy` | the constants `modules`, `inputLine`, `badResponse`, `csv_headers` |
| `Strings` | `strings.dfy` | `in` on strings, `str.index`, `split("\n")`, `"\n".join` and decimal numerals; `Pos`, the position of a value in a list, is used to state orders |
| `Timestamps` | `timestamps.dfy` | `get_time`: the anchored regular expression `^(\w+\s\d{1,2}\s\d{1,2}:\d{2})`, then `strptime` with `%Y %b %d %H:%M`; also `datetime.isoformat` |
| `ModuleDetection` | `module_detection.dfy` | `modules_in_block` |
| `UserDiscovery` | `users.dfy` | the user regular expression of `break_logs`, scanned with `finditer`, and its deduplicating loop |
| `Segments` | `segments.dfy` | each user's lines, the start indices and the block-cutting loop |
| `Wrappers` | `wrappers.dfy` | `Option` and `Result` |
| `Collecting` | `collecting.dfy` | `Collect`: a loop that appends one value per step and lets the first exception escape |
| `LogParser` | `logparser.dfy` | the exchange-building loop and `break_logs` as a whole |
| `Csv` | `csv.dfy` | `plotable_data` |

Each loop of the program is a method with loop invariants. Its
postcondition equates the result with a specification function that
follows the loop step by step:

- `ModulesInBlock` equals `Detected`.
- `DiscoverUsers` equals `Users`.
- `CutBlocks` equals `Blocks`.
- `BuildExchanges` equals `ExchangesOf`.
- `BreakLogs` equals `Report`.
- `PlotableData` equals `CsvText`.

Lemmas then prove what those functions mean.

An exception of the program becomes an `Err` value. The anchored search in
`get_time` may find nothing, and then `.group` raises: that is
`NoTimestamp`. `strptime` may reject the fields: that is
`InvalidTimestamp`. Either one ends `break_logs`, and the model returns the
first error met, in the program's order.

The regular expressions follow Python 2 byte-string semantics:

- `\s` is space, tab, newline, carriage return, vertical tab or form feed.
- `\w` is an ASCII letter, a digit or `_`.
- `.` is anything but a newline.
- The greedy `(.+)` captures up to the last place on the line where the
  rest of the pattern matches.

Two points of behaviour follow from the code as written:

- A user's lines are the lines that contain the user's name anywhere
  (`user in line`). A line of `bobby` therefore also counts as a line of
  `bob`.
- A user's lines that come before that user's first marker line belong to
  no block and are dropped. `Segments.BlocksCover` proves the blocks cover
  exactly the lines from the first marker line on.

## Model

| member | source | states |
|---|---|---|
| Strings.FindFromFirst | logparser.py:118 | the substring search stops at or before every occurrence, so it finds the first one |
| Strings.ContainsInfix | logparser.py:120 | a phrase that occurs in one part of a concatenation occurs in the whole text |
| Strings.JoinPieceContains | logparser.py:119-120 | a phrase that occurs in one line of a block occurs in the newline-joined block text |
| Strings.Split | logparser.py:92 | splitting at newlines gives at least one piece, and no piece contains a newline |
| Strings.JoinSplit | logparser.py:92 | joining the pieces of the split with newlines gives back the whole log |
| Strings.SplitPieceContains | logparser.py:92 | whatever a line of the split contains, the log contains |
| Strings.PadValue | logparser.py:145 | a zero-padded numeral reads back as the number it renders |
| Collecting.CollectStep | logparser.py:113-123 | one more step of an appending loop: its value is appended, unless it or an earlier step raised, in which case the earlier outcome stands |
| Collecting.CollectErrPersists | logparser.py:113-123 | once a step has raised, the loop's outcome is that exception whatever follows |
| Collecting.CollectAt | logparser.py:113-123 | when the loop completes, its k-th value is the value of its k-th step |
| Collecting.CollectOkIff | logparser.py:113-123 | the loop completes exactly when every step completes |
| Collecting.CollectFirstError | logparser.py:113-123 | when the loop fails, it raises the exception of the first step that raises |
| ModuleDetection.ModulesInBlock | logparser.py:48-57 | the loop returns exactly the declared modules that occur in the text, kept in declared order |
| ModuleDetection.DetectedMembers | logparser.py:54-56 | a module is reported exactly when it is a known module and occurs in the text |
| ModuleDetection.DetectedInDeclaredOrder | logparser.py:54-56 | reported modules keep the order of the module list, not the order in which they appear in the text |
| ModuleDetection.DetectedNoDup | logparser.py:54-56 | a list of distinct modules yields a report without repetitions |
| ModuleDetection.NothingDetected | logparser.py:52-57 | a block naming no known module yields the empty list |
| ModuleDetection.KnownModulesDistinct | logparser.py:33 | the four module names are distinct |
| ModuleDetection.ChatScriptBeforeSiren | logparser.py:33 | when both occur, ChatScript is reported before SIREN, wherever they appear |
| Timestamps.TimePrefix | logparser.py:43 | a match is a word, whitespace, a 1-2 digit day, whitespace, a 1-2 digit hour, a colon and a 2-digit minute at the very start of the line |
| Timestamps.TimePrefixFinds | logparser.py:63 | the anchored search finds every prefix of that shape, with exactly its pieces |
| Timestamps.NoTimestampIff | logparser.py:63 | get_time fails with NoTimestamp exactly when no prefix of the line has that shape |
| Timestamps.MonthNumber | logparser.py:72 | `%b` accepts a month abbreviation in any letter case and yields its month number; any other word is refused |
| Timestamps.MonthAbbrLower | logparser.py:72 | the lower-case month table is the English abbreviations in lower case |
| Timestamps.MonthNumberOfAbbr | logparser.py:72 | each of the twelve English abbreviations names its own month |
| Timestamps.Strptime | logparser.py:72 | strptime accepts the pieces exactly when the month word is an abbreviation in any case, the day exists in that month of the assumed year, the hour is below 24 and the minute below 60; it then gives that date-time with zero seconds, and otherwise raises InvalidTimestamp on the pieces |
| Timestamps.GetTime | logparser.py:59-73 | a success is a valid calendar date-time in the assumed year with zero seconds; InvalidTimestamp carries exactly the matched prefix |
| Timestamps.GetTimeOkIff | logparser.py:59-73 | get_time succeeds exactly when the line begins with a prefix of the expected shape whose pieces strptime accepts; otherwise it raises NoTimestamp when there is no such prefix, InvalidTimestamp on the prefix's pieces when there is |
| Timestamps.GetTimeOfPrefix | logparser.py:63-72 | once a well-shaped prefix is there, the result is what strptime makes of its pieces |
| Timestamps.GetTimeReadsPrefix | logparser.py:63-72 | a success read its month, day, hour and minute from the prefix of the line |
| Timestamps.StrptimeOfRendered | logparser.py:72 | strptime reads the pieces a log writes for a valid date-time back to that date-time |
| Timestamps.GetTimeOfRendered | logparser.py:59-73 | round trip: a line that begins with the rendering of a valid date-time of the assumed year, whatever whitespace separates it and whatever follows, parses back to it |
| Timestamps.GetTimeExample | logparser.py:59-73 | `Jan 5 13:42` in 2024 is 2024-01-05 13:42:00 |
| Timestamps.StrptimeOtherSpellings | logparser.py:72 | a lower-case month, a zero-padded day and a one-digit hour are accepted: `jan 05 9:42` in 2024 is 2024-01-05 09:42:00 |
| Timestamps.StrptimeLeapDay | logparser.py:72 | 29 February is accepted exactly in a leap year |
| Timestamps.LeapDayDependsOnYear | logparser.py:70-72 | the assumed year decides whether a line dated 29 February parses or raises |
| Timestamps.IsoFormat | logparser.py:145 | the ISO text is 19 characters long and contains no line break |
| Timestamps.IsoRoundTrip | logparser.py:145 | the ISO text has the `YYYY-MM-DDTHH:MM:SS` shape, and reading it back gives the date-time |
| UserDiscovery.LastClose | logparser.py:82 | the greedy capture ends at the last position on the line where the rest of the pattern matches |
| UserDiscovery.MatchAt | logparser.py:82 | a match at p captures at least one character and leaves room for the closing `]`, whitespace and marker |
| UserDiscovery.MatchIsTag | logparser.py:82 | a match at p is a tag: `[user:`, whitespace, a one-line non-empty name, `]`, whitespace and the marker |
| UserDiscovery.TagMatched | logparser.py:82 | every tag is matched where it starts, and the capture is at least as long as its name |
| UserDiscovery.CapturesFrom | logparser.py:88 | every captured name is non-empty and contains no newline |
| UserDiscovery.CaptureSkipRun | logparser.py:88 | the scan passes over positions where the pattern does not match: from q it reports what it reports from p when nothing matches in between |
| UserDiscovery.LeftmostCapture | logparser.py:88 | the first name captured from a position on is the one of the leftmost match at or after it |
| UserDiscovery.CaptureReached | logparser.py:88 | a match is reported when no earlier match the scan can meet runs past its start |
| UserDiscovery.TagCapture | logparser.py:82 | when no closing pattern follows a tag on its line, the match at the tag captures exactly the tag's name |
| UserDiscovery.CapturesAreTags | logparser.py:88 | every captured name is the name of a tag in the log |
| UserDiscovery.NoCapturesIff | logparser.py:88 | nothing is captured exactly when the pattern matches nowhere |
| UserDiscovery.DedupMembers | logparser.py:87-90 | the user list holds exactly the captured names |
| UserDiscovery.DedupFirstSeenOrder | logparser.py:87-90 | users are listed in the order of their first capture |
| UserDiscovery.DedupNoDup | logparser.py:89-90 | no user is listed twice |
| UserDiscovery.DiscoverUsers | logparser.py:82-90 | the discovery loop returns the distinct captured names in first-seen order |
| UserDiscovery.UsersAreTagged | logparser.py:82-90 | the user list has no duplicates and holds exactly the captured names, each the name of a tag |
| UserDiscovery.TaggedIsUser | logparser.py:82-90 | a tag's name is a user when no closing pattern follows the tag on its line and no earlier match runs past the tag |
| UserDiscovery.NoUsersIff | logparser.py:82-90 | there are no users exactly when the log has no tag |
| Segments.UserLines | logparser.py:98 | the user's lines are log lines that mention the user, and every log line that mentions the user is among them |
| Segments.UserLinesAppend | logparser.py:98 | the filter keeps log order: it distributes over concatenation |
| Segments.StartLines | logparser.py:101 | the start indices are strictly increasing and are exactly the indices of the marker lines |
| Segments.FirstInputLine | logparser.py:101 | no marker line comes before the first marker line's index, and a marker line stands there when there is one |
| Segments.FirstInputLineIsFirstStart | logparser.py:101-110 | that index is the first start index, `start_lines[0]`, and there is no start index exactly when there is no marker line |
| Segments.CutBlocks | logparser.py:103-110 | the block-cutting loop yields exactly `Blocks` of the user's lines |
| Segments.BlocksExtend | logparser.py:104-110 | a marker line followed by non-marker lines adds exactly one block, made of that run of lines |
| Segments.BlocksStep | logparser.py:106-110 | each start index adds the block that runs to the next start index, or to the end after the last one |
| Segments.BlockLinesFromData | logparser.py:107-110 | every line of every block is one of the user's lines |
| Segments.BlockCount | logparser.py:101-110 | there are exactly as many blocks as marker lines |
| Segments.BlockShape | logparser.py:101-110 | the k-th block starts with a marker line and holds no other |
| Segments.BlocksWellFormed | logparser.py:101-118 | the block list as a whole is well formed; its first half, that every block opens with a marker line, is what lets line 118 find the marker |
| Segments.BlocksCover | logparser.py:103-110 | laid end to end, the blocks give exactly the user's lines from the first marker line on; there are none exactly when there is no marker line |
| Segments.BlocksCoverAll | logparser.py:103-110 | when the user's first line is a marker line, no line is dropped |
| LogParser.MarkerIndex | logparser.py:118 | the marker occurs in the first line at the index found |
| LogParser.MarkerIndexIsFirst | logparser.py:118 | no earlier occurrence exists, as `str.index` promises |
| LogParser.Question | logparser.py:118 | the first line is what precedes the first marker, then the marker, then the question |
| LogParser.MarkerHasNoBorder | logparser.py:37 | the marker's first letter occurs nowhere else in it, so two occurrences of the marker never overlap |
| LogParser.QuestionOfMarkedLine | logparser.py:118 | a line written as prefix, marker, text gives that text back as the question when the prefix holds no marker |
| LogParser.MakeExchange | logparser.py:114-123 | a block yields an exchange exactly when get_time accepts its first line, and otherwise raises get_time's error |
| LogParser.ExchangeFields | logparser.py:116-123 | the question follows the first marker; `correct` holds exactly when the fallback answer is absent from the block; the modules are exactly the known modules the block names, each once and in declared order, as `modules_in_block` of the joined block gives them; the time is the value `get_time` gives for the first line, a valid date in the assumed year |
| LogParser.BuildExchanges | logparser.py:113-123 | the loop over one user's blocks returns `ExchangesOf`: one exchange per block in order, or the first error |
| LogParser.ExchangesOkIff | logparser.py:114-123 | a user's blocks all succeed exactly when every block's first line has an accepted timestamp |
| LogParser.ExchangeOfBlock | logparser.py:114-123 | on success, the k-th exchange is the one built from the k-th block |
| LogParser.ExchangesFirstError | logparser.py:114-123 | on failure, the error raised is that of the first block whose timestamp is refused |
| LogParser.UserBlocks | logparser.py:98-110 | every block the code cuts opens with a marker line, so `index` on its first line cannot fail |
| LogParser.BreakLogs | logparser.py:75-125 | break_logs returns `Report`: the users' entries in discovery order, or the first error |
| LogParser.ReportEntry | logparser.py:96-123 | on success, the k-th entry is the k-th user with the exchanges of that user's blocks |
| LogParser.ReportUsers | logparser.py:82-123 | on success there is one entry per discovered user, in order and without repetition, and each user has one exchange per marker line among the lines that mention the user |
| LogParser.ReportExchangeSource | logparser.py:96-123 | every exchange comes from a log line that mentions its user and carries the marker; its question and time are read from that line |
| LogParser.ReportOkIff | logparser.py:96-123 | break_logs succeeds exactly when every block of every user has an accepted timestamp |
| LogParser.NoTagsEmptyReport | logparser.py:87-125 | a log without any user tag gives an empty result |
| Csv.HeaderText | logparser.py:132 | the header line is `User, ResponseModule, Question, Correct, Timestamp` |
| Csv.ResponseModule | logparser.py:139 | the responder is SIREN exactly when SIREN is among the exchange's modules, and ChatScript otherwise |
| Csv.ResponseModuleOfBlock | logparser.py:121-139 | for a block, SIREN is credited exactly when the block text contains "SIREN" |
| Csv.BoolText | logparser.py:145 | the correctness column reads "True" when the answer was correct and "False" when it was not |
| Csv.PlotableData | logparser.py:127-147 | the loop returns `CsvText`: the header, then one line per exchange, user by user, each line opened by "\r\n" |
| Csv.RowFields | logparser.py:143-145 | a row is a line break and then the five fields in the header's column order, joined with a comma and a space as the header is |
| Csv.RowBreaks | logparser.py:143-145 | a row holds exactly one newline when its user and question hold none |
| Csv.CsvLineCount | logparser.py:132-147 | the text holds exactly one newline per exchange when no user or question holds one |
| Csv.CsvHeaderOnly | logparser.py:132-147 | the text is the bare header exactly when there is no exchange |
| Csv.QuestionSingleLine | logparser.py:92-118 | a question read from a log line contains no newline |
| Csv.ReportLineCount | logparser.py:75-147 | for a report built from a log, the text holds exactly one line per exchange after the header |

## Left out

- Command line, file input and output (logparser.py:15-30, 149-166): `argparse`, reading the log file, `print`, and the `repr` of the dictionary at line 162. The options `--noerrors` and `--timegroup` are never used by the code.
- The clock (logparser.py:70): the current year is the parameter `year`. It is restricted to 1900..9999, the range in which Python 2 `strftime` accepts a year and `%Y` reads four digits.
- Timestamps.GetTime: returns the fields strptime read. It leaves out the round trip through local time by `time.mktime` and `datetime.fromtimestamp` (logparser.py:73), which can shift a time that falls into a daylight-saving gap.
- Timestamps.MonthNumber: `%b` is modelled for the C locale only (English abbreviations).
- LogParser.BreakLogs: the result is a sequence of entries in user discovery order, not a dictionary. Each user is distinct, so the entries are the dictionary's items. The order in which `iteritems` visits them (logparser.py:135) is left out, so `Csv.PlotableData` takes the entries in discovery order.
- LogParser.MakeExchange: requires that the block opens with a marker line (the `Opened` condition on `ExchangesOf`). `first_line.index(inputLine)` would raise otherwise. `LogParser.UserBlocks` proves this holds for every block the code builds, so the failure cannot occur.
- Byte strings are modelled as sequences of characters. No encoding is involved.
