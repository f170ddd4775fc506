/**
 * Reading the year-less `Mon D HH:MM` prefix of a log line (get_time) and
 * rendering a date-time in ISO 8601 form (datetime.isoformat).
 */
module Timestamps {
  import opened Wrappers
  import opened Strings

  /** A point in local time; the parser always produces `second == 0`. */
  datatype DateTime = DateTime(year: nat, month: nat, day: nat, hour: nat, minute: nat, second: nat)

  /** The pieces of the matched prefix: month word, day, hour and minute numerals. */
  datatype Fragment = Fragment(word: string, day: string, hour: string, minute: string)

  datatype TimeError =
    | NoTimestamp(line: string)           // the anchored search fails: `None.group` raises
    | InvalidTimestamp(fragment: Fragment) // strptime raises ValueError

  const MONTH_ABBRS: seq<string> :=
    ["Jan", "Feb", "Mar", "Apr", "May", "Jun", "Jul", "Aug", "Sep", "Oct", "Nov", "Dec"]

  const LOWER_MONTHS: seq<string> :=
    ["jan", "feb", "mar", "apr", "may", "jun", "jul", "aug", "sep", "oct", "nov", "dec"]

  predicate IsLeapYear(y: nat) {
    y % 4 == 0 && (y % 100 != 0 || y % 400 == 0)
  }

  function DaysInMonth(y: nat, m: nat): nat
    requires 1 <= m <= 12
  {
    if m == 2 then (if IsLeapYear(y) then 29 else 28)
    else if m == 4 || m == 6 || m == 9 || m == 11 then 30
    else 31
  }

  /** The field ranges every Python `datetime` respects. */
  predicate Valid(t: DateTime) {
    && 1 <= t.year <= 9999
    && 1 <= t.month <= 12
    && 1 <= t.day <= DaysInMonth(t.year, t.month)
    && t.hour < 24 && t.minute < 60 && t.second < 60
  }

  // ---------------------------------------------------------------------
  // The regular expression `^(\w+\s\d{1,2}\s\d{1,2}:\d{2})`
  // ---------------------------------------------------------------------

  /** The end of the run of word characters starting at `i`. */
  function WordEnd(s: string, i: nat): (r: nat)
    requires i <= |s|
    decreases |s| - i
    ensures i <= r <= |s|
    ensures forall k :: i <= k < r ==> IsWordChar(s[k])
    ensures r == |s| || !IsWordChar(s[r])
  {
    if i < |s| && IsWordChar(s[i]) then WordEnd(s, i + 1) else i
  }

  predicate IsSeparator(c: char, colon: bool) {
    if colon then c == ':' else IsSpace(c)
  }

  /**
   * `\d{1,2}` at `p` followed by `\s` (or by `:` when `colon`): the index of
   * that separator. Greedy matching with backtracking accepts exactly one of
   * the two lengths, since a digit is never a separator.
   */
  function ShortNumberEnd(s: string, p: nat, colon: bool): (r: Option<nat>)
    ensures r.Some? ==> p + 1 <= r.value <= p + 2 && r.value < |s|
    ensures r.Some? ==> AllDigits(s[p..r.value]) && IsSeparator(s[r.value], colon)
  {
    if p < |s| && IsDigit(s[p]) then
      if p + 1 < |s| && IsSeparator(s[p + 1], colon) then Some(p + 1)
      else if p + 2 < |s| && IsDigit(s[p + 1]) && IsSeparator(s[p + 2], colon) then Some(p + 2)
      else None
    else None
  }

  /** The lengths the regular expression allows for each piece. */
  predicate FragmentShape(f: Fragment) {
    && |f.word| >= 1 && (forall k :: 0 <= k < |f.word| ==> IsWordChar(f.word[k]))
    && 1 <= |f.day| <= 2 && AllDigits(f.day)
    && 1 <= |f.hour| <= 2 && AllDigits(f.hour)
    && |f.minute| == 2 && AllDigits(f.minute)
  }

  /** `line` begins with word, whitespace, day, whitespace, hour, `:`, minute. */
  predicate BeginsWith(line: string, f: Fragment) {
    var n1 := |f.word|;
    var n2 := n1 + 1 + |f.day|;
    var n3 := n2 + 1 + |f.hour|;
    && n3 + 3 <= |line|
    && line[..n1] == f.word && IsSpace(line[n1])
    && line[n1 + 1..n2] == f.day && IsSpace(line[n2])
    && line[n2 + 1..n3] == f.hour && line[n3] == ':'
    && line[n3 + 1..n3 + 3] == f.minute
  }

  /** The anchored search, split at the separators; `None` when it does not match. */
  function TimePrefix(line: string): (r: Option<Fragment>)
    ensures r.Some? ==> FragmentShape(r.value) && BeginsWith(line, r.value)
  {
    var w := WordEnd(line, 0);
    if w == 0 || w >= |line| || !IsSpace(line[w]) then None
    else match ShortNumberEnd(line, w + 1, false)
      case None => None
      case Some(d) =>
        match ShortNumberEnd(line, d + 1, true)
        case None => None
        case Some(h) =>
          if h + 3 <= |line| && IsDigit(line[h + 1]) && IsDigit(line[h + 2]) then
            PiecesBegin(line, w, d, h);
            Some(Fragment(line[..w], line[w + 1..d], line[d + 1..h], line[h + 1..h + 3]))
          else None
  }

  /** The pieces cut at the separators the search found are a well-shaped prefix. */
  lemma PiecesBegin(line: string, w: nat, d: nat, h: nat)
    requires 1 <= w < |line| && IsSpace(line[w])
    requires forall k :: 0 <= k < w ==> IsWordChar(line[k])
    requires w + 2 <= d <= w + 3 && d < |line| && AllDigits(line[w + 1..d]) && IsSpace(line[d])
    requires d + 2 <= h <= d + 3 && h + 3 <= |line| && AllDigits(line[d + 1..h]) && line[h] == ':'
    requires IsDigit(line[h + 1]) && IsDigit(line[h + 2])
    ensures var f := Fragment(line[..w], line[w + 1..d], line[d + 1..h], line[h + 1..h + 3]);
            FragmentShape(f) && BeginsWith(line, f)
  {
    var f := Fragment(line[..w], line[w + 1..d], line[d + 1..h], line[h + 1..h + 3]);
    assert |f.word| == w && |f.day| == d - w - 1 && |f.hour| == h - d - 1;
    assert f.minute == [line[h + 1], line[h + 2]];
  }

  /** The search finds every well-shaped prefix: it reads exactly the pieces that are there. */
  lemma TimePrefixFinds(line: string, f: Fragment)
    requires FragmentShape(f) && BeginsWith(line, f)
    ensures TimePrefix(line) == Some(f)
  {
    var n1 := |f.word|;
    var n2 := n1 + 1 + |f.day|;
    var n3 := n2 + 1 + |f.hour|;
    WordEndOfPrefix(line, f.word);
    ShortNumberAt(line, n1 + 1, f.day, false);
    ShortNumberAt(line, n2 + 1, f.hour, true);
    assert line[n3 + 1] == f.minute[0] && line[n3 + 2] == f.minute[1];
  }

  /** The word run at the start of a line is exactly the word it begins with. */
  lemma WordEndOfPrefix(line: string, word: string)
    requires |word| < |line| && line[..|word|] == word && IsSpace(line[|word|])
    requires forall k :: 0 <= k < |word| ==> IsWordChar(word[k])
    ensures WordEnd(line, 0) == |word|
  {
    assert forall k :: 0 <= k < |word| ==> line[k] == word[k];
    WordEndAt(line, 0, |word|);
  }

  /** A one- or two-digit numeral at `p`, then its separator, is read whole. */
  lemma ShortNumberAt(s: string, p: nat, digits: string, colon: bool)
    requires 1 <= |digits| <= 2 && AllDigits(digits)
    requires p + |digits| < |s| && s[p..p + |digits|] == digits
    requires IsSeparator(s[p + |digits|], colon)
    ensures ShortNumberEnd(s, p, colon) == Some(p + |digits|)
  {
    assert s[p] == digits[0];
    if |digits| == 2 {
      assert s[p + 1] == digits[1];
    }
  }

  lemma {:induction false} WordEndAt(s: string, i: nat, n: nat)
    requires i <= n < |s|
    requires forall k :: i <= k < n ==> IsWordChar(s[k])
    requires !IsWordChar(s[n])
    ensures WordEnd(s, i) == n
    decreases n - i
  {
    if i < n {
      WordEndAt(s, i + 1, n);
    }
  }

  // ---------------------------------------------------------------------
  // time.strptime(year + " " + fragment, "%Y %b %d %H:%M")
  // ---------------------------------------------------------------------

  function LowerChar(c: char): char {
    if 'A' <= c <= 'Z' then (c as int + 32) as char else c
  }

  function Lower(s: string): (r: string)
    ensures |r| == |s|
  {
    if s == [] then [] else [LowerChar(s[0])] + Lower(s[1..])
  }

  /** The month whose lower-case abbreviation is `l`, searching from index `i`. */
  function MonthFrom(l: string, i: nat): (r: Option<nat>)
    requires i <= 12
    decreases 12 - i
    ensures r.Some? ==> i + 1 <= r.value <= 12 && l == LOWER_MONTHS[r.value - 1]
    ensures r.None? ==> forall k :: i <= k < 12 ==> l != LOWER_MONTHS[k]
  {
    if i == 12 then None
    else if l == LOWER_MONTHS[i] then Some(i + 1)
    else MonthFrom(l, i + 1)
  }

  /** `%b` in the C locale: a month abbreviation in any letter case. */
  function MonthNumber(word: string): (r: Option<nat>)
    ensures r.Some? ==> 1 <= r.value <= 12 && Lower(word) == LOWER_MONTHS[r.value - 1]
    ensures r.None? ==> Lower(word) !in LOWER_MONTHS
  {
    MonthFrom(Lower(word), 0)
  }

  lemma Lower3(a: string)
    requires |a| == 3
    ensures Lower(a) == [LowerChar(a[0]), LowerChar(a[1]), LowerChar(a[2])]
  {
    assert Lower(a) == [LowerChar(a[0])] + Lower(a[1..]);
    assert Lower(a[1..]) == [LowerChar(a[1])] + Lower(a[2..]);
    assert Lower(a[2..]) == [LowerChar(a[2])] + Lower(a[3..]);
  }

  lemma {:induction false} MonthFromAt(m: nat, i: nat)
    requires 1 <= m <= 12 && i < m
    decreases 12 - i
    ensures MonthFrom(LOWER_MONTHS[m - 1], i) == Some(m)
  {
    if i < m - 1 {
      assert LOWER_MONTHS[i] != LOWER_MONTHS[m - 1];
      MonthFromAt(m, i + 1);
    }
  }

  /** The lower-case abbreviations are the abbreviations in lower case. */
  lemma MonthAbbrLower(m: nat)
    requires 1 <= m <= 12
    ensures Lower(MONTH_ABBRS[m - 1]) == LOWER_MONTHS[m - 1]
  {
    var a := MONTH_ABBRS[m - 1];
    Lower3(a);
    assert LowerChar(a[0]) == LOWER_MONTHS[m - 1][0];
    assert LowerChar(a[1]) == LOWER_MONTHS[m - 1][1];
    assert LowerChar(a[2]) == LOWER_MONTHS[m - 1][2];
  }

  /** Each abbreviation names its own month. */
  lemma MonthNumberOfAbbr(m: nat)
    requires 1 <= m <= 12
    ensures MonthNumber(MONTH_ABBRS[m - 1]) == Some(m)
    ensures |MONTH_ABBRS[m - 1]| == 3
    ensures IsWordChar(MONTH_ABBRS[m - 1][0]) && IsWordChar(MONTH_ABBRS[m - 1][1])
            && IsWordChar(MONTH_ABBRS[m - 1][2])
  {
    MonthAbbrLower(m);
    MonthFromAt(m, 0);
  }

  /**
   * The pieces strptime accepts in the given year: a month abbreviation in
   * any letter case, a day that exists in that month, an hour of the day and
   * a minute of the hour.
   */
  predicate Accepted(year: nat, f: Fragment)
    requires FragmentShape(f)
  {
    && MonthNumber(f.word).Some?
    && 1 <= Value(f.day) <= DaysInMonth(year, MonthNumber(f.word).value)
    && Value(f.hour) < 24 && Value(f.minute) < 60
  }

  /**
   * The fields `%d` (1..31), `%H` (0..23) and `%M` (0..59) accept, then the
   * calendar check that rejects a day past the end of the month.
   */
  function Strptime(year: nat, f: Fragment): (r: Result<DateTime, TimeError>)
    requires FragmentShape(f)
    ensures r.Ok? <==> Accepted(year, f)
    ensures r.Ok? ==> r.value == DateTime(year, MonthNumber(f.word).value, Value(f.day), Value(f.hour), Value(f.minute), 0)
    ensures r.Err? ==> r.error == InvalidTimestamp(f)
  {
    var month := MonthNumber(f.word);
    var day, hour, minute := Value(f.day), Value(f.hour), Value(f.minute);
    if month.None? || day < 1 || day > 31 || hour > 23 || minute > 59 then Err(InvalidTimestamp(f))
    else if day > DaysInMonth(year, month.value) then Err(InvalidTimestamp(f))
    else Ok(DateTime(year, month.value, day, hour, minute, 0))
  }

  /** get_time with the assumed year passed in rather than read from the clock. */
  function GetTime(line: string, year: nat): (r: Result<DateTime, TimeError>)
    requires 1900 <= year <= 9999
    ensures r.Ok? ==> Valid(r.value) && r.value.year == year && r.value.second == 0
    ensures r.Err? && r.error.InvalidTimestamp? ==> TimePrefix(line) == Some(r.error.fragment)
  {
    match TimePrefix(line)
    case None => Err(NoTimestamp(line))
    case Some(f) => Strptime(year, f)
  }

  /** Once the prefix is found, the result is what strptime makes of its pieces. */
  lemma GetTimeOfPrefix(line: string, year: nat, f: Fragment)
    requires 1900 <= year <= 9999
    requires FragmentShape(f) && BeginsWith(line, f)
    ensures GetTime(line, year) == Strptime(year, f)
  {
    TimePrefixFinds(line, f);
  }

  /**
   * get_time fails in exactly two ways: no prefix of the expected shape, or
   * pieces strptime refuses. Otherwise it returns the date-time they name.
   */
  lemma GetTimeOkIff(line: string, year: nat)
    requires 1900 <= year <= 9999
    ensures GetTime(line, year).Ok? <==> TimePrefix(line).Some? && Accepted(year, TimePrefix(line).value)
    ensures GetTime(line, year).Err? && TimePrefix(line).None? ==> GetTime(line, year).error == NoTimestamp(line)
    ensures GetTime(line, year).Err? && TimePrefix(line).Some? ==> GetTime(line, year).error == InvalidTimestamp(TimePrefix(line).value)
  {
    match TimePrefix(line)
    case None =>
    case Some(f) =>
      assert GetTime(line, year) == Strptime(year, f);
  }

  /** The day numeral as a log writes it: one digit below 10, two from 10. */
  function DayText(d: nat): string {
    if d < 10 then Pad(d, 1) else Pad(d, 2)
  }

  /** Where the pieces of a line built from a fragment stand. */
  lemma BuiltLineBegins(f: Fragment, sp1: char, sp2: char, rest: string)
    requires |f.minute| == 2 && IsSpace(sp1) && IsSpace(sp2)
    ensures BeginsWith(f.word + [sp1] + f.day + [sp2] + f.hour + ":" + f.minute + rest, f)
  {
    var line := f.word + [sp1] + f.day + [sp2] + f.hour + ":" + f.minute + rest;
    var n1 := |f.word|;
    var n2 := n1 + 1 + |f.day|;
    var n3 := n2 + 1 + |f.hour|;
    assert line[..n1] == f.word && line[n1] == sp1;
    assert line[n1 + 1..n2] == f.day && line[n2] == sp2;
    assert line[n2 + 1..n3] == f.hour && line[n3] == ':';
    assert line[n3 + 1..n3 + 3] == f.minute;
  }

  /**
   * Round trip: a line that begins with the rendering of a valid date-time of
   * the assumed year, followed by anything at all, parses back to it.
   */
  lemma GetTimeOfRendered(year: nat, t: DateTime, sp1: char, sp2: char, rest: string)
    requires 1900 <= year <= 9999
    requires Valid(t) && t.year == year && t.second == 0
    requires IsSpace(sp1) && IsSpace(sp2)
    ensures GetTime(MONTH_ABBRS[t.month - 1] + [sp1] + DayText(t.day) + [sp2]
                    + Pad(t.hour, 2) + ":" + Pad(t.minute, 2) + rest, year) == Ok(t)
  {
    var f := RenderedFragment(t);
    var line := MONTH_ABBRS[t.month - 1] + [sp1] + DayText(t.day) + [sp2]
                + Pad(t.hour, 2) + ":" + Pad(t.minute, 2) + rest;
    BuiltLineBegins(f, sp1, sp2, rest);
    assert BeginsWith(line, f);
    GetTimeOfPrefix(line, year, f);
    StrptimeOfRendered(year, t);
  }

  /** The pieces a log writes for a date-time: month abbreviation, day, hour, minute. */
  function RenderedFragment(t: DateTime): (f: Fragment)
    requires Valid(t)
    ensures FragmentShape(f)
  {
    MonthNumberOfAbbr(t.month);
    Fragment(MONTH_ABBRS[t.month - 1], DayText(t.day), Pad(t.hour, 2), Pad(t.minute, 2))
  }

  /** strptime reads the rendered pieces back to the same fields. */
  lemma StrptimeOfRendered(year: nat, t: DateTime)
    requires Valid(t) && t.year == year && t.second == 0
    ensures Strptime(year, RenderedFragment(t)) == Ok(t)
  {
    var f := RenderedFragment(t);
    MonthNumberOfAbbr(t.month);
    assert Value(f.day) == t.day by {
      if t.day < 10 { PadValue(t.day, 1); } else { PadValue(t.day, 2); }
    }
    PadValue(t.hour, 2);
    PadValue(t.minute, 2);
  }

  /**
   * Conversely, a successful parse read its fields from a prefix of the line:
   * the month word names the month and the numerals denote day, hour and minute.
   */
  lemma GetTimeReadsPrefix(line: string, year: nat)
    requires 1900 <= year <= 9999
    requires GetTime(line, year).Ok?
    ensures TimePrefix(line).Some?
    ensures var f, t := TimePrefix(line).value, GetTime(line, year).value;
            && BeginsWith(line, f)
            && Lower(f.word) == LOWER_MONTHS[t.month - 1]
            && Value(f.day) == t.day && Value(f.hour) == t.hour && Value(f.minute) == t.minute
  {
  }

  /** The parse fails with NoTimestamp exactly when no well-shaped prefix is there. */
  lemma NoTimestampIff(line: string, year: nat)
    requires 1900 <= year <= 9999
    ensures GetTime(line, year) == Err(NoTimestamp(line))
            <==> forall f :: !(FragmentShape(f) && BeginsWith(line, f))
  {
    if f :| FragmentShape(f) && BeginsWith(line, f) {
      TimePrefixFinds(line, f);
    }
  }

  lemma ExampleLineBegins()
    ensures FragmentShape(Fragment("Jan", "5", "13", "42"))
    ensures BeginsWith("Jan 5 13:42 x", Fragment("Jan", "5", "13", "42"))
  {
    var line := "Jan 5 13:42 x";
    assert line[..3] == "Jan";
    assert line[4..5] == "5";
    assert line[6..8] == "13";
    assert line[9..11] == "42";
  }

  lemma StrptimeExample()
    ensures Strptime(2024, Fragment("Jan", "5", "13", "42")) == Ok(DateTime(2024, 1, 5, 13, 42, 0))
  {
    MonthNumberOfAbbr(1);
    ValueOfTwo("13");
    ValueOfTwo("42");
    assert "5"[..0] == [];
  }
  /** A lower-case month, a zero-padded day and a one-digit hour are accepted too. */
  lemma StrptimeOtherSpellings()
    ensures Strptime(2024, Fragment("jan", "05", "9", "42")) == Ok(DateTime(2024, 1, 5, 9, 42, 0))
  {
    Lower3("jan");
    assert Lower("jan") == LOWER_MONTHS[0];
    MonthFromAt(1, 0);
    ValueOfTwo("05");
    ValueOfTwo("42");
    assert "9"[..0] == [];
  }


  /** The worked example: `Jan 5 13:42` in 2024 is 2024-01-05 13:42:00. */
  lemma GetTimeExample()
    ensures GetTime("Jan 5 13:42 x", 2024) == Ok(DateTime(2024, 1, 5, 13, 42, 0))
  {
    ExampleLineBegins();
    GetTimeOfPrefix("Jan 5 13:42 x", 2024, Fragment("Jan", "5", "13", "42"));
    StrptimeExample();
  }

  lemma LeapLineBegins()
    ensures FragmentShape(Fragment("Feb", "29", "08", "15"))
    ensures BeginsWith("Feb 29 08:15 x", Fragment("Feb", "29", "08", "15"))
  {
    var line := "Feb 29 08:15 x";
    assert line[..3] == "Feb";
    assert line[4..6] == "29";
    assert line[7..9] == "08";
    assert line[10..12] == "15";
  }

  /** strptime accepts 29 February exactly in a leap year. */
  lemma StrptimeLeapDay(year: nat)
    ensures Strptime(year, Fragment("Feb", "29", "08", "15"))
         == if IsLeapYear(year) then Ok(DateTime(year, 2, 29, 8, 15, 0))
            else Err(InvalidTimestamp(Fragment("Feb", "29", "08", "15")))
  {
    LeapFields();
  }

  lemma LeapFields()
    ensures MonthNumber("Feb") == Some(2)
    ensures Value("29") == 29 && Value("08") == 8 && Value("15") == 15
  {
    MonthNumberOfAbbr(2);
    ValueOfTwo("29");
    ValueOfTwo("08");
    ValueOfTwo("15");
  }

  /** The assumed year decides whether a line dated 29 February parses. */
  lemma LeapDayDependsOnYear(year: nat)
    requires 1900 <= year <= 9999
    ensures GetTime("Feb 29 08:15 x", year)
         == if IsLeapYear(year) then Ok(DateTime(year, 2, 29, 8, 15, 0))
            else Err(InvalidTimestamp(Fragment("Feb", "29", "08", "15")))
  {
    LeapLineBegins();
    GetTimeOfPrefix("Feb 29 08:15 x", year, Fragment("Feb", "29", "08", "15"));
    StrptimeLeapDay(year);
  }

  // ---------------------------------------------------------------------
  // datetime.isoformat()
  // ---------------------------------------------------------------------

  /** `YYYY-MM-DDTHH:MM:SS` (no fraction, since microseconds are always zero). */
  function IsoFormat(t: DateTime): (r: string)
    ensures |r| == 19 && '\n' !in r
  {
    Pad(t.year, 4) + "-" + Pad(t.month, 2) + "-" + Pad(t.day, 2) + "T"
    + Pad(t.hour, 2) + ":" + Pad(t.minute, 2) + ":" + Pad(t.second, 2)
  }

  predicate IsoShape(s: string) {
    && |s| == 19
    && AllDigits(s[0..4]) && s[4] == '-' && AllDigits(s[5..7]) && s[7] == '-'
    && AllDigits(s[8..10]) && s[10] == 'T' && AllDigits(s[11..13]) && s[13] == ':'
    && AllDigits(s[14..16]) && s[16] == ':' && AllDigits(s[17..19])
  }

  /** Reading an ISO 8601 date-time back into its fields. */
  function ParseIso(s: string): DateTime
    requires IsoShape(s)
  {
    DateTime(Value(s[0..4]), Value(s[5..7]), Value(s[8..10]),
             Value(s[11..13]), Value(s[14..16]), Value(s[17..19]))
  }

  /** The rendering is lossless on valid date-times. */
  lemma IsoRoundTrip(t: DateTime)
    requires Valid(t)
    ensures IsoShape(IsoFormat(t)) && ParseIso(IsoFormat(t)) == t
  {
    var s := IsoFormat(t);
    assert s[0..4] == Pad(t.year, 4);
    assert s[5..7] == Pad(t.month, 2);
    assert s[8..10] == Pad(t.day, 2);
    assert s[11..13] == Pad(t.hour, 2);
    assert s[14..16] == Pad(t.minute, 2);
    assert s[17..19] == Pad(t.second, 2);
    PadValue(t.year, 4);
    PadValue(t.month, 2);
    PadValue(t.day, 2);
    PadValue(t.hour, 2);
    PadValue(t.minute, 2);
    PadValue(t.second, 2);
  }
}
