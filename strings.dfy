/** Text and sequence primitives with the meaning Python 2 gives them. */
module Strings {
  import opened Wrappers

  // ---------------------------------------------------------------------
  // Character classes (byte-string regular expressions, no re.UNICODE)
  // ---------------------------------------------------------------------

  /** The characters `\s` matches: space, tab, newline, carriage return, vertical tab, form feed. */
  predicate IsSpace(c: char) {
    c == ' ' || c == '\t' || c == '\n' || c == '\r' || c == '\U{0B}' || c == '\U{0C}'
  }

  predicate IsDigit(c: char) {
    '0' <= c <= '9'
  }

  /** The characters `\w` matches. */
  predicate IsWordChar(c: char) {
    ('a' <= c <= 'z') || ('A' <= c <= 'Z') || IsDigit(c) || c == '_'
  }

  predicate AllDigits(s: string) {
    forall k :: 0 <= k < |s| ==> IsDigit(s[k])
  }

  // ---------------------------------------------------------------------
  // Substring search: `pat in s` and `s.index(pat)`
  // ---------------------------------------------------------------------

  predicate OccursAt(s: string, pat: string, i: nat) {
    i + |pat| <= |s| && s[i..i + |pat|] == pat
  }

  /** The first occurrence of `pat` in `s` at or after `i`. */
  function FindFrom(s: string, pat: string, i: nat): (r: Option<nat>)
    decreases |s| - i
    ensures r.Some? ==> i <= r.value && OccursAt(s, pat, r.value)
  {
    if i + |pat| > |s| then None
    else if s[i..i + |pat|] == pat then Some(i)
    else FindFrom(s, pat, i + 1)
  }

  /** The search misses no occurrence: it stops at or before any occurrence from `i` on. */
  lemma {:induction false} FindFromFirst(s: string, pat: string, i: nat, j: nat)
    requires i <= j && OccursAt(s, pat, j)
    ensures FindFrom(s, pat, i).Some? && FindFrom(s, pat, i).value <= j
    decreases j - i
  {
    if i < j && s[i..i + |pat|] != pat {
      FindFromFirst(s, pat, i + 1, j);
    }
  }

  /** Python's `pat in s`. */
  predicate Contains(s: string, pat: string) {
    FindFrom(s, pat, 0).Some?
  }

  lemma ContainsWhenOccurs(s: string, pat: string, i: nat)
    requires OccursAt(s, pat, i)
    ensures Contains(s, pat)
  {
    FindFromFirst(s, pat, 0, i);
  }

  /** An occurrence inside a part is an occurrence in the whole. */
  lemma {:induction false} ContainsInfix(a: string, b: string, c: string, pat: string)
    requires Contains(b, pat)
    ensures Contains(a + b + c, pat)
  {
    var i := FindFrom(b, pat, 0).value;
    var s := a + b + c;
    assert s[|a| + i..|a| + i + |pat|] == b[i..i + |pat|];
    ContainsWhenOccurs(s, pat, |a| + i);
  }

  // ---------------------------------------------------------------------
  // Lines: `s.split("\n")` and `"\n".join(lines)`
  // ---------------------------------------------------------------------

  /** Python's `s.split("\n")`: the pieces between newlines, never an empty list. */
  function Split(s: string): (r: seq<string>)
    decreases |s|
    ensures |r| >= 1
    ensures forall k :: 0 <= k < |r| ==> '\n' !in r[k]
  {
    if s == [] then [[]]
    else
      var rest := Split(s[1..]);
      if s[0] == '\n' then [[]] + rest
      else [[s[0]] + rest[0]] + rest[1..]
  }

  /** Python's `"\n".join(lines)`. */
  function Join(lines: seq<string>): string
  {
    if lines == [] then []
    else if |lines| == 1 then lines[0]
    else lines[0] + "\n" + Join(lines[1..])
  }

  lemma JoinConsFirst(c: char, x: string, rest: seq<string>)
    ensures Join([[c] + x] + rest) == [c] + Join([x] + rest)
  {
    if rest != [] {
      assert ([[c] + x] + rest)[1..] == rest;
      assert ([x] + rest)[1..] == rest;
    }
  }

  /** Splitting at newlines and joining with newlines gives back the text. */
  lemma {:induction false} JoinSplit(s: string)
    ensures Join(Split(s)) == s
    decreases |s|
  {
    if s != [] {
      var rest := Split(s[1..]);
      JoinSplit(s[1..]);
      if s[0] == '\n' {
        assert ([[]] + rest)[1..] == rest;
      } else {
        JoinConsFirst(s[0], rest[0], rest[1..]);
        assert [rest[0]] + rest[1..] == rest;
      }
    }
  }

  /** Every piece of `Split(s)` is a piece of `s`: it contains only what `s` contains. */
  lemma {:induction false} SplitPieceContains(s: string, k: nat, pat: string)
    requires k < |Split(s)|
    requires Contains(Split(s)[k], pat)
    ensures Contains(s, pat)
  {
    var lines := Split(s);
    JoinSplit(s);
    JoinPieceContains(lines, k, pat);
  }

  /** What one line contains, the lines joined with newlines contain. */
  lemma {:induction false} JoinPieceContains(lines: seq<string>, k: nat, pat: string)
    requires k < |lines|
    requires Contains(lines[k], pat)
    ensures Contains(Join(lines), pat)
  {
    if |lines| == 1 {
      assert Join(lines) == lines[0];
    } else if k == 0 {
      assert Join(lines) == [] + lines[0] + ("\n" + Join(lines[1..]));
      ContainsInfix([], lines[0], "\n" + Join(lines[1..]), pat);
    } else {
      JoinPieceContains(lines[1..], k - 1, pat);
      assert Join(lines) == lines[0] + "\n" + Join(lines[1..]) + [];
      ContainsInfix(lines[0] + "\n", Join(lines[1..]), [], pat);
    }
  }

  // ---------------------------------------------------------------------
  // Decimal numerals
  // ---------------------------------------------------------------------

  function DigitValue(c: char): nat
    requires IsDigit(c)
  {
    c as int - '0' as int
  }

  function DigitChar(d: nat): (c: char)
    requires d < 10
    ensures IsDigit(c) && DigitValue(c) == d
  {
    ('0' as int + d) as char
  }

  /** The number a string of decimal digits denotes (Python's `int(s)`). */
  function Value(s: string): nat
    requires AllDigits(s)
  {
    if s == [] then 0 else Value(s[..|s| - 1]) * 10 + DigitValue(s[|s| - 1])
  }

  lemma ValueOfTwo(s: string)
    requires |s| == 2 && AllDigits(s)
    ensures Value(s) == DigitValue(s[0]) * 10 + DigitValue(s[1])
  {
    assert Value(s) == Value(s[..1]) * 10 + DigitValue(s[1]);
    assert s[..1][..0] == [] && s[..1][0] == s[0];
    assert Value(s[..1]) == DigitValue(s[0]);
  }

  function Pow10(w: nat): (r: nat)
    ensures r >= 1
  {
    if w == 0 then 1 else 10 * Pow10(w - 1)
  }

  /** The last `w` decimal digits of `n`, zero-padded (`"%0wd" % n` for `n < 10^w`). */
  function Pad(n: nat, w: nat): (r: string)
    ensures |r| == w && AllDigits(r)
  {
    if w == 0 then [] else Pad(n / 10, w - 1) + [DigitChar(n % 10)]
  }

  /** Reading back a zero-padded numeral gives the number. */
  lemma {:induction false} PadValue(n: nat, w: nat)
    requires n < Pow10(w)
    ensures Value(Pad(n, w)) == n
  {
    if w > 0 {
      var p := Pad(n / 10, w - 1);
      assert n / 10 < Pow10(w - 1);
      PadValue(n / 10, w - 1);
      assert (p + [DigitChar(n % 10)])[..w - 1] == p;
    }
  }

  // ---------------------------------------------------------------------
  // Sequence helpers
  // ---------------------------------------------------------------------

  predicate NoDup<T(==)>(s: seq<T>) {
    forall i, j :: 0 <= i < j < |s| ==> s[i] != s[j]
  }

  /** The index of the first occurrence of `x` in `s` (Python's `s.index(x)`). */
  function Pos<T(==)>(s: seq<T>, x: T): (r: nat)
    requires x in s
    ensures r < |s| && s[r] == x && x !in s[..r]
  {
    if s[0] == x then 0 else 1 + Pos(s[1..], x)
  }

  lemma {:induction false} PosAppend<T>(s: seq<T>, y: T, x: T)
    requires x in s
    ensures Pos(s + [y], x) == Pos(s, x)
  {
    if s[0] != x {
      assert (s + [y])[1..] == s[1..] + [y];
      PosAppend(s[1..], y, x);
    }
  }

  lemma PosLast<T>(s: seq<T>, x: T)
    requires x !in s
    ensures Pos(s + [x], x) == |s|
  {
    var p := Pos(s + [x], x);
    assert (s + [x])[..|s|] == s;
  }

  /** The concatenation of a sequence of sequences. */
  function Flatten<T>(ss: seq<seq<T>>): seq<T>
  {
    if ss == [] then [] else ss[0] + Flatten(ss[1..])
  }

  /** The number of occurrences of `c` in `s`. */
  function CountChar(s: string, c: char): nat
  {
    if s == [] then 0 else (if s[0] == c then 1 else 0) + CountChar(s[1..], c)
  }

  lemma {:induction false} CountCharAppend(a: string, b: string, c: char)
    ensures CountChar(a + b, c) == CountChar(a, c) + CountChar(b, c)
  {
    if a == [] {
      assert a + b == b;
    } else {
      assert (a + b)[1..] == a[1..] + b;
      CountCharAppend(a[1..], b, c);
    }
  }

  lemma {:induction false} CountCharAbsent(s: string, c: char)
    requires c !in s
    ensures CountChar(s, c) == 0
  {
    if s != [] {
      assert c !in s[1..];
      CountCharAbsent(s[1..], c);
    }
  }
}
