/**
 * User discovery: the identifiers captured by
 * `\[user:\s(.+)\]\s` + `Unitex\sinput:\s` over the whole log, deduplicated in
 * first-seen order.
 */
module UserDiscovery {
  import opened Wrappers
  import opened Strings
  import opened Config

  /** `\[user:\s`; in a pattern a space stands for `\s`. */
  const TAG_OPEN: string := "[user: "

  /** `\]\s` then the input marker with every space replaced by `\s`. */
  const TAG_CLOSE: string := "] " + INPUT_LINE

  predicate CharMatches(p: char, c: char) {
    if p == ' ' then IsSpace(c) else c == p
  }

  /** `pat`, read as a pattern, matches `s` at `i`. */
  predicate PatternAt(s: string, pat: string, i: nat) {
    i + |pat| <= |s| && forall k :: 0 <= k < |pat| ==> CharMatches(pat[k], s[i + k])
  }

  /** The first newline at or after `i`, or the end of the text: where `.+` must stop. */
  function LineEnd(s: string, i: nat): (r: nat)
    requires i <= |s|
    decreases |s| - i
    ensures i <= r <= |s| && (r == |s| || s[r] == '\n')
    ensures forall k :: i <= k < r ==> s[k] != '\n'
  {
    if i == |s| || s[i] == '\n' then i else LineEnd(s, i + 1)
  }

  /** The largest `j` in `lo..e` where the closing pattern matches. */
  function LastClose(s: string, lo: nat, e: nat): (r: Option<nat>)
    decreases e
    ensures r.Some? ==> lo <= r.value <= e && PatternAt(s, TAG_CLOSE, r.value)
    ensures r.Some? ==> forall j :: r.value < j <= e ==> !PatternAt(s, TAG_CLOSE, j)
    ensures r.None? ==> forall j :: lo <= j <= e ==> !PatternAt(s, TAG_CLOSE, j)
  {
    if e < lo then None
    else if PatternAt(s, TAG_CLOSE, e) then Some(e)
    else if e == 0 then None
    else LastClose(s, lo, e - 1)
  }

  /** The text at `p` reads `[user:`, a blank, `x`, `]`, a blank and the marker, blanks being `\s`. */
  predicate TagAt(s: string, p: nat, x: string) {
    && PatternAt(s, TAG_OPEN, p)
    && |x| >= 1 && '\n' !in x
    && p + 7 + |x| <= |s| && s[p + 7..p + 7 + |x|] == x
    && PatternAt(s, TAG_CLOSE, p + 7 + |x|)
  }

  /**
   * The regular expression tried at `p`: the end of the greedy `(.+)` capture.
   * Greedy matching takes the rest of the line and backs off to the last
   * place where the closing pattern matches.
   */
  function MatchAt(s: string, p: nat): (r: Option<nat>)
    requires p <= |s|
    ensures r.Some? ==> p + 8 <= r.value && r.value + |TAG_CLOSE| <= |s|
  {
    if !PatternAt(s, TAG_OPEN, p) then None
    else
      LastClose(s, p + 8, LineEnd(s, p + 7))
  }

  /** What the regular expression matches at `p` is a tag, and its capture is the tag's name. */
  lemma MatchIsTag(s: string, p: nat)
    requires p <= |s| && MatchAt(s, p).Some?
    ensures TagAt(s, p, s[p + 7..MatchAt(s, p).value])
  {
  }

  /** Every tag at `p` is found there, and the capture is the longest one. */
  lemma TagMatched(s: string, p: nat, x: string)
    requires TagAt(s, p, x)
    ensures MatchAt(s, p).Some? && p + 7 + |x| <= MatchAt(s, p).value
  {
    var e := LineEnd(s, p + 7);
    assert forall k :: 0 <= k < |x| ==> s[p + 7 + k] == x[k];
  }

  /** re.finditer from `q`: the captures of successive non-overlapping matches. */
  function CapturesFrom(s: string, q: nat): (r: seq<string>)
    requires q <= |s|
    decreases |s| - q
    ensures forall i :: 0 <= i < |r| ==> |r[i]| >= 1 && '\n' !in r[i]
  {
    if q == |s| then []
    else match MatchAt(s, q)
      case Some(e) =>
        MatchIsTag(s, q);
        [s[q + 7..e]] + CapturesFrom(s, e + |TAG_CLOSE|)
      case None => CapturesFrom(s, q + 1)
  }

  /** Each capture is the identifier of a tag in the text. */
  lemma {:induction false} CapturesAreTags(s: string, q: nat, i: nat)
    requires q <= |s| && i < |CapturesFrom(s, q)|
    ensures exists p :: q <= p && TagAt(s, p, CapturesFrom(s, q)[i])
    decreases |s| - q
  {
    if MatchAt(s, q).Some? {
      var next := MatchAt(s, q).value + |TAG_CLOSE|;
      CaptureTake(s, q);
      if i == 0 {
        CaptureHere(s, q);
        MatchIsTag(s, q);
      } else {
        CapturesAreTags(s, next, i - 1);
        var p :| next <= p && TagAt(s, p, CapturesFrom(s, next)[i - 1]);
        assert TagAt(s, p, CapturesFrom(s, q)[i]);
      }
    } else {
      CaptureSkip(s, q);
      CapturesAreTags(s, q + 1, i);
    }
  }

  /** A match at `q` is the first capture from `q` on. */
  lemma CaptureHere(s: string, q: nat)
    requires q <= |s| && MatchAt(s, q).Some?
    ensures CapturesFrom(s, q) != [] && CapturesFrom(s, q)[0] == s[q + 7..MatchAt(s, q).value]
  {
  }

  /** A match at `q` is reported, and the scan resumes right after it. */
  lemma CaptureTake(s: string, q: nat)
    requires q <= |s| && MatchAt(s, q).Some?
    ensures CapturesFrom(s, q) == [s[q + 7..MatchAt(s, q).value]] + CapturesFrom(s, MatchAt(s, q).value + |TAG_CLOSE|)
  {
  }

  /** Without a match at `q`, the scan moves on to `q + 1`. */
  lemma CaptureSkip(s: string, q: nat)
    requires q < |s| && MatchAt(s, q).None?
    ensures CapturesFrom(s, q) == CapturesFrom(s, q + 1)
  {
  }

  /** Positions where the pattern does not match are passed over by the scan. */
  lemma {:induction false} CaptureSkipRun(s: string, q: nat, p: nat)
    requires q <= p <= |s|
    requires forall j :: q <= j < p ==> MatchAt(s, j).None?
    ensures CapturesFrom(s, q) == CapturesFrom(s, p)
    decreases p - q
  {
    if q < p {
      CaptureSkip(s, q);
      CaptureSkipRun(s, q + 1, p);
    }
  }

  /** The first capture from `q` on is the one of the leftmost position where the pattern matches. */
  lemma LeftmostCapture(s: string, q: nat, p: nat)
    requires q <= p <= |s| && MatchAt(s, p).Some?
    requires forall j :: q <= j < p ==> MatchAt(s, j).None?
    ensures CapturesFrom(s, q) != [] && CapturesFrom(s, q)[0] == s[p + 7..MatchAt(s, p).value]
  {
    CaptureSkipRun(s, q, p);
    CaptureHere(s, p);
  }

  /** Where the scan resumes after trying `q`: after the match there, or at the next position. */
  function ScanNext(s: string, q: nat): (r: nat)
    requires q < |s|
    ensures q < r <= |s|
  {
    if MatchAt(s, q).Some? then MatchAt(s, q).value + |TAG_CLOSE| else q + 1
  }

  /** What trying `q` reports: the match's capture, or nothing. */
  function ScanHead(s: string, q: nat): (r: seq<string>)
    requires q < |s|
  {
    if MatchAt(s, q).Some? then [s[q + 7..MatchAt(s, q).value]] else []
  }

  /** One step of the scan. */
  lemma CapturesStep(s: string, q: nat)
    requires q < |s|
    ensures CapturesFrom(s, q) == ScanHead(s, q) + CapturesFrom(s, ScanNext(s, q))
  {
  }

  /** No match that starts at or after `q` and before `p` runs past `p`. */
  predicate NoMatchPast(s: string, q: nat, p: nat)
    requires p <= |s|
  {
    forall j :: q <= j < p ==> MatchAt(s, j).None? || MatchAt(s, j).value + |TAG_CLOSE| <= p
  }

  /**
   * A match at `p` is reported when no match that starts at or after `q` and
   * before `p` runs past `p`: the scan then reaches `p` without skipping it.
   */
  lemma {:induction false} CaptureReached(s: string, q: nat, p: nat)
    requires q <= p <= |s| && MatchAt(s, p).Some?
    requires NoMatchPast(s, q, p)
    ensures s[p + 7..MatchAt(s, p).value] in CapturesFrom(s, q)
    decreases p - q
  {
    if q < p {
      CapturesStep(s, q);
      CaptureReached(s, ScanNext(s, q), p);
    } else {
      CaptureHere(s, p);
    }
  }

  /** When no closing pattern follows a tag on its line, the match there captures exactly the tag's name. */
  lemma TagCapture(s: string, p: nat, x: string)
    requires TagAt(s, p, x)
    requires forall j :: p + 7 + |x| < j <= LineEnd(s, p + 7) ==> !PatternAt(s, TAG_CLOSE, j)
    ensures MatchAt(s, p) == Some(p + 7 + |x|)
  {
    TagMatched(s, p, x);
  }

  /** Nothing is captured exactly when the pattern matches nowhere from `q` on. */
  lemma {:induction false} NoCapturesIff(s: string, q: nat)
    requires q <= |s|
    ensures CapturesFrom(s, q) == [] <==> forall p :: q <= p <= |s| ==> MatchAt(s, p).None?
    decreases |s| - q
  {
    if q < |s| && MatchAt(s, q).None? {
      NoCapturesIff(s, q + 1);
    }
  }

  // ---------------------------------------------------------------------
  // The deduplicating loop
  // ---------------------------------------------------------------------

  /** Keep each value at its first occurrence; defined on prefixes, like the loop. */
  function Dedup(xs: seq<string>): seq<string>
  {
    if xs == [] then []
    else
      var d := Dedup(xs[..|xs| - 1]);
      var x := xs[|xs| - 1];
      if x in d then d else d + [x]
  }

  lemma {:induction false} DedupMembers(xs: seq<string>, x: string)
    ensures x in Dedup(xs) <==> x in xs
  {
    if xs != [] {
      var init := xs[..|xs| - 1];
      DedupMembers(init, x);
      DedupMembers(init, xs[|xs| - 1]);
      assert xs == init + [xs[|xs| - 1]];
    }
  }

  /** Users come out in the order of their first occurrence (hence without duplicates). */
  lemma {:induction false} DedupFirstSeenOrder(xs: seq<string>, p: nat, q: nat)
    requires p < q < |Dedup(xs)|
    ensures Dedup(xs)[p] in xs && Dedup(xs)[q] in xs
    ensures Pos(xs, Dedup(xs)[p]) < Pos(xs, Dedup(xs)[q])
  {
    var init := xs[..|xs| - 1];
    var x := xs[|xs| - 1];
    var d := Dedup(init);
    var r := Dedup(xs);
    assert xs == init + [x];
    DedupMembers(xs, r[p]);
    DedupMembers(xs, r[q]);
    if q < |d| {
      DedupFirstSeenOrder(init, p, q);
      PosAppend(init, x, d[p]);
      PosAppend(init, x, d[q]);
    } else {
      assert r[q] == x && x !in d;
      DedupMembers(init, x);
      DedupMembers(init, d[p]);
      PosAppend(init, x, d[p]);
      PosLast(init, x);
    }
  }

  lemma DedupNoDup(xs: seq<string>)
    ensures NoDup(Dedup(xs))
  {
    var r := Dedup(xs);
    forall p, q | 0 <= p < q < |r|
      ensures r[p] != r[q]
    {
      DedupFirstSeenOrder(xs, p, q);
    }
  }

  /** The distinct identifiers, in first-seen order. */
  function Users(logdata: string): seq<string>
  {
    Dedup(CapturesFrom(logdata, 0))
  }

  /** The discovery loop of break_logs over the regular expression's matches. */
  method DiscoverUsers(logdata: string) returns (users: seq<string>)
    ensures users == Users(logdata)
  {
    var found := CapturesFrom(logdata, 0);
    users := [];
    for i := 0 to |found|
      invariant users == Dedup(found[..i])
    {
      if found[i] !in users {
        users := users + [found[i]];
      }
      assert found[..i + 1][..i] == found[..i];
    }
    assert found[..|found|] == found;
  }

  /**
   * The user list has no duplicates, holds exactly the captured identifiers,
   * and each of them is the identifier of a tag in the log.
   */
  lemma UsersAreTagged(logdata: string, u: string)
    ensures NoDup(Users(logdata))
    ensures u in Users(logdata) <==> u in CapturesFrom(logdata, 0)
    ensures u in Users(logdata) ==> |u| >= 1 && '\n' !in u && exists p :: TagAt(logdata, p, u)
  {
    var found := CapturesFrom(logdata, 0);
    DedupNoDup(found);
    DedupMembers(found, u);
    if u in found {
      var i :| 0 <= i < |found| && found[i] == u;
      CapturesAreTags(logdata, 0, i);
    }
  }

  /**
   * A tag's name becomes a user when no closing pattern follows the tag on
   * its line and no earlier match runs past the tag's start.
   */
  lemma TaggedIsUser(logdata: string, p: nat, x: string)
    requires TagAt(logdata, p, x)
    requires forall j :: p + 7 + |x| < j <= LineEnd(logdata, p + 7) ==> !PatternAt(logdata, TAG_CLOSE, j)
    requires NoMatchPast(logdata, 0, p)
    ensures x in Users(logdata)
  {
    TagCapture(logdata, p, x);
    CaptureReached(logdata, 0, p);
    assert logdata[p + 7..p + 7 + |x|] == x;
    DedupMembers(CapturesFrom(logdata, 0), x);
  }

  /** A log without any tag has no users, and a log with one has some. */
  lemma NoUsersIff(logdata: string)
    ensures Users(logdata) == [] <==> forall p, x :: !TagAt(logdata, p, x)
  {
    var found := CapturesFrom(logdata, 0);
    if Users(logdata) == [] {
      if found != [] {
        DedupMembers(found, found[0]);
      }
      NoCapturesIff(logdata, 0);
      forall p, x | TagAt(logdata, p, x)
        ensures false
      {
        TagMatched(logdata, p, x);
      }
    } else {
      UsersAreTagged(logdata, Users(logdata)[0]);
    }
  }
}
