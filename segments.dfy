/**
 * Cutting one user's lines into question/answer blocks: the user's lines,
 * the indices of the input lines among them, and the blocks between them.
 */
module Segments {
  import opened Strings
  import opened Config

  /** A line that opens a new question/answer block. */
  predicate IsInputLine(line: string) {
    Contains(line, INPUT_LINE)
  }

  /** `[line for line in ldata if user in line]`. */
  function UserLines(lines: seq<string>, user: string): (r: seq<string>)
    ensures |r| <= |lines|
    ensures forall k :: 0 <= k < |r| ==> r[k] in lines && Contains(r[k], user)
    ensures forall k :: 0 <= k < |lines| && Contains(lines[k], user) ==> lines[k] in r
  {
    if lines == [] then []
    else (if Contains(lines[0], user) then [lines[0]] else []) + UserLines(lines[1..], user)
  }

  /** The filter keeps the order of the log: it distributes over concatenation. */
  lemma {:induction false} UserLinesAppend(a: seq<string>, b: seq<string>, user: string)
    ensures UserLines(a + b, user) == UserLines(a, user) + UserLines(b, user)
  {
    if a == [] {
      assert a + b == b;
    } else {
      assert (a + b)[1..] == a[1..] + b;
      UserLinesAppend(a[1..], b, user);
    }
  }

  /** `[idx for idx, line in enumerate(user_data) if inputLine in line]`, from index `from` on. */
  function StartLines(data: seq<string>, from: nat): (r: seq<nat>)
    requires from <= |data|
    decreases |data| - from
    ensures forall k :: 0 <= k < |r| ==> from <= r[k] < |data| && IsInputLine(data[r[k]])
    ensures forall k, l :: 0 <= k < l < |r| ==> r[k] < r[l]
    ensures forall i :: from <= i < |data| && IsInputLine(data[i]) ==> i in r
  {
    if from == |data| then []
    else (if IsInputLine(data[from]) then [from] else []) + StartLines(data, from + 1)
  }

  /**
   * No input line lies strictly between the `k`-th start index and the next
   * one (or the end of the lines, after the last).
   */
  lemma NoInputLineInside(data: seq<string>, k: nat, i: nat)
    requires k < |StartLines(data, 0)|
    requires StartLines(data, 0)[k] < i < |data|
    requires k + 1 < |StartLines(data, 0)| ==> i < StartLines(data, 0)[k + 1]
    ensures !IsInputLine(data[i])
  {
  }

  /** No input line comes before the first start index (or at all, when there is none). */
  lemma NoInputLineBefore(data: seq<string>, i: nat)
    requires i < |data|
    requires StartLines(data, 0) != [] ==> i < StartLines(data, 0)[0]
    ensures !IsInputLine(data[i])
  {
  }

  // ---------------------------------------------------------------------
  // Blocks, defined line by line
  // ---------------------------------------------------------------------

  /**
   * The blocks of a user's lines, read one line at a time: an input line
   * opens a new block, any other line joins the current block, and a line
   * that comes before every input line belongs to no block.
   */
  function Blocks(data: seq<string>): seq<seq<string>>
  {
    if data == [] then []
    else
      var init := Blocks(data[..|data| - 1]);
      var line := data[|data| - 1];
      if IsInputLine(line) then init + [[line]]
      else if init == [] then []
      else init[..|init| - 1] + [init[|init| - 1] + [line]]
  }

  /** Lines without an input line form no block. */
  lemma {:induction false} BlocksOfNoInput(p: seq<string>)
    requires forall i :: 0 <= i < |p| ==> !IsInputLine(p[i])
    ensures Blocks(p) == []
  {
    if p != [] {
      BlocksOfNoInput(p[..|p| - 1]);
    }
  }

  /** One more line: a new block, a longer last block, or nothing when no block is open. */
  lemma BlocksSnoc(p: seq<string>, line: string)
    ensures IsInputLine(line) ==> Blocks(p + [line]) == Blocks(p) + [[line]]
    ensures !IsInputLine(line) && Blocks(p) == [] ==> Blocks(p + [line]) == []
    ensures !IsInputLine(line) && Blocks(p) != [] ==>
      Blocks(p + [line]) == Blocks(p)[..|Blocks(p)| - 1] + [Blocks(p)[|Blocks(p)| - 1] + [line]]
  {
    assert (p + [line])[..|p|] == p;
  }

  /** An input line followed by non-input lines adds exactly one block: that run of lines. */
  lemma {:induction false} BlocksExtend(data: seq<string>, j: nat, e: nat)
    requires j < e <= |data|
    requires IsInputLine(data[j])
    requires forall i :: j < i < e ==> !IsInputLine(data[i])
    ensures Blocks(data[..e]) == Blocks(data[..j]) + [data[j..e]]
    decreases e - j
  {
    var line := data[e - 1];
    assert data[..e] == data[..e - 1] + [line];
    BlocksSnoc(data[..e - 1], line);
    if e == j + 1 {
      assert data[j..e] == [line];
    } else {
      BlocksExtend(data, j, e - 1);
      var b := Blocks(data[..j]);
      var run := data[j..e - 1];
      assert (b + [run])[..|b|] == b;
      assert data[j..e] == run + [line];
    }
  }

  /** The end of the `k`-th block: the next start index, or the end of the lines. */
  function NextStart(data: seq<string>, k: nat): (e: nat)
    requires k < |StartLines(data, 0)|
    ensures StartLines(data, 0)[k] < e <= |data|
  {
    var st := StartLines(data, 0);
    if k + 1 < |st| then st[k + 1] else |data|
  }

  /** The lines before the first start index form no block. */
  lemma BlocksBeforeFirst(data: seq<string>)
    ensures Blocks(data[..if StartLines(data, 0) == [] then |data| else StartLines(data, 0)[0]]) == []
  {
    var st := StartLines(data, 0);
    var p := data[..if st == [] then |data| else st[0]];
    forall i | 0 <= i < |p|
      ensures !IsInputLine(p[i])
    {
      NoInputLineBefore(data, i);
    }
    BlocksOfNoInput(p);
  }

  /** Each start index adds one block, running up to the next start index. */
  lemma BlocksStep(data: seq<string>, k: nat)
    requires k < |StartLines(data, 0)|
    ensures Blocks(data[..NextStart(data, k)])
         == Blocks(data[..StartLines(data, 0)[k]]) + [data[StartLines(data, 0)[k]..NextStart(data, k)]]
  {
    var st := StartLines(data, 0);
    var e := NextStart(data, k);
    forall i | st[k] < i < e
      ensures !IsInputLine(data[i])
    {
      NoInputLineInside(data, k, i);
    }
    BlocksExtend(data, st[k], e);
  }

  /** The block-cutting loop of break_logs, with the start indices it computes first. */
  method CutBlocks(userData: seq<string>) returns (blocks: seq<seq<string>>)
    ensures blocks == Blocks(userData)
  {
    var startLines := StartLines(userData, 0);
    BlocksBeforeFirst(userData);
    blocks := [];
    for idx := 0 to |startLines|
      invariant blocks == Blocks(userData[..if idx < |startLines| then startLines[idx] else |userData|])
    {
      var startIdx := startLines[idx];
      BlocksStep(userData, idx);
      assert NextStart(userData, idx) == if idx + 1 < |startLines| then startLines[idx + 1] else |userData|;
      if idx != |startLines| - 1 {
        blocks := blocks + [userData[startIdx..startLines[idx + 1]]];
      } else {
        assert userData[startIdx..] == userData[startIdx..|userData|];
        blocks := blocks + [userData[startIdx..]];
      }
    }
    assert userData[..|userData|] == userData;
  }

  /** Every line of every block is one of the user's lines. */
  lemma {:induction false} BlockLinesFromData(data: seq<string>, k: nat, j: nat)
    requires k < |Blocks(data)| && j < |Blocks(data)[k]|
    ensures Blocks(data)[k][j] in data
  {
    var pre := data[..|data| - 1];
    var init := Blocks(pre);
    var line := data[|data| - 1];
    if k < |init| && (IsInputLine(line) || k < |init| - 1 || j < |init[k]|) {
      BlockLinesFromData(pre, k, j);
      assert Blocks(data)[k][j] == init[k][j];
    } else {
      assert Blocks(data)[k][j] == line;
    }
  }

  /** The number of input lines, counted from the end. */
  function InputLineCount(data: seq<string>): nat
  {
    if data == [] then 0
    else InputLineCount(data[..|data| - 1]) + (if IsInputLine(data[|data| - 1]) then 1 else 0)
  }

  /** There are exactly as many blocks as input lines among the user's lines. */
  lemma {:induction false} BlockCount(data: seq<string>)
    ensures |Blocks(data)| == InputLineCount(data)
  {
    if data != [] {
      BlockCount(data[..|data| - 1]);
    }
  }

  /** Every block opens with an input line, as break_logs relies on. */
  ghost predicate Opened(blocks: seq<seq<string>>) {
    forall k :: 0 <= k < |blocks| ==> |blocks[k]| >= 1 && IsInputLine(blocks[k][0])
  }

  /** Every block opens with an input line and holds no other. */
  ghost predicate WellFormed(blocks: seq<seq<string>>) {
    && Opened(blocks)
    && forall k, j :: 0 <= k < |blocks| && 1 <= j < |blocks[k]| ==> !IsInputLine(blocks[k][j])
  }

  /** The `k`-th block starts with an input line and holds no other. */
  lemma {:induction false} BlockShape(data: seq<string>, k: nat)
    requires k < |Blocks(data)|
    ensures |Blocks(data)[k]| >= 1 && IsInputLine(Blocks(data)[k][0])
    ensures forall j :: 1 <= j < |Blocks(data)[k]| ==> !IsInputLine(Blocks(data)[k][j])
  {
    var pre := data[..|data| - 1];
    var init := Blocks(pre);
    var line := data[|data| - 1];
    var b := Blocks(data)[k];
    if IsInputLine(line) {
      if k < |init| {
        assert b == init[k];
        BlockShape(pre, k);
      } else {
        assert b == [line];
      }
    } else {
      var n := |init| - 1;
      if k < n {
        assert b == init[k];
        BlockShape(pre, k);
      } else {
        assert b == init[n] + [line];
        BlockShape(pre, n);
      }
    }
  }

  lemma BlocksWellFormed(data: seq<string>)
    ensures WellFormed(Blocks(data))
  {
    forall k | 0 <= k < |Blocks(data)|
      ensures |Blocks(data)[k]| >= 1 && IsInputLine(Blocks(data)[k][0])
      ensures forall j :: 1 <= j < |Blocks(data)[k]| ==> !IsInputLine(Blocks(data)[k][j])
    {
      BlockShape(data, k);
    }
  }

  /** The index of the first input line, or the length when there is none. */
  function FirstInputLine(data: seq<string>): (f: nat)
    ensures f <= |data|
    ensures forall i :: 0 <= i < f ==> !IsInputLine(data[i])
    ensures f < |data| ==> IsInputLine(data[f])
  {
    if data == [] then 0
    else
      var f := FirstInputLine(data[..|data| - 1]);
      if f < |data| - 1 then f
      else if IsInputLine(data[|data| - 1]) then |data| - 1
      else |data|
  }

  /** The first input line is the first start index break_logs computes, when there is one. */
  lemma FirstInputLineIsFirstStart(data: seq<string>)
    ensures StartLines(data, 0) == [] <==> FirstInputLine(data) == |data|
    ensures StartLines(data, 0) != [] ==> FirstInputLine(data) == StartLines(data, 0)[0]
  {
    var st := StartLines(data, 0);
    var f := FirstInputLine(data);
    if f < |data| {
      assert f in st;
      var k :| 0 <= k < |st| && st[k] == f;
      assert st[0] <= f;
      assert !(st[0] < f);
    }
  }

  lemma {:induction false} FlattenAppend<T>(ss: seq<seq<T>>, x: seq<T>)
    ensures Flatten(ss + [x]) == Flatten(ss) + x
  {
    if ss != [] {
      assert (ss + [x])[1..] == ss[1..] + [x];
      FlattenAppend(ss[1..], x);
    } else {
      assert ss + [x] == [x];
    }
  }

  /** Growing the last piece by one element grows the concatenation by that element. */
  lemma FlattenExtendLast<T>(ss: seq<seq<T>>, x: T)
    requires ss != []
    ensures Flatten(ss[..|ss| - 1] + [ss[|ss| - 1] + [x]]) == Flatten(ss) + [x]
  {
    var n := |ss| - 1;
    assert ss == ss[..n] + [ss[n]];
    FlattenAppend(ss[..n], ss[n]);
    FlattenAppend(ss[..n], ss[n] + [x]);
  }

  /**
   * The blocks partition the user's lines from the first input line on: laid
   * end to end they give exactly that suffix, nothing lost or repeated. The
   * lines before it (all of them when there is no input line) are dropped.
   */
  lemma {:induction false} BlocksCover(data: seq<string>)
    ensures Flatten(Blocks(data)) == data[FirstInputLine(data)..]
    ensures Blocks(data) == [] <==> FirstInputLine(data) == |data|
  {
    if data != [] {
      var pre := data[..|data| - 1];
      var line := data[|data| - 1];
      var init := Blocks(pre);
      assert data == pre + [line];
      BlocksSnoc(pre, line);
      BlocksCover(pre);
      var f := FirstInputLine(pre);
      if IsInputLine(line) {
        assert FirstInputLine(data) == f;
        FlattenAppend(init, [line]);
        assert data[f..] == pre[f..] + [line];
      } else if init != [] {
        assert FirstInputLine(data) == f;
        FlattenExtendLast(init, line);
        assert data[f..] == pre[f..] + [line];
      } else {
        assert FirstInputLine(data) == |data|;
      }
    }
  }


  /** When the user's first line is an input line, no line is dropped. */
  lemma BlocksCoverAll(data: seq<string>)
    requires |data| >= 1 && IsInputLine(data[0])
    ensures Flatten(Blocks(data)) == data
  {
    BlocksCover(data);
    assert data[0..] == data;
  }
}
