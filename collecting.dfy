/**
 * The loops of break_logs that append one value per step and let the first
 * exception escape, as a fold over the outcomes of the steps.
 */
module Collecting {
  import opened Wrappers

  /**
   * A loop that appends the value of each step to a list and lets the first
   * exception escape: the list of all the values, or the first error.
   */
  function Collect<T, E>(rs: seq<Result<T, E>>): (r: Result<seq<T>, E>)
    ensures r.Ok? ==> |r.value| == |rs|
  {
    if rs == [] then Ok([])
    else
      match Collect(rs[..|rs| - 1])
      case Err(e) => Err(e)
      case Ok(xs) =>
        match rs[|rs| - 1]
        case Err(e) => Err(e)
        case Ok(x) => Ok(xs + [x])
  }

  /** One more step: its value is appended, unless it or an earlier step failed. */
  lemma CollectStep<T, E>(rs: seq<Result<T, E>>, i: nat)
    requires i < |rs|
    ensures Collect(rs[..i]).Ok? && rs[i].Ok? ==> Collect(rs[..i + 1]) == Ok(Collect(rs[..i]).value + [rs[i].value])
    ensures Collect(rs[..i]).Ok? && rs[i].Err? ==> Collect(rs[..i + 1]) == Err(rs[i].error)
    ensures Collect(rs[..i]).Err? ==> Collect(rs[..i + 1]) == Collect(rs[..i])
  {
    assert rs[..i + 1][..i] == rs[..i];
  }

  /** Once the first `i` steps fail, the whole loop fails with the same error. */
  lemma {:induction false} CollectErrPersists<T, E>(rs: seq<Result<T, E>>, i: nat)
    requires i <= |rs| && Collect(rs[..i]).Err?
    ensures Collect(rs) == Collect(rs[..i])
    decreases |rs| - i
  {
    if i == |rs| {
      assert rs[..i] == rs;
    } else {
      CollectStep(rs, i);
      CollectErrPersists(rs, i + 1);
    }
  }

  /** On success of the first `n` steps, the `k`-th value is the value of the `k`-th step. */
  lemma {:induction false} PrefixCollectAt<T, E>(rs: seq<Result<T, E>>, n: nat, k: nat)
    requires k < n <= |rs| && Collect(rs[..n]).Ok?
    ensures rs[k] == Ok(Collect(rs[..n]).value[k])
  {
    CollectStep(rs, n - 1);
    if k < n - 1 {
      PrefixCollectAt(rs, n - 1, k);
    }
  }

  /** On success, the `k`-th value is the value of the `k`-th step. */
  lemma CollectAt<T, E>(rs: seq<Result<T, E>>, k: nat)
    requires Collect(rs).Ok? && k < |rs|
    ensures rs[k] == Ok(Collect(rs).value[k])
  {
    assert rs[..|rs|] == rs;
    PrefixCollectAt(rs, |rs|, k);
  }

  /** The first `n` steps succeed together when each of them succeeds. */
  lemma {:induction false} PrefixCollectOk<T, E>(rs: seq<Result<T, E>>, n: nat)
    requires n <= |rs|
    requires forall k :: 0 <= k < n ==> rs[k].Ok?
    ensures Collect(rs[..n]).Ok?
  {
    if n > 0 {
      CollectStep(rs, n - 1);
      PrefixCollectOk(rs, n - 1);
    }
  }

  /** The loop succeeds exactly when every step does. */
  lemma CollectOkIff<T, E>(rs: seq<Result<T, E>>)
    ensures Collect(rs).Ok? <==> forall k :: 0 <= k < |rs| ==> rs[k].Ok?
  {
    if Collect(rs).Ok? {
      forall k | 0 <= k < |rs|
        ensures rs[k].Ok?
      {
        CollectAt(rs, k);
      }
    } else if forall k :: 0 <= k < |rs| ==> rs[k].Ok? {
      assert rs[..|rs|] == rs;
      PrefixCollectOk(rs, |rs|);
    }
  }

  /** On failure, the error is the one of the first step that fails. */
  lemma CollectFirstError<T, E>(rs: seq<Result<T, E>>, k: nat)
    requires k < |rs| && rs[k].Err?
    requires forall j :: 0 <= j < k ==> rs[j].Ok?
    ensures Collect(rs) == Err(rs[k].error)
  {
    PrefixCollectOk(rs, k);
    CollectStep(rs, k);
    CollectErrPersists(rs, k + 1);
  }
}
