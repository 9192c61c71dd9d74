/**
 * The batch functions of functions/data_processor.py (lines 138-143 and
 * 248-259) build a list by calling the single-ticker function on each ticker
 * in turn. An exception raised by one call ends the list comprehension, and
 * with it the batch; the files written by the calls before it stay written.
 */
module Batch {
  import opened Common

  /** A list comprehension over calls that may raise: the first exception ends it. */
  function Collect<T>(outs: seq<Outcome<T>>): Outcome<seq<T>>
    decreases |outs|
  {
    if |outs| == 0 then Returned([])
    else match outs[0]
      case Raised(e) => Raised(e)
      case Returned(v) =>
        match Collect(outs[1..])
        case Raised(e) => Raised(e)
        case Returned(vs) => Returned([v] + vs)
  }

  /**
   * The list comprehension returns exactly when every call returns, with
   * their values in order; otherwise it raises the exception of the first
   * call that raises.
   */
  lemma {:induction false} CollectSpec<T>(outs: seq<Outcome<T>>)
    ensures Collect(outs).Returned? <==> forall k :: 0 <= k < |outs| ==> outs[k].Returned?
    ensures Collect(outs).Returned? ==>
              && |Collect(outs).value| == |outs|
              && forall k :: 0 <= k < |outs| ==> Collect(outs).value[k] == outs[k].value
    ensures Collect(outs).Raised? ==>
              exists k :: 0 <= k < |outs| && outs[k] == Raised(Collect(outs).error)
                          && forall j :: 0 <= j < k ==> outs[j].Returned?
    decreases |outs|
  {
    if |outs| > 0 {
      CollectSpec(outs[1..]);
      assert forall k :: 1 <= k < |outs| ==> outs[k] == outs[1..][k - 1];
      if outs[0].Returned? && Collect(outs[1..]).Raised? {
        var k :| 0 <= k < |outs[1..]| && outs[1..][k] == Raised(Collect(outs[1..]).error)
                 && forall j :: 0 <= j < k ==> outs[1..][j].Returned?;
        assert outs[k + 1] == outs[1..][k];
      }
    }
  }

  /** The outcomes of some runs, in order. */
  function Outcomes<R, T>(runs: seq<Run<R, T>>): (r: seq<Outcome<T>>)
    ensures |r| == |runs|
    ensures forall k :: 0 <= k < |runs| ==> r[k] == runs[k].outcome
  {
    seq(|runs|, k requires 0 <= k < |runs| => runs[k].outcome)
  }

  /** All files some runs write, run after run. */
  function AllWrites<R, T>(runs: seq<Run<R, T>>): seq<Write<R>>
    decreases |runs|
  {
    if |runs| == 0 then [] else runs[0].writes + AllWrites(runs[1..])
  }

  /** Running calls that write files in turn: the files of each call up to the first that raises. */
  function RunAll<R, T>(runs: seq<Run<R, T>>): Run<R, seq<T>>
    decreases |runs|
  {
    if |runs| == 0 then Run([], Returned([]))
    else match runs[0].outcome
      case Raised(e) => Run(runs[0].writes, Raised(e))
      case Returned(v) =>
        var rest := RunAll(runs[1..]);
        Run(runs[0].writes + rest.writes,
            match rest.outcome
            case Raised(e) => Raised(e)
            case Returned(vs) => Returned([v] + vs))
  }

  /** A batch of calls that write files ends as the list comprehension of their outcomes does. */
  lemma {:induction false} RunAllOutcome<R, T>(runs: seq<Run<R, T>>)
    ensures RunAll(runs).outcome == Collect(Outcomes(runs))
    decreases |runs|
  {
    if |runs| > 0 {
      RunAllOutcome(runs[1..]);
      assert Outcomes(runs)[1..] == Outcomes(runs[1..]);
    }
  }

  /**
   * A batch writes the files of every call that ran: all of them when none
   * raises, and those up to and including the first that raises otherwise.
   */
  lemma {:induction false} RunAllSpec<R, T>(runs: seq<Run<R, T>>)
    ensures RunAll(runs).outcome.Returned? ==> RunAll(runs).writes == AllWrites(runs)
    ensures RunAll(runs).outcome.Raised? ==>
              exists k :: 0 <= k < |runs| && runs[k].outcome == Raised(RunAll(runs).outcome.error)
                          && (forall j :: 0 <= j < k ==> runs[j].outcome.Returned?)
                          && RunAll(runs).writes == AllWrites(runs[..k + 1])
    decreases |runs|
  {
    if |runs| > 0 {
      RunAllSpec(runs[1..]);
      if runs[0].outcome.Raised? {
        assert runs[..1] == [runs[0]];
        assert AllWrites(runs[..1]) == runs[0].writes + AllWrites(runs[..1][1..]);
      } else if RunAll(runs[1..]).outcome.Raised? {
        var rest := runs[1..];
        var k :| 0 <= k < |rest| && rest[k].outcome == Raised(RunAll(rest).outcome.error)
                 && (forall j :: 0 <= j < k ==> rest[j].outcome.Returned?)
                 && RunAll(rest).writes == AllWrites(rest[..k + 1]);
        RunAllRaisedStep(runs, k);
      }
    }
  }

  /** When the first call returns, the first failure of the rest is the first failure of the whole batch. */
  lemma RunAllRaisedStep<R, T>(runs: seq<Run<R, T>>, k: int)
    requires 0 <= k < |runs| - 1 && runs[0].outcome.Returned?
    requires RunAll(runs[1..]).outcome.Raised?
    requires runs[1..][k].outcome == Raised(RunAll(runs[1..]).outcome.error)
    requires forall j :: 0 <= j < k ==> runs[1..][j].outcome.Returned?
    requires RunAll(runs[1..]).writes == AllWrites(runs[1..][..k + 1])
    ensures RunAll(runs).outcome.Raised?
    ensures runs[k + 1].outcome == Raised(RunAll(runs).outcome.error)
    ensures forall j :: 0 <= j < k + 1 ==> runs[j].outcome.Returned?
    ensures RunAll(runs).writes == AllWrites(runs[..k + 2])
  {
    RunAllReturnedHead(runs);
    AllWritesPrefixCons(runs, k + 2);
    ReturnedCons(runs, k);
  }

  /** When the first call returns, the batch keeps its files and ends as the rest of the batch does. */
  lemma RunAllReturnedHead<R, T>(runs: seq<Run<R, T>>)
    requires |runs| > 0 && runs[0].outcome.Returned?
    ensures RunAll(runs).writes == runs[0].writes + RunAll(runs[1..]).writes
    ensures RunAll(runs[1..]).outcome.Raised? ==> RunAll(runs).outcome == RunAll(runs[1..]).outcome
  {
  }

  /** A first call that returns, followed by k more that return, makes k + 1 calls that return. */
  lemma ReturnedCons<R, T>(runs: seq<Run<R, T>>, k: int)
    requires 0 <= k < |runs| && runs[0].outcome.Returned?
    requires forall j :: 0 <= j < k ==> runs[1..][j].outcome.Returned?
    ensures forall j :: 0 <= j < k + 1 ==> runs[j].outcome.Returned?
  {
    forall j | 0 <= j < k + 1 ensures runs[j].outcome.Returned? {
      if j > 0 {
        assert runs[j] == runs[1..][j - 1];
      }
    }
  }

  /** The files of the first n runs are the first run's files followed by those of the next n - 1. */
  lemma AllWritesPrefixCons<R, T>(runs: seq<Run<R, T>>, n: int)
    requires 0 < n <= |runs|
    ensures AllWrites(runs[..n]) == runs[0].writes + AllWrites(runs[1..][..n - 1])
  {
    assert runs[..n][0] == runs[0];
    assert runs[..n][1..] == runs[1..][..n - 1];
  }

  /**
   * A batch that raises keeps the files of the calls before the first
   * failing call, then those the failing call wrote before raising.
   */
  lemma RunAllFirstFailure<R, T>(runs: seq<Run<R, T>>)
    requires RunAll(runs).outcome.Raised?
    ensures exists k :: 0 <= k < |runs| && runs[k].outcome == Raised(RunAll(runs).outcome.error)
                        && (forall j :: 0 <= j < k ==> runs[j].outcome.Returned?)
                        && RunAll(runs).writes == AllWrites(runs[..k]) + runs[k].writes
  {
    RunAllSpec(runs);
    var k :| 0 <= k < |runs| && runs[k].outcome == Raised(RunAll(runs).outcome.error)
             && (forall j :: 0 <= j < k ==> runs[j].outcome.Returned?)
             && RunAll(runs).writes == AllWrites(runs[..k + 1]);
    AllWritesPrefixSnoc(runs, k);
  }

  /** The files of the first k + 1 runs are those of the first k, then those of run k. */
  lemma AllWritesPrefixSnoc<R, T>(runs: seq<Run<R, T>>, k: int)
    requires 0 <= k < |runs|
    ensures AllWrites(runs[..k + 1]) == AllWrites(runs[..k]) + runs[k].writes
  {
    AllWritesSnoc(runs[..k], runs[k]);
    assert runs[..k + 1] == runs[..k] + [runs[k]];
  }

  /** Calls that write nothing, batched, write nothing. */
  lemma {:induction false} AllWritesEmpty<R, T>(runs: seq<Run<R, T>>)
    requires forall k :: 0 <= k < |runs| ==> runs[k].writes == []
    ensures AllWrites(runs) == []
    decreases |runs|
  {
    if |runs| > 0 {
      AllWritesEmpty(runs[1..]);
    }
  }

  /** Appending a run appends its files. */
  lemma {:induction false} AllWritesSnoc<R, T>(runs: seq<Run<R, T>>, last: Run<R, T>)
    ensures AllWrites(runs + [last]) == AllWrites(runs) + last.writes
    decreases |runs|
  {
    if |runs| == 0 {
      assert AllWrites([last]) == last.writes + AllWrites([last][1..]);
    } else {
      assert (runs + [last])[1..] == runs[1..] + [last];
      AllWritesSnoc(runs[1..], last);
    }
  }
}
