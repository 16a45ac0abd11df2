/** The loop both line-by-line config readers (src/processing.rs and
    src/cursor_config_parsing.rs) share: parse each line in order, push the
    value, and end the process with code 1 at the first line that gives an
    error. The line parser is a parameter, so the facts here are proved once
    for both. */
module Collecting {
  import opened Outcomes

  /** `f` applied to every element, in order */
  function Map<A, B>(f: A -> B, xs: seq<A>): (ys: seq<B>)
    ensures |ys| == |xs|
  {
    if xs == [] then [] else Map(f, xs[..|xs| - 1]) + [f(xs[|xs| - 1])]
  }

  lemma {:induction false} MapAt<A, B>(f: A -> B, xs: seq<A>, i: nat)
    requires i < |xs|
    ensures Map(f, xs)[i] == f(xs[i])
  {
    if i < |xs| - 1 {
      var prefix := xs[..|xs| - 1];
      MapAt(f, prefix, i);
      assert prefix[i] == xs[i];
    }
  }

  /** The outcome of a parsed line as the loop sees it */
  predicate Parsed<T, E>(res: Run<Result<T, E>>) {
    res.Returned? && res.value.Ok?
  }

  /** The loop body over the lines' parse outcomes: push each value, stop at
      the first outcome that did not return (the process already ended inside
      the parser) or that is an error value, which is reported by `report` and
      then ends the process with `exit(1)`. */
  function Gather<T, E>(results: seq<Run<Result<T, E>>>, report: E -> Run<()>): (r: Run<seq<T>>)
    ensures r.Returned? ==> |r.value| == |results|
  {
    if results == [] then Returned([])
    else
      var values :- Gather(results[..|results| - 1], report);
      var res :- results[|results| - 1];
      match res
      case Ok(v) => Returned(values + [v])
      case Err(e) => ReportAndExit(report, e)
  }

  /** `eprintln!("{}", e); exit(1)`: printing may itself end the process;
      otherwise the process exits with code 1. */
  function ReportAndExit<T, E>(report: E -> Run<()>, e: E): (r: Run<T>)
    ensures !r.Returned?
    ensures report(e).Returned? ==> r == Exited(1)
  {
    var printed :- report(e);
    Exited(1)
  }

  /** The loop gets through exactly when every line parses, and then holds the
      values in line order. */
  lemma {:induction false} GatherReturns<T, E>(results: seq<Run<Result<T, E>>>, report: E -> Run<()>)
    ensures Gather(results, report).Returned? <==> forall i :: 0 <= i < |results| ==> Parsed(results[i])
    ensures Gather(results, report).Returned? ==>
              forall i :: 0 <= i < |results| ==> results[i] == Returned(Ok(Gather(results, report).value[i]))
  {
    if results != [] {
      var prefix, last := results[..|results| - 1], results[|results| - 1];
      GatherReturns(prefix, report);
      assert forall i :: 0 <= i < |prefix| ==> prefix[i] == results[i];
      if Gather(results, report).Returned? {
        var values := Gather(prefix, report).value;
        assert Gather(results, report).value == values + [last.value.value];
      }
    }
  }

  /** The loop ends the process only the way some line's parser ended it, or
      the way reporting some line's error value ended it. */
  lemma {:induction false} GatherEnds<T, E>(results: seq<Run<Result<T, E>>>, report: E -> Run<()>)
    ensures var r := Gather(results, report);
      || r.Returned?
      || (exists i :: 0 <= i < |results| && !results[i].Returned? && r == results[i].PropagateFailure())
      || (exists i :: 0 <= i < |results| && results[i].Returned? && results[i].value.Err? &&
                     r == ReportAndExit(report, results[i].value.error))
  {
    if results != [] {
      var prefix, k := results[..|results| - 1], |results| - 1;
      GatherEnds(prefix, report);
      assert forall i :: 0 <= i < |prefix| ==> prefix[i] == results[i];
      var before := Gather(prefix, report);
      if before.Returned? && !results[k].Returned? {
        assert Gather(results, report) == results[k].PropagateFailure();
      } else if before.Returned? && results[k].value.Err? {
        assert Gather(results, report) == ReportAndExit(report, results[k].value.error);
      } else if !before.Returned? {
        assert Gather(results, report) == before;
      }
    }
  }

  /** The first line that does not parse decides how the loop ends: as its
      parser ended the process, or, for an error value, as reporting it and
      exiting does. */
  lemma GatherFirstFailure<T, E>(results: seq<Run<Result<T, E>>>, report: E -> Run<()>, k: nat)
    requires k < |results| && !Parsed(results[k])
    requires forall i :: 0 <= i < k ==> Parsed(results[i])
    ensures Gather(results, report) ==
              if results[k].Returned? then ReportAndExit(report, results[k].value.error)
              else results[k].PropagateFailure()
  {
    GatherReturns(results[..k], report);
    GatherStep(results, report, k);
    GatherStops(results, report, k + 1);
  }
  /** Once the loop has stopped, later lines change nothing. */
  lemma {:induction false} GatherStops<T, E>(results: seq<Run<Result<T, E>>>, report: E -> Run<()>, k: nat)
    requires k <= |results|
    ensures !Gather(results[..k], report).Returned? ==> Gather(results, report) == Gather(results[..k], report)
    decreases |results|
  {
    if k < |results| {
      var prefix := results[..|results| - 1];
      assert prefix[..k] == results[..k];
      GatherStops(prefix, report, k);
    } else {
      assert results[..k] == results;
    }
  }

  /** One more line runs one more loop body while the loop is running: a
      parsed line pushes its value, an error value is reported before the
      process exits with 1, and a parser that ended the process ended the loop
      the same way. */
  lemma GatherStep<T, E>(results: seq<Run<Result<T, E>>>, report: E -> Run<()>, i: nat)
    requires i < |results|
    ensures Gather(results[..i], report).Returned? && Parsed(results[i]) ==>
              Gather(results[..i + 1], report) == Returned(Gather(results[..i], report).value + [results[i].value.value])
    ensures Gather(results[..i], report).Returned? && results[i].Returned? && results[i].value.Err? ==>
              Gather(results[..i + 1], report) == ReportAndExit(report, results[i].value.error)
    ensures Gather(results[..i], report).Returned? && !results[i].Returned? ==>
              Gather(results[..i + 1], report) == results[i].PropagateFailure()
  {
    assert results[..i + 1][..i] == results[..i];
  }
}
