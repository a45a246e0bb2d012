// The invariant holds in every reachable state of every run.

module Reach {
  import opened Types
  import opened Protocol
  import opened ProtocolInv
  import opened LogInv

  lemma StepInv(s: State, step: Step)
    requires Inv(s) && Enabled(s, step)
    ensures Inv(Do(s, step))
  {
    OracleStep(s, step);
    ReadersStep(s, step);
    TxnsStep(s, step);
    HistoryStep(s, step);
    PhasesStep(s, step);
    ChainsStep(s, step);
    ObservedStep(s, step);
    LogShapeStep(s, step);
    LogPhasesStep(s, step);
    CompleteStep(s, step);
    AckedStep(s, step);
    ClosedStep(s, step);
  }

  // A run that can be taken from `s` can be taken step by step.
  lemma ExecSplit(s: State, steps: seq<Step>)
    requires Exec(s, steps).Some? && steps != []
    ensures var m := Exec(s, steps[..|steps| - 1]);
            m.Some? && Enabled(m.value, steps[|steps| - 1])
            && Exec(s, steps).value == Do(m.value, steps[|steps| - 1])
  {
  }

  lemma {:induction false} RunInv(s: State, steps: seq<Step>)
    requires Inv(s) && Exec(s, steps).Some?
    ensures Inv(Exec(s, steps).value)
  {
    if steps != [] {
      ExecSplit(s, steps);
      RunInv(s, steps[..|steps| - 1]);
      StepInv(Exec(s, steps[..|steps| - 1]).value, steps[|steps| - 1]);
    }
  }

  lemma ReachableInv(s: State)
    requires Reachable(s)
    ensures Inv(s)
  {
    var durable: bool, steps: seq<Step> :| Exec(Init(durable), steps) == Some(s);
    InitInv(durable);
    RunInv(Init(durable), steps);
  }

  lemma {:induction false} ExecConcat(s: State, a: seq<Step>, b: seq<Step>)
    requires Exec(s, a).Some?
    ensures Exec(s, a + b) == Exec(Exec(s, a).value, b)
  {
    if b == [] {
      assert a + b == a;
    } else {
      assert (a + b)[..|a + b| - 1] == a + b[..|b| - 1];
      assert (a + b)[|a + b| - 1] == b[|b| - 1];
      ExecConcat(s, a, b[..|b| - 1]);
    }
  }

  lemma ExecThen(s: State, steps: seq<Step>, step: Step)
    requires Exec(s, steps).Some? && Enabled(Exec(s, steps).value, step)
    ensures Exec(s, steps + [step]) == Some(Do(Exec(s, steps).value, step))
  {
    assert (steps + [step])[..|steps|] == steps;
  }

  lemma OneStep(s: State, step: Step)
    requires Enabled(s, step)
    ensures Exec(s, [step]) == Some(Do(s, step))
  {
    ExecThen(s, [], step);
    assert [] + [step] == [step];
  }

  lemma TwoSteps(s: State, a: Step, b: Step)
    requires Enabled(s, a) && Enabled(Do(s, a), b)
    ensures Exec(s, [a, b]) == Some(Do(Do(s, a), b))
  {
    OneStep(s, a);
    ExecThen(s, [a], b);
    assert [a] + [b] == [a, b];
  }

  lemma ReachableStep(s: State, step: Step)
    requires Reachable(s) && Enabled(s, step)
    ensures Reachable(Do(s, step))
  {
    var durable: bool, steps: seq<Step> :| Exec(Init(durable), steps) == Some(s);
    assert (steps + [step])[..|steps|] == steps;
    assert Exec(Init(durable), steps + [step]) == Some(Do(s, step));
  }
}
