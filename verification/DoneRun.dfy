/** The runner's Done-run decisions (runner/core/done.ts). */
module DoneRun {
  import opened Collections
  import opened Tasks

  const MAX_STEP_ATTEMPTS: nat := 3

  datatype Step = TaskStep(index: nat, taskId: string) | Deliver

  /** The first task with no `passedSha`, or the list's length. */
  function FirstUnpassed(tasks: seq<TaskRef>): (i: nat)
    ensures i <= |tasks|
    ensures forall k :: 0 <= k < i ==> tasks[k].passedSha.Some?
    ensures i < |tasks| ==> tasks[i].passedSha.None?
  {
    if tasks == [] || tasks[0].passedSha.None? then 0 else 1 + FirstUnpassed(tasks[1..])
  }

  predicate AllPassed(tasks: seq<TaskRef>) {
    forall t :: t in tasks ==> t.passedSha.Some?
  }

  function NextStep(tasks: seq<TaskRef>, doneSha: Option<string>): (step: Step)
    requires tasks != []
    ensures step.Deliver? <==> AllPassed(tasks) && doneSha.Some?
    ensures step.TaskStep? ==> step.index < |tasks| && step.taskId == tasks[step.index].id
    ensures step.TaskStep? ==> forall k :: 0 <= k < step.index ==> tasks[k].passedSha.Some?
    ensures step.TaskStep? && !AllPassed(tasks) ==> tasks[step.index].passedSha.None?
    ensures step.TaskStep? && AllPassed(tasks) ==> step.index == |tasks| - 1 && doneSha.None?
  {
    var index := FirstUnpassed(tasks);
    if index < |tasks| then
      TaskStep(index, tasks[index].id)
    else if doneSha.Some? then
      Deliver
    else
      TaskStep(|tasks| - 1, tasks[|tasks| - 1].id)
  }

  datatype CommandResult = CommandResult(command: string, exitCode: int, timedOut: bool)
  datatype Failure = Failure(planned: PlannedCommand, result: CommandResult)
  datatype Verdict = Verdict(passed: bool, failed: Option<Failure>, notRun: seq<PlannedCommand>)

  predicate Green(r: CommandResult) {
    r.exitCode == 0 && !r.timedOut
  }

  function FirstFailure(results: seq<CommandResult>): (i: nat)
    ensures i <= |results|
    ensures forall k :: 0 <= k < i ==> Green(results[k])
    ensures i < |results| ==> !Green(results[i])
  {
    if results == [] || !Green(results[0]) then 0 else 1 + FirstFailure(results[1..])
  }

  /** The `i`-th command is the first that failed, and is reported as such. */
  predicate StoppedAt(planned: seq<PlannedCommand>, results: seq<CommandResult>, i: nat, v: Verdict)
    requires i < |results| <= |planned|
  {
    && !Green(results[i]) && (forall k :: 0 <= k < i ==> Green(results[k]))
    && v.failed == Some(Failure(planned[i], results[i])) && v.notRun == planned[i + 1..]
  }

  /** `results` are in plan order. Passed means that every planned command ran and was green. */
  function JudgeDoneRun(planned: seq<PlannedCommand>, results: seq<CommandResult>): (v: Verdict)
    requires |results| <= |planned|
    ensures v.passed <==> |results| == |planned| && forall k :: 0 <= k < |results| ==> Green(results[k])
    ensures v.failed.None? <==> forall k :: 0 <= k < |results| ==> Green(results[k])
    ensures v.failed.Some? ==> exists i :: 0 <= i < |results| && StoppedAt(planned, results, i, v)
    ensures (forall k :: 0 <= k < |results| - 1 ==> Green(results[k])) ==> v.notRun == planned[|results|..]
  {
    var failedAt := FirstFailure(results);
    if failedAt < |results| then
      var v := Verdict(false, Some(Failure(planned[failedAt], results[failedAt])), planned[failedAt + 1..]);
      assert StoppedAt(planned, results, failedAt, v);
      v
    else if |results| < |planned| then
      Verdict(false, None, planned[|results|..])
    else
      Verdict(true, None, [])
  }

  function ApplyPass(tasks: seq<TaskRef>, throughIndex: nat, sha: string): (r: (seq<TaskRef>, Option<string>))
    ensures |r.0| == |tasks|
    ensures forall i :: 0 <= i < |tasks| ==>
      r.0[i] == if i <= throughIndex then tasks[i].(passedSha := Some(sha)) else tasks[i]
    ensures r.1 == if throughIndex == |tasks| - 1 then Some(sha) else None
  {
    (seq(|tasks|, i requires 0 <= i < |tasks| =>
       if i <= throughIndex then tasks[i].(passedSha := Some(sha)) else tasks[i]),
     if throughIndex == |tasks| - 1 then Some(sha) else None)
  }

  /** The shape a pass and a clearing keep: a recorded `doneSha` means nothing is pending. */
  predicate Coherent(tasks: seq<TaskRef>, doneSha: Option<string>) {
    doneSha.Some? ==> AllPassed(tasks)
  }

  /** Passed tasks come first. */
  predicate PassedPrefix(tasks: seq<TaskRef>) {
    forall i, j :: 0 <= i < j < |tasks| && tasks[j].passedSha.Some? ==> tasks[i].passedSha.Some?
  }

  /** How many tasks the driver still has to see pass before it delivers. */
  function Pending(tasks: seq<TaskRef>, doneSha: Option<string>): (n: nat)
    requires tasks != []
    ensures n <= |tasks|
    ensures n == 0 <==> NextStep(tasks, doneSha).Deliver?
  {
    match NextStep(tasks, doneSha)
    case Deliver => 0
    case TaskStep(index, _) => |tasks| - index
  }

  /** A pass at the asked step keeps both shapes and strictly advances the next step. */
  lemma PassAdvances(tasks: seq<TaskRef>, doneSha: Option<string>, sha: string)
    requires tasks != [] && NextStep(tasks, doneSha).TaskStep?
    ensures var r := ApplyPass(tasks, NextStep(tasks, doneSha).index, sha);
      && Pending(r.0, r.1) < Pending(tasks, doneSha)
      && Coherent(r.0, r.1)
      && (PassedPrefix(tasks) ==> PassedPrefix(r.0))
  {
    var index := NextStep(tasks, doneSha).index;
    var r := ApplyPass(tasks, index, sha);
    var next := FirstUnpassed(r.0);
    assert forall k :: 0 <= k <= index ==> r.0[k].passedSha == Some(sha);
    if index == |tasks| - 1 {
      assert AllPassed(r.0);
    }
  }

  lemma PassThroughLastDelivers(tasks: seq<TaskRef>, sha: string)
    requires tasks != []
    ensures var r := ApplyPass(tasks, |tasks| - 1, sha);
      r.1 == Some(sha) && AllPassed(r.0) && NextStep(r.0, r.1) == Deliver && PassedPrefix(r.0)
  {
  }

  /** The last task's pass and the Done commit go together. */
  function ClearFinalPass(tasks: seq<TaskRef>): (r: seq<TaskRef>)
    requires tasks != []
    ensures |r| == |tasks|
    ensures forall i :: 0 <= i < |tasks| ==>
      r[i] == if i == |tasks| - 1 then tasks[i].(passedSha := None) else tasks[i]
  {
    tasks[|tasks| - 1 := tasks[|tasks| - 1].(passedSha := None)]
  }

  lemma ClearingReopensTheLastTask(tasks: seq<TaskRef>, doneSha: Option<string>)
    requires tasks != [] && NextStep(tasks, doneSha).Deliver?
    ensures Pending(ClearFinalPass(tasks), None) == 1
    ensures PassedPrefix(ClearFinalPass(tasks))
  {
    var r := ClearFinalPass(tasks);
    var next := FirstUnpassed(r);
    assert r[|tasks| - 1].passedSha.None?;
    assert forall k :: 0 <= k < |tasks| - 1 ==> r[k] == tasks[k] && tasks[k] in tasks;
  }
}
