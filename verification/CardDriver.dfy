/** One card driven turn by turn (runner/core/loop/turns.ts), with the effects the driver is given
    (runner/core/loop/card-actions.ts). */
module CardDriver {
  import opened Collections
  import opened Tasks
  import opened DoneCommands
  import opened DoneRun

  datatype TurnAnswer =
    | PermanentApiError
    | Failed(timedOut: bool)
    | NeedsDirection
    | ClaimsShipped
    | TaskDone(taskId: string, branch: string)

  datatype Acceptance = Accepted(tip: string) | Refused
  datatype ShellExit = ShellExit(exitCode: int, timedOut: bool)

  /** Everything outside the runner, as it answers at each moment: the `n`-th turn, and the `n`-th Done
      run (run 0 is the re-run at entry, run n + 1 follows turn n) with its commands by position. */
  datatype World = World(
    answer: nat -> TurnAnswer,
    accept: nat -> Acceptance,
    checkout: nat -> bool,
    shell: (nat, nat) -> ShellExit,
    cleanUp: nat -> bool,
    verifyShipped: bool)

  datatype DoneRow =
    | CommandRow(stepTask: string, attempt: nat, sha: string, tasks: seq<string>, result: CommandResult)
    | SummaryRow(stepTask: string, attempt: nat, sha: string, passed: bool, failedCommand: Option<string>, notRun: seq<string>)

  datatype RunOutcome = Judged(verdict: Verdict) | Infrastructure

  datatype CardOutcome =
    | Stopped(retryable: bool)
    | EscalatedNeedsDirection
    | EscalatedDoneFailed
    | EscalatedVerifyFailed
    | Shipped

  /** What the gate can consult while one session turn runs, and the Done rows of this call by then. */
  datatype Turn = Turn(step: Step, doneSha: Option<string>, log: seq<DoneRow>)

  function DoneRows(stepTask: string, attempt: nat, sha: string, planned: seq<PlannedCommand>,
                    results: seq<CommandResult>, verdict: Verdict): seq<DoneRow>
    requires |results| <= |planned|
  {
    seq(|results|, i requires 0 <= i < |results| =>
      CommandRow(stepTask, attempt, sha, planned[i].tasks, results[i])) +
    [SummaryRow(stepTask, attempt, sha, verdict.passed,
                if verdict.failed.Some? then Some(verdict.failed.value.result.command) else None,
                CommandsOf(verdict.notRun))]
  }

  predicate Exited(world: World, run: nat, i: nat) {
    world.shell(run, i) == ShellExit(0, false)
  }

  function ResultOf(p: PlannedCommand, exit: ShellExit): (r: CommandResult)
    ensures Green(r) <==> exit == ShellExit(0, false)
  {
    CommandResult(p.command, exit.exitCode, exit.timedOut)
  }

  /** The rows of a run that executed the first `ran` planned commands: one row each, with how it exited, up
      to and with the first that failed, and then the summary of what failed and what was not run. */
  ghost predicate IsRecord(rows: seq<DoneRow>, ran: nat, planned: seq<PlannedCommand>, sha: string, stepTask: string,
                           attempt: nat, run: nat, world: World)
  {
    var failed := ran > 0 && !Exited(world, run, ran - 1);
    && ran <= |planned| && |rows| == ran + 1
    && (forall i :: 0 <= i < ran ==>
          rows[i] == CommandRow(stepTask, attempt, sha, planned[i].tasks, ResultOf(planned[i], world.shell(run, i))))
    && (forall i :: 0 <= i < ran - 1 ==> Exited(world, run, i))
    && (ran < |planned| ==> failed)
    && rows[ran] == SummaryRow(stepTask, attempt, sha, !failed, if failed then Some(planned[ran - 1].command) else None,
                               CommandsOf(planned[ran..]))
  }

  ghost predicate HasRecord(rows: seq<DoneRow>, planned: seq<PlannedCommand>, sha: string, stepTask: string, attempt: nat,
                            run: nat, world: World)
  {
    exists ran: nat :: IsRecord(rows, ran, planned, sha, stepTask, attempt, run, world)
  }

  /** The results of the commands so far. */
  ghost predicate AreResults(planned: seq<PlannedCommand>, results: seq<CommandResult>, run: nat, world: World) {
    && |results| <= |planned|
    && forall i :: 0 <= i < |results| ==> results[i] == ResultOf(planned[i], world.shell(run, i))
  }

  ghost predicate AllExited(n: nat, run: nat, world: World) {
    forall i :: 0 <= i < n ==> Exited(world, run, i)
  }

  /** What the command loop has when it ends. */
  ghost predicate RanUntilFailure(planned: seq<PlannedCommand>, results: seq<CommandResult>, run: nat, world: World) {
    && AreResults(planned, results, run, world)
    && if |results| < |planned| then results != [] && AllExited(|results| - 1, run, world) && !Exited(world, run, |results| - 1)
       else results == [] || AllExited(|results| - 1, run, world)
  }

  lemma VerdictOfRun(planned: seq<PlannedCommand>, results: seq<CommandResult>, run: nat, world: World)
    requires RanUntilFailure(planned, results, run, world)
    ensures var verdict, n := JudgeDoneRun(planned, results), |results|;
      var failed := n > 0 && !Exited(world, run, n - 1);
      && (verdict.passed <==> !failed) && (verdict.passed <==> AllExited(|planned|, run, world))
      && verdict.notRun == planned[n..]
      && (if failed then verdict.failed.Some? && verdict.failed.value.result.command == planned[n - 1].command
          else verdict.failed.None?)
  {
    hide JudgeDoneRun;
    var verdict, n := JudgeDoneRun(planned, results), |results|;
    assert forall i :: 0 <= i < n ==> (Green(results[i]) <==> Exited(world, run, i));
    hide Green, Exited;
    if n > 0 && !Exited(world, run, n - 1) {
      var i :| 0 <= i < n && StoppedAt(planned, results, i, verdict);
    }
  }

  lemma RunLeavesItsRecord(planned: seq<PlannedCommand>, results: seq<CommandResult>, sha: string, stepTask: string,
                           attempt: nat, run: nat, world: World)
    requires RanUntilFailure(planned, results, run, world)
    ensures var verdict := JudgeDoneRun(planned, results);
      && (verdict.passed <==> AllExited(|planned|, run, world))
      && IsRecord(DoneRows(stepTask, attempt, sha, planned, results, verdict), |results|, planned, sha, stepTask,
                  attempt, run, world)
  {
    VerdictOfRun(planned, results, run, world);
    hide CommandsOf, JudgeDoneRun, Exited, Green;
  }

  lemma PassedRecordIsGreen(rows: seq<DoneRow>, ran: nat, planned: seq<PlannedCommand>, sha: string, stepTask: string,
                            attempt: nat, run: nat, world: World, k: nat)
    requires IsRecord(rows, ran, planned, sha, stepTask, attempt, run, world)
    requires AllExited(|planned|, run, world) && k < |planned|
    ensures GreenAt(rows, sha, planned[k].command)
  {
    hide CommandsOf;
    assert ran == |planned|;
    assert rows[k].CommandRow? && Exited(world, run, k);
  }

  /** The record shows `command` exiting 0 at `sha`. */
  ghost predicate GreenAt(log: seq<DoneRow>, sha: string, command: string) {
    exists i :: 0 <= i < |log| && log[i].CommandRow? && log[i].sha == sha
                && log[i].result.command == command && Green(log[i].result)
  }

  ghost predicate AllGreenAt(tasks: seq<ResolvedTask>, log: seq<DoneRow>, sha: string) {
    forall t, command :: t in tasks && command in t.doneCommands ==> GreenAt(log, sha, command)
  }

  lemma LongerLogStaysGreen(tasks: seq<ResolvedTask>, log: seq<DoneRow>, more: seq<DoneRow>, sha: string)
    requires AllGreenAt(tasks, log, sha)
    ensures AllGreenAt(tasks, log + more, sha)
  {
    forall t, command | t in tasks && command in t.doneCommands ensures GreenAt(log + more, sha, command) {
      assert GreenAt(log, sha, command);
      var i :| 0 <= i < |log| && log[i].CommandRow? && log[i].sha == sha
               && log[i].result.command == command && Green(log[i].result);
      assert (log + more)[i] == log[i];
    }
  }

  /** Rows of a passing run over a plan of all the tasks make the commit green. */
  lemma PassingRunIsAllGreen(tasks: seq<ResolvedTask>, planned: seq<PlannedCommand>, log: seq<DoneRow>, sha: string)
    requires IsPlanFor(planned, tasks)
    requires forall i :: 0 <= i < |planned| ==> GreenAt(log, sha, planned[i].command)
    ensures AllGreenAt(tasks, log, sha)
  {
    forall t, command | t in tasks && command in t.doneCommands ensures GreenAt(log, sha, command) {
      PlanCoversExactlyTheTasks(planned, tasks, command);
      var k :| 0 <= k < |planned| && planned[k].command == command;
    }
  }

  ghost predicate Verified(tasks: seq<ResolvedTask>, doneSha: Option<string>, log: seq<DoneRow>) {
    doneSha.Some? ==> AllGreenAt(tasks, log, doneSha.value)
  }

  function TaskTurns(turns: seq<Turn>): (n: nat)
    ensures n <= |turns|
  {
    if turns == [] then 0
    else TaskTurns(turns[..|turns| - 1]) + if turns[|turns| - 1].step.TaskStep? then 1 else 0
  }

  lemma TaskTurnsAppend(turns: seq<Turn>, t: Turn)
    ensures TaskTurns(turns + [t]) == TaskTurns(turns) + if t.step.TaskStep? then 1 else 0
  {
    assert (turns + [t])[..|turns|] == turns;
  }

  /** What becomes of a `TASK_DONE` for the task `id`: it is tried when it names that task and its branch is accepted;
      then it passes exactly when the tree could be set up and taken down and every planned command exited 0. Its
      rows are the run's record, or none when nothing ran. */
  ghost predicate IsTried(id: string, taskId: string, n: nat, world: World) {
    taskId == id && world.accept(n).Accepted?
  }

  ghost predicate IsTaskVerdict(index: seq<ResolvedTask>, through: nat, taskId: string, attempts: nat, n: nat, world: World,
                                infrastructure: bool, passed: bool, more: seq<DoneRow>, planned: seq<PlannedCommand>)
    requires through < |index|
  {
    var id := index[through].id;
    if !IsTried(id, taskId, n, world) then !infrastructure && !passed && more == []
    else
      && IsPlanFor(planned, index[..through + 1])
      && (infrastructure <==> !world.checkout(n + 1) || !world.cleanUp(n + 1))
      && (passed <==> !infrastructure && AllExited(|planned|, n + 1, world))
      && if world.checkout(n + 1)
         then HasRecord(more, planned, world.accept(n).tip, id, attempts + 1, n + 1, world)
         else more == []
  }

  /** How a call may end with its `n`-th turn: each answer has its own end, and only an answer that spent an attempt
      leaves the budget used up. */
  predicate EndsAs(world: World, n: nat, step: Step, outcome: CardOutcome) {
    match world.answer(n)
    case PermanentApiError => outcome == Stopped(false)
    case Failed(timedOut) => outcome == Stopped(!timedOut)
    case NeedsDirection => outcome == EscalatedNeedsDirection
    case ClaimsShipped =>
      outcome == if step.TaskStep? then EscalatedDoneFailed else if world.verifyShipped then Shipped else EscalatedVerifyFailed
    case TaskDone(_, _) => outcome == Stopped(false) || outcome == EscalatedDoneFailed
  }

  /** A turn after which the call goes on: a task done, or a delivery claimed too early. */
  predicate GoesOn(world: World, n: nat, step: Step) {
    world.answer(n).TaskDone? || (world.answer(n).ClaimsShipped? && step.TaskStep?)
  }

  /** The last `m` turns asked for one and the same step. */
  predicate AskedAgain(turns: seq<Turn>, m: nat) {
    m <= |turns| && forall k :: |turns| - m <= k < |turns| ==> turns[k].step == turns[|turns| - 1].step
  }

  /** The live state entry of one card, and the run's Done record. */
  class CardEntry {
    var tasks: seq<TaskRef>
    var doneSha: Option<string>
    var branch: Option<string>
    var rows: seq<DoneRow>

    /** The resolved index belongs to this card. */
    predicate Indexed(index: seq<ResolvedTask>)
      reads this
    {
      |tasks| == |index| >= 1 && forall i :: 0 <= i < |index| ==> index[i].id == tasks[i].id
    }

    /** The commands one after the other, up to and with the first that fails. */
    method RunCommands(planned: seq<PlannedCommand>, run: nat, world: World) returns (results: seq<CommandResult>)
      ensures |results| <= |planned| && RanUntilFailure(planned, results, run, world)
    {
      results := [];
      for i := 0 to |planned|
        invariant |results| == i && AreResults(planned, results, run, world) && AllExited(i, run, world)
      {
        var exit := world.shell(run, i);
        results := results + [CommandResult(planned[i].command, exit.exitCode, exit.timedOut)];
        if exit.exitCode != 0 || exit.timedOut {
          return;
        }
      }
    }

    /** Runs the plan in order at `sha` and stops at the first failure. It passes exactly when every
        planned command exited 0. Passed or failed, once the tree is checked out the run leaves its record. */
    method RunDone(planned: seq<PlannedCommand>, sha: string, stepTask: string, attempt: nat, run: nat, world: World)
      returns (outcome: RunOutcome, ghost more: seq<DoneRow>)
      modifies this`rows
      ensures rows == old(rows) + more
      ensures if world.checkout(run) then HasRecord(more, planned, sha, stepTask, attempt, run, world) else more == []
      ensures outcome.Infrastructure? <==> !world.checkout(run) || !world.cleanUp(run)
      ensures outcome.Judged? ==> (outcome.verdict.passed <==> AllExited(|planned|, run, world))
      ensures outcome.Judged? && outcome.verdict.passed ==>
                forall i :: 0 <= i < |planned| ==> GreenAt(more, sha, planned[i].command)
    {
      more := [];
      if !world.checkout(run) {
        return Infrastructure, [];
      }
      hide IsRecord, GreenAt, DoneRows, JudgeDoneRun, AllExited, RanUntilFailure;
      var results := RunCommands(planned, run, world);
      var verdict := JudgeDoneRun(planned, results);
      var written := DoneRows(stepTask, attempt, sha, planned, results, verdict);
      rows := rows + written;
      more := written;
      RunLeavesItsRecord(planned, results, sha, stepTask, attempt, run, world);
      if verdict.passed {
        forall k | 0 <= k < |planned| ensures GreenAt(more, sha, planned[k].command) {
          PassedRecordIsGreen(more, |results|, planned, sha, stepTask, attempt, run, world, k);
        }
      }
      if !world.cleanUp(run) {
        return Infrastructure, more;
      }
      return Judged(verdict), more;
    }

    method RecordPass(throughIndex: nat, sha: string, branchName: string)
      modifies this`tasks, this`doneSha, this`branch
      ensures tasks == ApplyPass(old(tasks), throughIndex, sha).0
      ensures doneSha == ApplyPass(old(tasks), throughIndex, sha).1
      ensures branch == if old(branch).None? then Some(branchName) else old(branch)
    {
      var passed := ApplyPass(tasks, throughIndex, sha);
      tasks := passed.0;
      doneSha := passed.1;
      if branch.None? {
        branch := Some(branchName);
      }
    }

    /** One `TASK_DONE` answer to `step`: refused, run and failed, or run and recorded. */
    method AcceptTaskDone(index: seq<ResolvedTask>, step: Step, taskId: string, branchName: string,
                          attempts: nat, n: nat, world: World)
      returns (infrastructure: bool, passed: bool, ghost more: seq<DoneRow>, ghost planned: seq<PlannedCommand>)
      requires Indexed(index) && step == NextStep(tasks, doneSha)
      modifies this
      ensures Indexed(index) && rows == old(rows) + more
      ensures !passed ==> tasks == old(tasks) && doneSha == old(doneSha)
      ensures IsTaskVerdict(index, Through(index, step), taskId, attempts, n, world, infrastructure, passed, more, planned)
      ensures passed ==>
                && tasks == ApplyPass(old(tasks), Through(index, step), world.accept(n).tip).0
                && doneSha == ApplyPass(old(tasks), Through(index, step), world.accept(n).tip).1
                && (Through(index, step) == |index| - 1 ==> AllGreenAt(index, more, world.accept(n).tip))
      ensures branch == if IsTried(index[Through(index, step)].id, taskId, n, world) && old(branch).None? then Some(branchName)
                        else old(branch)
    {
      hide ApplyPass, AllGreenAt, IsPlanFor, HasRecord, AllExited;
      more, planned := [], [];
      var expectedIndex := if step.TaskStep? then step.index else |index| - 1;
      if taskId != index[expectedIndex].id || world.accept(n).Refused? {
        return false, false, more, planned;
      }
      var tip := world.accept(n).tip;
      if branch.None? {
        branch := Some(branchName);
      }
      var commands := DoneCommandsThrough(index, expectedIndex);
      planned := commands;
      var run;
      run, more := RunDone(commands, tip, index[expectedIndex].id, attempts + 1, n + 1, world);
      if run.Infrastructure? {
        return true, false, more, planned;
      }
      if !run.verdict.passed {
        return false, false, more, planned;
      }
      if expectedIndex == |index| - 1 {
        assert index[..|index|] == index;
        PassingRunIsAllGreen(index, commands, more, tip);
      }
      RecordPass(expectedIndex, tip, branchName);
      return false, true, more, planned;
    }

    /** The last task a pass at this step covers. */
    function Through(index: seq<ResolvedTask>, step: Step): (i: nat)
      requires index != [] && (step.TaskStep? ==> step.index < |index|)
      ensures i < |index|
    {
      if step.TaskStep? then step.index else |index| - 1
    }

    /** What one turn's answer means for the step it was asked: the call ends, or the turn was accepted
        as a pass, or it spends an attempt. */
    method TakeTurn(index: seq<ResolvedTask>, step: Step, attempts: nat, n: nat, world: World)
      returns (finished: Option<CardOutcome>, passed: bool, ghost more: seq<DoneRow>, ghost planned: seq<PlannedCommand>)
      requires Indexed(index) && step == NextStep(tasks, doneSha)
      modifies this
      ensures Indexed(index) && rows == old(rows) + more
      ensures !passed ==> tasks == old(tasks) && doneSha == old(doneSha)
      ensures passed ==> finished.None? && world.accept(n).Accepted?
      ensures passed ==>
                && tasks == ApplyPass(old(tasks), Through(index, step), world.accept(n).tip).0
                && doneSha == ApplyPass(old(tasks), Through(index, step), world.accept(n).tip).1
                && (Through(index, step) == |index| - 1 ==> AllGreenAt(index, more, world.accept(n).tip))
      ensures if GoesOn(world, n, step) then finished.Some? ==> world.answer(n).TaskDone? && finished.value == Stopped(false)
              else finished.Some? && EndsAs(world, n, step, finished.value)
      ensures match world.answer(n)
              case TaskDone(taskId, _) =>
                IsTaskVerdict(index, Through(index, step), taskId, attempts, n, world, finished.Some?, passed, more, planned)
              case _ => !passed && more == []
    {
      hide ApplyPass, AllGreenAt, IsTaskVerdict;
      more, planned := [], [];
      match world.answer(n) {
        case PermanentApiError =>
          return Some(Stopped(false)), false, more, planned;
        case Failed(timedOut) =>
          return Some(Stopped(!timedOut)), false, more, planned;
        case NeedsDirection =>
          return Some(EscalatedNeedsDirection), false, more, planned;
        case ClaimsShipped =>
          if step.Deliver? {
            return Some(if world.verifyShipped then Shipped else EscalatedVerifyFailed), false, more, planned;
          }
          return None, false, more, planned;
        case TaskDone(taskId, branchName) =>
          var infrastructure;
          infrastructure, passed, more, planned := AcceptTaskDone(index, step, taskId, branchName, attempts, n, world);
          PassIsTried(index, Through(index, step), taskId, attempts, n, world, infrastructure, passed, more, planned);
          return if infrastructure then Some(Stopped(false)) else None, passed, more, planned;
      }
    }

    /** The check before the first turn of a card that is already due for delivery: its Done commands
        run again at the recorded commit, and a failure reopens the last task. */
    method RecheckBeforeDelivery(index: seq<ResolvedTask>, world: World)
      returns (infrastructure: bool, passed: bool, ghost more: seq<DoneRow>)
      requires Indexed(index) && NextStep(tasks, doneSha).Deliver?
      modifies this
      ensures Indexed(index) && rows == old(rows) + more
      ensures passed ==> tasks == old(tasks) && doneSha == old(doneSha) && AllGreenAt(index, more, doneSha.value)
      ensures !infrastructure && !passed ==> tasks == ClearFinalPass(old(tasks)) && doneSha == None
      ensures infrastructure ==> !passed && tasks == old(tasks) && doneSha == old(doneSha)
      ensures infrastructure <==> !world.checkout(0) || !world.cleanUp(0)
      ensures exists planned :: IsPlanFor(planned, index) && (passed <==> !infrastructure && AllExited(|planned|, 0, world))
    {
      hide IsPlanFor, AllExited, HasRecord;
      var last := index[|index| - 1];
      var planned := DoneCommandsThrough(index, |index| - 1);
      var run;
      run, more := RunDone(planned, doneSha.value, last.id, 1, 0, world);
      assert index[..|index|] == index;
      if run.Infrastructure? {
        return true, false, more;
      }
      if !run.verdict.passed {
        doneSha := None;
        tasks := ClearFinalPass(tasks);
        return false, false, more;
      }
      PassingRunIsAllGreen(index, planned, more, doneSha.value);
      return false, true, more;
    }

    /** Drives the card until it ships, escalates or stops. `Kept` says what every turn saw; a call that
        stops before its first turn leaves the card alone. At most three turns a task, then three for
        the delivery; the last turn's answer decides the outcome, only a delivery turn ends in a verified
        ship, and the budget is spent only on one step asked three times, the check at entry being one. */
    method DriveCardTurns(index: seq<ResolvedTask>, world: World)
      returns (outcome: CardOutcome, ghost turns: seq<Turn>, ghost log: seq<DoneRow>)
      requires Indexed(index)
      modifies this
      ensures Indexed(index) && rows == old(rows) + log
      ensures turns == [] ==> tasks == old(tasks) && doneSha == old(doneSha) && outcome == Stopped(false)
      ensures turns != [] ==> IsCall(index, world, old(tasks), old(doneSha), tasks, doneSha, turns, log, outcome)
    {
      hide Driven, IsCall, ApplyPass, ClearFinalPass, AllGreenAt, IsTaskVerdict, IsPlanFor, AllExited, GoesOn, EndsAs, NextStep, Pending, AllPassed;
      var attempts: nat := 0;
      ghost var atEntry: nat := 0;
      var n: nat := 0;
      turns, log := [], [];
      ghost var tasks0, doneSha0 := tasks, doneSha;
      if NextStep(tasks, doneSha).Deliver? {
        ClearingReopensTheLastTask(tasks, doneSha);
        var infrastructure, passed, more := RecheckBeforeDelivery(index, world);
        log := more;
        if infrastructure {
          return Stopped(false), turns, log;
        }
        if !passed {
          attempts := 1;
          atEntry := 1;
        }
      }
      DrivenAtFirst(index, world, tasks0, doneSha0, tasks, doneSha, log, attempts);
      while true
        invariant Indexed(index) && rows == old(rows) + log
        invariant n == |turns| && attempts < MAX_STEP_ATTEMPTS
        invariant Driven(index, world, tasks0, doneSha0, tasks, doneSha, turns, log, attempts, atEntry)
        decreases Pending(tasks, doneSha), MAX_STEP_ATTEMPTS - attempts
      {
        var step := NextStep(tasks, doneSha);
        ghost var before, doneBefore := tasks, doneSha;
        var finished, passed, more, planned := TakeTurn(index, step, attempts, n, world);
        AppendIsAssociative(old(rows), log, more);
        TurnTaken(index, world, tasks0, doneSha0, before, doneBefore, turns, log, attempts, atEntry,
                  finished, passed, more, tasks, doneSha);
        turns, log := turns + [Turn(step, doneBefore, log)], log + more;
        if finished.Some? {
          return finished.value, turns, log;
        }
        n := n + 1;
        if passed && step.TaskStep? {
          attempts, atEntry := 0, 0;
        } else {
          attempts := attempts + 1;
        }
        if attempts >= MAX_STEP_ATTEMPTS {
          return EscalatedDoneFailed, turns, log;
        }
      }
    }
  }

  /** A whole call with at least one turn: what every turn saw is `Kept`; at most three turns a task and three for the
      delivery; every turn but the last went on and the last one's answer decides the outcome; only a delivery turn at
      a recorded Done commit ends in a claimed ship; and the budget is spent only on one step asked three times, a failed
      check at entry being one of them. */
  ghost predicate IsCall(index: seq<ResolvedTask>, world: World, tasks0: seq<TaskRef>, doneSha0: Option<string>,
                         tasks: seq<TaskRef>, doneSha: Option<string>, turns: seq<Turn>, log: seq<DoneRow>, outcome: CardOutcome)
    requires turns != [] && tasks0 != []
  {
    var n := |turns| - 1;
    && Kept(index, tasks0, doneSha0, tasks, doneSha, turns, log)
    && TaskTurns(turns) <= MAX_STEP_ATTEMPTS * |index|
    && |turns| <= TaskTurns(turns) + MAX_STEP_ATTEMPTS
    && EndsAs(world, n, turns[n].step, outcome)
    && (forall k :: 0 <= k < n ==> GoesOn(world, k, turns[k].step))
    && (outcome in {Shipped, EscalatedVerifyFailed} ==> turns[n].step.Deliver? && doneSha.Some?)
    && (outcome == EscalatedDoneFailed ==>
          AskedAgain(turns, if NextStep(tasks0, doneSha0).Deliver? then MAX_STEP_ATTEMPTS - 1 else MAX_STEP_ATTEMPTS))
  }

  /** What the loop keeps. */
  ghost predicate Driven(index: seq<ResolvedTask>, world: World, tasks0: seq<TaskRef>, doneSha0: Option<string>,
                         tasks: seq<TaskRef>, doneSha: Option<string>, turns: seq<Turn>, log: seq<DoneRow>,
                         attempts: nat, atEntry: nat)
    requires tasks0 != [] && tasks != []
  {
    && Kept(index, tasks0, doneSha0, tasks, doneSha, turns, log)
    && WithinBudget(|index|, Pending(tasks, doneSha), attempts, turns)
    && OnCourse(world, turns, NextStep(tasks, doneSha), attempts, atEntry)
    && attempts < MAX_STEP_ATTEMPTS && atEntry <= 1 && (NextStep(tasks0, doneSha0).TaskStep? ==> atEntry == 0)
  }

  lemma DrivenAtFirst(index: seq<ResolvedTask>, world: World, tasks0: seq<TaskRef>, doneSha0: Option<string>,
                      tasks: seq<TaskRef>, doneSha: Option<string>, log: seq<DoneRow>, attempts: nat)
    requires tasks0 != [] && |tasks| == |tasks0| == |index|
    requires if NextStep(tasks0, doneSha0).Deliver? then
               || (tasks == tasks0 && doneSha == doneSha0 && attempts == 0 && (doneSha.Some? ==> AllGreenAt(index, log, doneSha.value)))
               || (tasks == ClearFinalPass(tasks0) && doneSha == None && attempts == 1)
             else tasks == tasks0 && doneSha == doneSha0 && log == [] && attempts == 0
    ensures Driven(index, world, tasks0, doneSha0, tasks, doneSha, [], log, attempts, attempts)
  {
    hide AllGreenAt, Kept, WithinBudget;
    if NextStep(tasks0, doneSha0).Deliver? {
      ClearingReopensTheLastTask(tasks0, doneSha0);
    }
    KeptAtFirst(index, tasks0, doneSha0, tasks, doneSha, log);
    NothingSpentYet(|index|, Pending(tasks, doneSha), attempts);
    CourseStarts(world, NextStep(tasks, doneSha), attempts);
  }

  /** One turn of the loop: the call is over, or what the loop keeps holds again and it is nearer its end. */
  lemma TurnTaken(index: seq<ResolvedTask>, world: World, tasks0: seq<TaskRef>, doneSha0: Option<string>,
                  tasks: seq<TaskRef>, doneSha: Option<string>, turns: seq<Turn>, log: seq<DoneRow>, attempts: nat, atEntry: nat,
                  finished: Option<CardOutcome>, passed: bool, more: seq<DoneRow>, tasks': seq<TaskRef>, doneSha': Option<string>)
    requires tasks0 != [] && tasks != [] && |tasks'| == |tasks| == |index|
    requires Driven(index, world, tasks0, doneSha0, tasks, doneSha, turns, log, attempts, atEntry)
    requires !passed ==> tasks' == tasks && doneSha' == doneSha
    requires var step, n := NextStep(tasks, doneSha), |turns|;
      && (passed ==> finished.None? && world.accept(n).Accepted? && world.answer(n).TaskDone?)
      && (passed ==>
            var through := if step.TaskStep? then step.index else |index| - 1;
            && (tasks', doneSha') == ApplyPass(tasks, through, world.accept(n).tip)
            && (through == |index| - 1 ==> AllGreenAt(index, more, world.accept(n).tip)))
      && (if GoesOn(world, n, step) then finished.Some? ==> world.answer(n).TaskDone? && finished.value == Stopped(false)
          else finished.Some? && EndsAs(world, n, step, finished.value))
    ensures var step := NextStep(tasks, doneSha);
      var turns', log' := turns + [Turn(step, doneSha, log)], log + more;
      var reset := passed && step.TaskStep?;
      if finished.Some? then IsCall(index, world, tasks0, doneSha0, tasks', doneSha', turns', log', finished.value)
      else if !reset && attempts + 1 >= MAX_STEP_ATTEMPTS then
        IsCall(index, world, tasks0, doneSha0, tasks', doneSha', turns', log', EscalatedDoneFailed)
      else
        && Driven(index, world, tasks0, doneSha0, tasks', doneSha', turns', log', if reset then 0 else attempts + 1, if reset then 0 else atEntry)
        && if reset then Pending(tasks', doneSha') < Pending(tasks, doneSha) else Pending(tasks', doneSha') == Pending(tasks, doneSha)
  {
    hide Kept, WithinBudget, ApplyPass, AllGreenAt, TaskTurns, OnCourse, EndsAs, GoesOn, AskedAgain, Coherent;
    var step := NextStep(tasks, doneSha);
    var turn := Turn(step, doneSha, log);
    var turns', log' := turns + [turn], log + more;
    RecordTurn(index, tasks0, doneSha0, tasks, doneSha, turns, log);
    TurnSpendsBudget(|index|, Pending(tasks, doneSha), attempts, turns, turn);
    if passed {
      RecordedPassIsKept(index, tasks0, doneSha0, tasks, doneSha, turns', log, more, world.accept(|turns|).tip);
    } else {
      LongerLogIsKept(index, tasks0, doneSha0, tasks, doneSha, turns', log, more);
    }
    if finished.Some? {
      CourseEnds(world, turns, turn, attempts, atEntry, finished.value);
      ShipsFromDelivery(world, |turns|, step, finished.value);
      NextStepOfDelivery(tasks, doneSha);
    } else {
      assert GoesOn(world, |turns|, step);
      CourseGoesOn(world, turns, turn, attempts, atEntry);
      FewerAskedAgain(turns', attempts + 1 - atEntry);
    }
  }

  lemma ShipsFromDelivery(world: World, n: nat, step: Step, outcome: CardOutcome)
    requires EndsAs(world, n, step, outcome)
    ensures outcome in {Shipped, EscalatedVerifyFailed} ==> step.Deliver?
  {
  }

  lemma NextStepOfDelivery(tasks: seq<TaskRef>, doneSha: Option<string>)
    requires tasks != []
    ensures NextStep(tasks, doneSha).Deliver? ==> doneSha.Some?
  {
  }

  /** What the loop keeps about the card and the turns so far, relative to the card it was given. */
  ghost predicate Kept(index: seq<ResolvedTask>, tasks0: seq<TaskRef>, doneSha0: Option<string>,
                       tasks: seq<TaskRef>, doneSha: Option<string>, turns: seq<Turn>, log: seq<DoneRow>)
  {
    && (forall k :: 0 <= k < |turns| ==> turns[k].log <= log)
    && (forall k :: 0 <= k < |turns| && turns[k].step.Deliver? ==> turns[k].doneSha.Some?)
    && (PassedPrefix(tasks0) ==> PassedPrefix(tasks))
    && if Coherent(tasks0, doneSha0) then
         && Coherent(tasks, doneSha)
         && Verified(index, doneSha, log)
         && forall k :: 0 <= k < |turns| ==> Verified(index, turns[k].doneSha, turns[k].log)
       else if turns == [] then doneSha.Some? && log == []
       else turns[0].doneSha.Some? && turns[0].log == []
  }

  lemma PassIsTried(index: seq<ResolvedTask>, through: nat, taskId: string, attempts: nat, n: nat, world: World,
                    infrastructure: bool, passed: bool, more: seq<DoneRow>, planned: seq<PlannedCommand>)
    requires through < |index|
    requires IsTaskVerdict(index, through, taskId, attempts, n, world, infrastructure, passed, more, planned)
    ensures passed ==> !infrastructure && world.accept(n).Accepted?
  {
  }

  /** Every turn so far went on, and the attempts of the current step are the latest turns, but for one at entry. */
  ghost predicate OnCourse(world: World, turns: seq<Turn>, step: Step, attempts: nat, atEntry: nat) {
    && (forall k :: 0 <= k < |turns| ==> GoesOn(world, k, turns[k].step))
    && atEntry <= attempts <= |turns| + atEntry
    && forall k :: |turns| + atEntry - attempts <= k < |turns| ==> turns[k].step == step
  }

  lemma CourseStarts(world: World, step: Step, attempts: nat)
    ensures OnCourse(world, [], step, attempts, attempts)
  {
  }

  lemma CourseGoesOn(world: World, turns: seq<Turn>, t: Turn, attempts: nat, atEntry: nat)
    requires OnCourse(world, turns, t.step, attempts, atEntry) && GoesOn(world, |turns|, t.step)
    ensures forall next :: OnCourse(world, turns + [t], next, 0, 0)
    ensures OnCourse(world, turns + [t], t.step, attempts + 1, atEntry)
    ensures AskedAgain(turns + [t], attempts + 1 - atEntry)
    ensures EndsAs(world, |turns|, t.step, EscalatedDoneFailed)
    ensures forall k :: 0 <= k < |turns| ==> GoesOn(world, k, (turns + [t])[k].step)
  {
  }

  lemma CourseEnds(world: World, turns: seq<Turn>, t: Turn, attempts: nat, atEntry: nat, outcome: CardOutcome)
    requires OnCourse(world, turns, t.step, attempts, atEntry)
    requires if GoesOn(world, |turns|, t.step) then world.answer(|turns|).TaskDone? && outcome == Stopped(false)
             else EndsAs(world, |turns|, t.step, outcome)
    ensures EndsAs(world, |turns|, t.step, outcome) && outcome != EscalatedDoneFailed
    ensures forall k :: 0 <= k < |turns| ==> GoesOn(world, k, (turns + [t])[k].step)
  {
  }

  lemma FewerAskedAgain(turns: seq<Turn>, m: nat)
    requires AskedAgain(turns, m)
    ensures forall fewer: nat :: fewer <= m ==> AskedAgain(turns, fewer)
  {
  }

  lemma KeptAtFirst(index: seq<ResolvedTask>, tasks0: seq<TaskRef>, doneSha0: Option<string>,
                    tasks: seq<TaskRef>, doneSha: Option<string>, log: seq<DoneRow>)
    requires tasks0 != []
    requires if NextStep(tasks0, doneSha0).Deliver? then
               || (tasks == tasks0 && doneSha == doneSha0 && Verified(index, doneSha, log))
               || (tasks == ClearFinalPass(tasks0) && doneSha == None)
             else tasks == tasks0 && doneSha == doneSha0 && log == []
    ensures Kept(index, tasks0, doneSha0, tasks, doneSha, [], log)
  {
    if NextStep(tasks0, doneSha0).Deliver? {
      ClearingReopensTheLastTask(tasks0, doneSha0);
    }
  }

  lemma RecordTurn(index: seq<ResolvedTask>, tasks0: seq<TaskRef>, doneSha0: Option<string>,
                   tasks: seq<TaskRef>, doneSha: Option<string>, turns: seq<Turn>, log: seq<DoneRow>)
    requires tasks != [] && Kept(index, tasks0, doneSha0, tasks, doneSha, turns, log)
    ensures Kept(index, tasks0, doneSha0, tasks, doneSha, turns + [Turn(NextStep(tasks, doneSha), doneSha, log)], log)
  {
  }

  lemma LongerLogIsKept(index: seq<ResolvedTask>, tasks0: seq<TaskRef>, doneSha0: Option<string>,
                        tasks: seq<TaskRef>, doneSha: Option<string>, turns: seq<Turn>, log: seq<DoneRow>, more: seq<DoneRow>)
    requires turns != [] && Kept(index, tasks0, doneSha0, tasks, doneSha, turns, log)
    ensures Kept(index, tasks0, doneSha0, tasks, doneSha, turns, log + more)
  {
    if Coherent(tasks0, doneSha0) && doneSha.Some? {
      LongerLogStaysGreen(index, log, more, doneSha.value);
    }
  }

  lemma RecordedPassIsKept(index: seq<ResolvedTask>, tasks0: seq<TaskRef>, doneSha0: Option<string>,
                           tasks: seq<TaskRef>, doneSha: Option<string>, turns: seq<Turn>, log: seq<DoneRow>,
                           more: seq<DoneRow>, tip: string)
    requires turns != [] && |tasks| == |index| && tasks != []
    requires Kept(index, tasks0, doneSha0, tasks, doneSha, turns, log)
    requires var step := NextStep(tasks, doneSha);
      step.Deliver? || step.index == |index| - 1 ==> AllGreenAt(index, more, tip)
    ensures var step := NextStep(tasks, doneSha);
      var r := ApplyPass(tasks, if step.TaskStep? then step.index else |index| - 1, tip);
      && Kept(index, tasks0, doneSha0, r.0, r.1, turns, log + more)
      && (if step.TaskStep? then Pending(r.0, r.1) < Pending(tasks, doneSha) else Pending(r.0, r.1) == 0)
  {
    var step := NextStep(tasks, doneSha);
    LongerLogIsKept(index, tasks0, doneSha0, tasks, doneSha, turns, log, more);
    PassThroughLastDelivers(tasks, tip);
    if step.TaskStep? {
      PassAdvances(tasks, doneSha, tip);
    }
    if step.Deliver? || step.index == |index| - 1 {
      GreenSuffix(index, log, more, tip);
    }
  }

  lemma GreenSuffix(index: seq<ResolvedTask>, log: seq<DoneRow>, more: seq<DoneRow>, sha: string)
    requires AllGreenAt(index, more, sha)
    ensures AllGreenAt(index, log + more, sha)
  {
    forall t, command | t in index && command in t.doneCommands ensures GreenAt(log + more, sha, command) {
      assert GreenAt(more, sha, command);
      var i :| 0 <= i < |more| && more[i].CommandRow? && more[i].sha == sha
               && more[i].result.command == command && Green(more[i].result);
      assert (log + more)[|log| + i] == more[i];
    }
  }

  /** Three unaccepted turns a step: the turns so far, given what is pending. */
  ghost predicate WithinBudget(n: nat, pending: nat, attempts: nat, turns: seq<Turn>) {
    && pending <= n
    && attempts <= MAX_STEP_ATTEMPTS
    && if pending > 0 then |turns| == TaskTurns(turns) <= MAX_STEP_ATTEMPTS * (n - pending) + attempts
       else TaskTurns(turns) <= MAX_STEP_ATTEMPTS * n && |turns| == TaskTurns(turns) + attempts
  }

  lemma NothingSpentYet(n: nat, pending: nat, attempts: nat)
    requires pending <= n && attempts <= MAX_STEP_ATTEMPTS && (pending == 0 ==> attempts == 0)
    ensures WithinBudget(n, pending, attempts, [])
  {
  }

  lemma TurnSpendsBudget(n: nat, pending: nat, attempts: nat, turns: seq<Turn>, turn: Turn)
    requires WithinBudget(n, pending, attempts, turns) && attempts < MAX_STEP_ATTEMPTS
    requires turn.step.TaskStep? <==> pending > 0
    ensures WithinBudget(n, pending, attempts + 1, turns + [turn])
    ensures forall fewer: nat :: fewer < pending ==> WithinBudget(n, fewer, 0, turns + [turn])
    ensures TaskTurns(turns + [turn]) <= MAX_STEP_ATTEMPTS * n
    ensures |turns + [turn]| <= TaskTurns(turns + [turn]) + MAX_STEP_ATTEMPTS
  {
    TaskTurnsAppend(turns, turn);
  }
}
