/** A card's tasks and the deduplicated list of Done commands of a run
    (runner/core/types.ts, runner/core/plan-index.ts). */
module Tasks {
  import opened Collections

  datatype TaskRef = TaskRef(id: string, heading: string, passedSha: Option<string>)
  datatype ResolvedTask = ResolvedTask(id: string, heading: string, doneCommands: seq<string>)
  datatype PlannedCommand = PlannedCommand(command: string, tasks: seq<string>)
}

module DoneCommands {
  import opened Collections
  import opened Tasks

  /** The reference list: each value once, where it first occurs. */
  function FirstOccurrences(s: seq<string>): (r: seq<string>)
    ensures NoDuplicates(r)
    ensures forall x :: x in r <==> x in s
  {
    if s == [] then []
    else
      var init := FirstOccurrences(s[..|s| - 1]);
      var last := s[|s| - 1];
      assert s == s[..|s| - 1] + [last];
      if last in init then init else init + [last]
  }

  lemma FirstOccurrencesAppend(s: seq<string>, x: string)
    ensures FirstOccurrences(s + [x]) ==
            if x in s then FirstOccurrences(s) else FirstOccurrences(s) + [x]
  {
    assert (s + [x])[..|s|] == s;
  }

  /** Values come in the order in which they first occur. */
  lemma {:induction false} InOrderOfFirstOccurrence(s: seq<string>, i: nat, j: nat)
    requires i < j < |FirstOccurrences(s)|
    ensures exists a :: 0 <= a < |s| && s[a] == FirstOccurrences(s)[i] && forall b :: 0 <= b <= a ==> s[b] != FirstOccurrences(s)[j]
    decreases |s|
  {
    var n := |s| - 1;
    var init := FirstOccurrences(s[..n]);
    assert s == s[..n] + [s[n]];
    if j < |init| {
      InOrderOfFirstOccurrence(s[..n], i, j);
      var a :| 0 <= a < n && s[..n][a] == init[i] && forall b :: 0 <= b <= a ==> s[..n][b] != init[j];
      assert s[a] == init[i] && forall b :: 0 <= b <= a ==> s[b] == s[..n][b];
    } else {
      assert init[i] in init && s[n] !in init;
      var a :| 0 <= a < n && s[..n][a] == init[i];
      assert forall b :: 0 <= b <= a ==> s[b] == s[..n][b] && s[..n][b] in s[..n];
    }
  }

  function AllCommands(tasks: seq<ResolvedTask>): seq<string> {
    if tasks == [] then [] else AllCommands(tasks[..|tasks| - 1]) + tasks[|tasks| - 1].doneCommands
  }

  function IdsListing(tasks: seq<ResolvedTask>, command: string): seq<string> {
    if tasks == [] then []
    else
      var last := tasks[|tasks| - 1];
      IdsListing(tasks[..|tasks| - 1], command) + if command in last.doneCommands then [last.id] else []
  }

  function CommandsOf(planned: seq<PlannedCommand>): (r: seq<string>)
    ensures |r| == |planned| && forall i :: 0 <= i < |r| ==> r[i] == planned[i].command
  {
    seq(|planned|, i requires 0 <= i < |planned| => planned[i].command)
  }

  /** Every distinct Done command once, in first-occurrence order, with exactly the ids of the tasks
      that list it. */
  ghost predicate IsPlanFor(planned: seq<PlannedCommand>, tasks: seq<ResolvedTask>) {
    && CommandsOf(planned) == FirstOccurrences(AllCommands(tasks))
    && forall i :: 0 <= i < |planned| ==>
         planned[i].tasks == FirstOccurrences(IdsListing(tasks, planned[i].command))
  }

  lemma AppendTask(tasks: seq<ResolvedTask>, t: ResolvedTask, command: string)
    ensures AllCommands(tasks + [t]) == AllCommands(tasks) + t.doneCommands
    ensures IdsListing(tasks + [t], command) ==
            IdsListing(tasks, command) + if command in t.doneCommands then [t.id] else []
  {
    assert (tasks + [t])[..|tasks|] == tasks;
  }

  lemma {:induction false} ListedExactlyByItsTasks(tasks: seq<ResolvedTask>, command: string, id: string)
    ensures id in IdsListing(tasks, command) <==>
            exists i :: 0 <= i < |tasks| && tasks[i].id == id && command in tasks[i].doneCommands
  {
    if tasks != [] {
      var init := tasks[..|tasks| - 1];
      ListedExactlyByItsTasks(init, command, id);
      assert forall k :: 0 <= k < |init| ==> init[k] == tasks[k];
      if i :| 0 <= i < |init| && init[i].id == id && command in init[i].doneCommands {
        assert tasks[i] == init[i];
      }
    }
  }

  lemma {:induction false} CommandsComeFromTasks(tasks: seq<ResolvedTask>, command: string)
    ensures command in AllCommands(tasks) <==> exists i :: 0 <= i < |tasks| && command in tasks[i].doneCommands
  {
    if tasks != [] {
      var init := tasks[..|tasks| - 1];
      CommandsComeFromTasks(init, command);
      assert forall k :: 0 <= k < |init| ==> init[k] == tasks[k];
      if i :| 0 <= i < |init| && command in init[i].doneCommands {
        assert tasks[i] == init[i];
      }
    }
  }

  /** What the driver needs of a plan: its commands are exactly the Done commands of the tasks. */
  lemma PlanCoversExactlyTheTasks(planned: seq<PlannedCommand>, tasks: seq<ResolvedTask>, command: string)
    requires IsPlanFor(planned, tasks)
    ensures (exists i :: 0 <= i < |planned| && planned[i].command == command) <==>
            (exists i :: 0 <= i < |tasks| && command in tasks[i].doneCommands)
  {
    CommandsComeFromTasks(tasks, command);
    var commands := CommandsOf(planned);
    assert command in commands <==> command in AllCommands(tasks);
    if i :| 0 <= i < |planned| && planned[i].command == command {
      assert commands[i] in commands;
    }
    if command in commands {
      var i :| 0 <= i < |commands| && commands[i] == command;
      assert planned[i].command == command;
    }
  }

  /** The tasks read so far: some whole ones, then the first `k` commands of one more. */
  function ReadSoFar(tasks: seq<ResolvedTask>, t: nat, k: nat): seq<ResolvedTask>
    requires t < |tasks| && k <= |tasks[t].doneCommands|
  {
    tasks[..t] + [tasks[t].(doneCommands := tasks[t].doneCommands[..k])]
  }

  lemma NextCommand(tasks: seq<ResolvedTask>, t: nat, k: nat, other: string)
    requires t < |tasks| && k < |tasks[t].doneCommands|
    ensures var command := tasks[t].doneCommands[k];
      && AllCommands(ReadSoFar(tasks, t, k + 1)) == AllCommands(ReadSoFar(tasks, t, k)) + [command]
      && FirstOccurrences(IdsListing(ReadSoFar(tasks, t, k + 1), other)) ==
         if other == command && tasks[t].id !in IdsListing(ReadSoFar(tasks, t, k), other)
         then FirstOccurrences(IdsListing(ReadSoFar(tasks, t, k), other)) + [tasks[t].id]
         else FirstOccurrences(IdsListing(ReadSoFar(tasks, t, k), other))
  {
    var command := tasks[t].doneCommands[k];
    var before := tasks[t].(doneCommands := tasks[t].doneCommands[..k]);
    assert tasks[t].doneCommands[..k + 1] == before.doneCommands + [command];
    OneMoreCommand(tasks[..t], before, command, other);
    hide AllCommands, IdsListing, FirstOccurrences;
  }

  lemma OneMoreCommand(done: seq<ResolvedTask>, task: ResolvedTask, command: string, other: string)
    ensures var more := task.(doneCommands := task.doneCommands + [command]);
      && AllCommands(done + [more]) == AllCommands(done + [task]) + [command]
      && FirstOccurrences(IdsListing(done + [more], other)) ==
         if other == command && task.id !in IdsListing(done + [task], other)
         then FirstOccurrences(IdsListing(done + [task], other)) + [task.id]
         else FirstOccurrences(IdsListing(done + [task], other))
  {
    var more := task.(doneCommands := task.doneCommands + [command]);
    AppendTask(done, task, other);
    AppendTask(done, more, other);
    var head := IdsListing(done, other);
    FirstOccurrencesAppend(head, task.id);
    hide FirstOccurrences, AllCommands, IdsListing;
    AppendIsAssociative(AllCommands(done), task.doneCommands, [command]);
    assert head + [] == head;
    assert other in more.doneCommands <==> other in task.doneCommands || other == command;
  }

  lemma WholeTask(tasks: seq<ResolvedTask>, t: nat, other: string)
    requires t < |tasks|
    ensures ReadSoFar(tasks, t, |tasks[t].doneCommands|) == tasks[..t + 1]
    ensures AllCommands(ReadSoFar(tasks, t, 0)) == AllCommands(tasks[..t])
    ensures IdsListing(ReadSoFar(tasks, t, 0), other) == IdsListing(tasks[..t], other)
  {
    assert tasks[t].doneCommands[..|tasks[t].doneCommands|] == tasks[t].doneCommands;
    var none := tasks[t].(doneCommands := tasks[t].doneCommands[..0]);
    AppendTask(tasks[..t], none, other);
  }

  lemma NothingPlanned(tasks: seq<ResolvedTask>)
    requires tasks == []
    ensures IsPlanFor([], tasks)
  {
  }

  /** Before the first command of a task nothing has been added. */
  lemma StartTask(planned: seq<PlannedCommand>, tasks: seq<ResolvedTask>, t: nat)
    requires t < |tasks| && IsPlanFor(planned, tasks[..t])
    ensures IsPlanFor(planned, ReadSoFar(tasks, t, 0))
  {
    hide ReadSoFar, FirstOccurrences, IdsListing, AllCommands;
    WholeTask(tasks, t, "");
    forall other ensures IdsListing(ReadSoFar(tasks, t, 0), other) == IdsListing(tasks[..t], other) {
      WholeTask(tasks, t, other);
    }
  }

  /** The Done commands of the tasks up to `throughIndex`. `byCommand` holds the position of the entry
      that the source shares between its map and its list. */
  method DoneCommandsThrough(tasks: seq<ResolvedTask>, throughIndex: int) returns (planned: seq<PlannedCommand>)
    requires -1 <= throughIndex
    ensures IsPlanFor(planned, if throughIndex < |tasks| then tasks[..throughIndex + 1] else tasks)
  {
    planned := [];
    var byCommand: map<string, nat> := map[];
    hide IsPlanFor, ReadSoFar;
    NothingPlanned(tasks[..0]);
    var end := if throughIndex < |tasks| then throughIndex + 1 else |tasks|;
    for t := 0 to end
      invariant IsPlanFor(planned, tasks[..t])
      invariant Indexes(byCommand, planned)
    {
      var task := tasks[t];
      StartTask(planned, tasks, t);
      for k := 0 to |task.doneCommands|
        invariant IsPlanFor(planned, ReadSoFar(tasks, t, k))
        invariant Indexes(byCommand, planned)
      {
        planned, byCommand := PlanCommand(planned, byCommand, tasks, t, k);
      }
      WholeTask(tasks, t, "");
    }
    assert tasks[..|tasks|] == tasks;
  }

  /** One command of one task: listed by one more task, or planned for the first time. */
  method PlanCommand(given: seq<PlannedCommand>, index: map<string, nat>, tasks: seq<ResolvedTask>, t: nat, k: nat)
    returns (planned: seq<PlannedCommand>, byCommand: map<string, nat>)
    requires t < |tasks| && k < |tasks[t].doneCommands|
    requires IsPlanFor(given, ReadSoFar(tasks, t, k)) && Indexes(index, given)
    ensures IsPlanFor(planned, ReadSoFar(tasks, t, k + 1)) && Indexes(byCommand, planned)
  {
    hide IsPlanFor, ReadSoFar;
    planned, byCommand := given, index;
    var command := tasks[t].doneCommands[k];
    if command in byCommand {
      var at := byCommand[command];
      AddLister(planned, tasks, t, k, at);
      if tasks[t].id !in planned[at].tasks {
        planned := planned[at := planned[at].(tasks := planned[at].tasks + [tasks[t].id])];
      }
    } else {
      NotPlannedYet(planned, byCommand, ReadSoFar(tasks, t, k), command);
      AddCommand(planned, tasks, t, k);
      byCommand := byCommand[command := |planned|];
      planned := planned + [PlannedCommand(command, [tasks[t].id])];
    }
  }

  ghost predicate Indexes(byCommand: map<string, nat>, planned: seq<PlannedCommand>) {
    && (forall c :: c in byCommand ==> byCommand[c] < |planned| && planned[byCommand[c]].command == c)
    && (forall i :: 0 <= i < |planned| ==> planned[i].command in byCommand && byCommand[planned[i].command] == i)
  }

  lemma AddLister(planned: seq<PlannedCommand>, tasks: seq<ResolvedTask>, t: nat, k: nat, at: nat)
    requires t < |tasks| && k < |tasks[t].doneCommands| && at < |planned|
    requires IsPlanFor(planned, ReadSoFar(tasks, t, k)) && planned[at].command == tasks[t].doneCommands[k]
    ensures var ids := planned[at].tasks;
      IsPlanFor(if tasks[t].id in ids then planned else planned[at := planned[at].(tasks := ids + [tasks[t].id])],
                ReadSoFar(tasks, t, k + 1))
  {
    hide IdsListing, AllCommands, FirstOccurrences, ReadSoFar;
    var id, ids := tasks[t].id, planned[at].tasks;
    var next := if id in ids then planned else planned[at := planned[at].(tasks := ids + [id])];
    var before, after := ReadSoFar(tasks, t, k), ReadSoFar(tasks, t, k + 1);
    var commands := CommandsOf(planned);
    assert CommandsOf(next) == commands;
    assert commands[at] in commands;
    NextCommand(tasks, t, k, "");
    FirstOccurrencesAppend(AllCommands(before), tasks[t].doneCommands[k]);
    forall i | 0 <= i < |next|
      ensures next[i].tasks == FirstOccurrences(IdsListing(after, next[i].command))
    {
      NextCommand(tasks, t, k, planned[i].command);
      assert commands[i] == commands[at] ==> i == at;
    }
  }

  lemma AddCommand(planned: seq<PlannedCommand>, tasks: seq<ResolvedTask>, t: nat, k: nat)
    requires t < |tasks| && k < |tasks[t].doneCommands|
    requires IsPlanFor(planned, ReadSoFar(tasks, t, k))
    requires tasks[t].doneCommands[k] !in AllCommands(ReadSoFar(tasks, t, k))
    requires forall i :: 0 <= i < |planned| ==> planned[i].command != tasks[t].doneCommands[k]
    ensures IsPlanFor(planned + [PlannedCommand(tasks[t].doneCommands[k], [tasks[t].id])], ReadSoFar(tasks, t, k + 1))
  {
    hide IdsListing, AllCommands, FirstOccurrences, ReadSoFar;
    var command, id := tasks[t].doneCommands[k], tasks[t].id;
    var next := planned + [PlannedCommand(command, [id])];
    var before, after := ReadSoFar(tasks, t, k), ReadSoFar(tasks, t, k + 1);
    assert CommandsOf(next) == CommandsOf(planned) + [command];
    hide CommandsOf;
    NextCommand(tasks, t, k, command);
    FirstOccurrencesAppend(AllCommands(before), command);
    NewCommandIsListedOnce(tasks, t, k);
    forall i | 0 <= i < |planned|
      ensures next[i].tasks == FirstOccurrences(IdsListing(after, next[i].command))
    {
      NextCommand(tasks, t, k, planned[i].command);
    }
  }

  lemma NotPlannedYet(planned: seq<PlannedCommand>, byCommand: map<string, nat>, tasks: seq<ResolvedTask>, command: string)
    requires IsPlanFor(planned, tasks) && Indexes(byCommand, planned) && command !in byCommand
    ensures command !in AllCommands(tasks) && forall i :: 0 <= i < |planned| ==> planned[i].command != command
  {
    hide AllCommands, FirstOccurrences, IdsListing;
    var commands := CommandsOf(planned);
    assert command !in commands;
  }

  lemma NewCommandIsListedOnce(tasks: seq<ResolvedTask>, t: nat, k: nat)
    requires t < |tasks| && k < |tasks[t].doneCommands|
    requires tasks[t].doneCommands[k] !in AllCommands(ReadSoFar(tasks, t, k))
    ensures FirstOccurrences(IdsListing(ReadSoFar(tasks, t, k + 1), tasks[t].doneCommands[k])) == [tasks[t].id]
  {
    var command, before := tasks[t].doneCommands[k], ReadSoFar(tasks, t, k);
    hide IdsListing, AllCommands, ReadSoFar;
    NextCommand(tasks, t, k, command);
    CommandsComeFromTasks(before, command);
    UnlistedCommand(before, command);
    assert FirstOccurrences([]) == [];
  }

  lemma {:induction false} UnlistedCommand(tasks: seq<ResolvedTask>, command: string)
    requires forall i :: 0 <= i < |tasks| ==> command !in tasks[i].doneCommands
    ensures IdsListing(tasks, command) == []
  {
    if tasks != [] {
      UnlistedCommand(tasks[..|tasks| - 1], command);
    }
  }
}
