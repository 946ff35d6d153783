# Tribe runner, viewer and gap ledger: a verified model

This project models the deciding parts of the `tribe` plugin's scripts and proves what they promise.
`dafny verify dfyconfig.toml` checks all of it. Time, files, git, sessions, greps, decoders and hashes are
parameters: every statement holds for whatever they answer.

**Campaign scheduling** (`CycleCheck`, `Scheduler`, `CardPool`). Cards name the cards they depend on. Loading refuses
cyclic graphs; `blocked` is derived by a fixpoint over the dependency graph and written back into the card
objects; the next card is the first of the sequence that can progress; a pass hands cards to concurrent
lanes. Proved: the cycle check is sound and complete, `blocked` is reachability of an escalation, a campaign
never deadlocks except on a human ruling, and every run of a pass, from any state that loads, ships in
dependency order.

**Done protocol** (`PlanText`, `PlanIndex`, `PlanTasks`, `PlanSections`, `DoneBlock`, `PlanWriting`,
`PlanRoundTrip`, `DoneCommands`, `DoneRun`, `CardDriver`, `WrittenWords`, `ShellTokens`, `MergeGate`). A card's plan is read line by line into tasks and Done commands; a driver asks an
agent to finish one task after the other, runs the commands at the commit it is offered, and records passes; a
gate judges every shell command of the agent and lets `gh pr merge` through only when the PR it reads is at the
recorded commit. Proved: the plan reader inverts plan writing, the command list is exact, and a command that merges
one PR is let through, in any run from a coherent card, only when that PR is green and every command of every task
exited 0 at its head.

**Viewer** (`Pairing`, `BoundedPairing`, `PairingByPosition`, `LiveView`, `BackFill`, `Tail`, `TailPoller`, `Elision`,
`Cache`, `LruRefinement`, `Subagents`). A growing transcript is tailed in bounded memory, tool calls are paired with later results through a bounded map, nodes are cut to a byte bound,
sessions are read through an expiring LRU cache, and sub-agents are arranged by the parents they claim. Proved:
the bounded machines agree with their unbounded ideals, the live view and the paged history with the snapshot,
the cache with the direct read and with LRU, and untrusted parents with a forest.

**Ledgers and streams** (`SpawnLedger`, `GapIds`, `GapEvents`, `GapRuling`, `GapRegistry`, `GapSightings`,
`LedgerRuns`, `Fingerprint`, `Lines`, `Transcript`, `Cut`, `ShellQuote`).
Session parents are resolved from a message stream and never guessed; a gap ledger is appended to by two
writers; transcripts are measured at pinned cuts; argument lists are printed for a shell. Proved: the session
tree is well-founded, every gap's life stays in order over all runs and, for overlapping ones, exactly when none
overwrites what another relied on, pinned cuts survive appends, and quoting round-trips.

Objects the scripts update in place are classes (`Card`, `CardEntry`, `PairState`, `Poller`,
`SessionReadCache`, `Registry`, `Search`), loops are methods with invariants, and each method is proved
against a function or predicate that the lemmas are about. JavaScript's insertion-ordered `Map` is an ordered
list of entries (`JsMap`): setting a present key keeps its place. `Object.entries` is any enumeration. Text
whose bytes are counted is a sequence of UTF-16 units, with UTF-8 lengths from section 3 of RFC 3629.

## Where the code falls short of its description

Each of these is proved as an exact condition, with the code modelled as it is.

- The capped pairing map is a suffix of the ideal one until a tool id is reused while its earlier call is
  outstanding but evicted (`BoundedPairing.SuffixSurvivesExactlyFreshCalls`); one call more than the cap and then
  a reuse of the first id get there (`BoundedPairing.StaleReuseIsReachable`). Its patches are ideal ones all the same
  (`BoundedPairing.EveryPatchIsIdeal`).
- A tick whose rows include an oversized one emits that row twice: as the oversized node and again from the
  re-joined bytes, although the comment there says an oversized row is already discarded
  (`TailPoller.RowsEmittedOnceExactlyWithoutOversized`). When the row was dropped over several ticks the second node is
  its last fragment, anchored inside the row (`TailPoller.FragmentIsEmittedInTheMiddleOfARow`).
- The victim is the least recently requested entry exactly when the oldest reading belongs to one entry
  (`LruRefinement.VictimIsLeastRecentExactlyWithoutTies`). A scan reads the clock once for all its sessions, so ties
  are usual, and a tied eviction can give up the key used last (`LruRefinement.EqualReadingsCanEvictTheLastUsed`).
  What holds regardless is that no kept key is older than one given up (`LruRefinement.CacheKeepsTheLatest`).
- A back-fill whose scan stops before the result of a call on its page leaves that call pending, and the comment there
  says a later request settles it. The page is the whole only if the scan reached every such result
  (`BackFill.BackFillIsTheWholeExactlyWhenScanned`), and no later request settles it while it is held, as only calls
  of the page asked for are completed (`BackFill.HeldCallStaysAsItIs`).
- A task heading nested in another task's section shares its Done block
  (`PlanTasks.DoneBlockIsSharedExactlyWhenNested`), so the outer task is credited with the inner one's commands;
  a plan of six lines does it (`PlanRoundTrip.SixLinesAreNested`).
- The gate reads one PR, the first that a command line names. It answers for every merge of the command exactly when
  all of them are of that PR (`MergeGate.EveryMergeIsGuardedExactlyWhenOfOnePr`); of two merges of two PRs in one line
  the second is not looked at (`MergeGate.ChainedMergesAreNotGuarded`).
- A card whose Done commit stands beside an unpassed task is not re-run before its first turn
  (`MergeGate.FirstTurnIsGuardedExactlyWhenCoherent`). The driver's own passes and clearings leave no such card; what
  other commands and hand edits of the state file leave is not part of this claim.
- A pass neither repairs nor widens an order that a reset of a shipped dependency broke before it began
  (`CardPool.OrderIsKeptExactlyWhereItWas`).
- A baseline entry measured on a window without a complete line is refused when the baseline is loaded
  (`Cut.MeasuredEntryLoadsExactlyWithALine`).
- Both writers of the gap ledger read it, wait, and append. Overlapping runs keep it in order exactly when every
  append is harmless (`LedgerRuns.HistoryIsInOrderExactlyWhenHarmless`); two overlapping reconciliations may mint one
  id twice (`LedgerRuns.OverlappingReconcilesMintOneIdTwice`).

## Model

| member | source | states |
|---|---|---|
| `CycleCheck.AssertNoDependsOnCycles` | plugins/tribe/scripts/runner/core/state.ts:206-231 | For every enumeration order of the cards, the load check throws exactly when the `dependsOn` graph has a cycle; the path it throws is a real walk that ends where it began; acceptance yields a rank that every edge goes strictly down |
| `CycleCheck.Search.Visit` | plugins/tribe/scripts/runner/core/state.ts:211-228 | One depth-first visit: it returns a cycle, or leaves the stack as it found it with the card finished; it terminates because unvisited ids run out |
| `CycleCheck.RepeatOnStackIsCycle` | plugins/tribe/scripts/runner/core/state.ts:212-215 | A card met again on the stack closes a genuine cycle from its own position |
| `CycleCheck.TopologicalOrderRanks` | plugins/tribe/scripts/runner/core/state.ts:206-231 | The order in which a search finishes cards ranks the graph |
| `DependencyGraph.RankedGraphsAreAcyclic` | plugins/tribe/scripts/runner/core/state.ts:206-231 | A graph with such a rank has no cycle, so acceptance and refusal exclude each other |
| `Deadlock.TrapHasCycle` | plugins/tribe/scripts/runner/core/state.ts:206-231 | A non-empty set of cards that each depend on another of the set holds a cycle: the reason acyclic campaigns cannot deadlock |
| `Campaign.ComputeBlockedCardIds` | plugins/tribe/scripts/runner/core/state.ts:434-456 | For every enumeration order the fixpoint ends with exactly the non-shipped, non-escalated cards that have a `dependsOn` walk to an escalated card through such cards |
| `Blocking.ClosedSetHoldsEveryWalk` | plugins/tribe/scripts/runner/core/state.ts:434-456 | A set no further card can be added to holds the start of every walk to an escalation (completeness of the fixpoint) |
| `Blocking.ParkedByBlockedIsBlocked` | plugins/tribe/scripts/runner/core/state.ts:443-452 | Adding a card never adds one that does not reach an escalation (soundness of the fixpoint) |
| `Campaign.ReconcileBlockedStatuses` | plugins/tribe/scripts/runner/core/state.ts:479-491 | The in-place write leaves every card object with its reconciled status: computed cards blocked, stale `blocked` back to `staged`, all others untouched |
| `Blocking.ReconcilingKeepsTheBlockedSet` | plugins/tribe/scripts/runner/core/state.ts:460-491 | Writing the statuses does not move the set they were derived from |
| `Blocking.ReconcilingIsIdempotent` | plugins/tribe/scripts/runner/core/state.ts:460-491 | A second computation and reconciliation changes nothing |
| `Blocking.ReconciledBlockedIsDerived` | plugins/tribe/scripts/runner/core/state.ts:460-491 | Afterwards a card is `blocked` exactly when it reaches an escalation, and then waits for a card that has not shipped; a stale `blocked` is `staged` again, and every other status stays |
| `Campaign.ReadinessIgnoresBlocked` | plugins/tribe/scripts/runner/core/state.ts:522-556 | Whether a card can progress does not depend on the stored `blocked`, and no progressable card is blocked |
| `Campaign.SelectNextCard` | plugins/tribe/scripts/runner/core/state.ts:522-556 | The walk returns the first card of the sequence that is unshipped, not awaiting an unanswered escalation and has every dependency shipped, judged on the statuses as given; `done` says there is none; missing documents are named |
| `CardPool.UnshippedFrontier` | plugins/tribe/scripts/runner/core/state.ts:522-556 | Among unshipped cards of an acyclic graph some card has all its dependencies shipped |
| `CardPool.DoneOnlyWhenShippedOrAwaitingRuling` | plugins/tribe/scripts/runner/core/state.ts:522-556 | Deadlock freedom: with every card in the sequence, `done` while work remains means exactly that some card waits only for an unanswered escalation, and never happens with `includeEscalated` |
| `CardPool.StepKeepsSound` | plugins/tribe/scripts/runner/core/loop/run-loop.ts:422-497 | Every event of the concurrent pass (fill, planning claim, card settling) keeps: cards shipped since the load have shipped dependencies, nothing is handed out twice, budget and width hold |
| `CardPool.SelectedIsNextUp` | plugins/tribe/scripts/runner/core/loop/run-loop.ts:136-150 | A fill takes the earliest card of the sequence that has not been attempted and can progress, and nothing else |
| `CardPool.FillsExactlyWhenThereIsRoom` | plugins/tribe/scripts/runner/core/loop/run-loop.ts:475-489 | The pool never holds back: a card is launched exactly while fewer than the width are in flight, the budget leaves room, and a card not yet attempted can progress |
| `CardPool.EveryReachablePoolIsSound` | plugins/tribe/scripts/runner/core/loop/run-loop.ts:422-497 | So does every run of such events from any state that loads, one with a shipped card over an unshipped dependency included |
| `CardPool.PassIsSafe` | plugins/tribe/scripts/runner/core/loop/run-loop.ts:280-347 | Over any run from any loaded state: a card shipped in the pass has all its dependencies shipped, nothing shipped is taken back, no card is handed out twice, the card budget is never overshot, at most `width` cards are in flight |
| `CardPool.OrderIsKeptExactlyWhereItWas` | plugins/tribe/scripts/runner/core/loop/run-loop.ts:422-497 | A pass ends with every shipped card over shipped dependencies exactly when the cards it found shipped are; so an ordered campaign stays ordered, and what a reset left behind is all that can be out of order |
| `CardPool.FillLeavesInFlightCardsAlone` | plugins/tribe/scripts/runner/core/loop/run-loop.ts:136-150 | A fill reconciles the whole state, yet never changes the status of a card another lane is working on |
| `CardPool.ShippedStaysShipped` | plugins/tribe/scripts/runner/core/loop/run-loop.ts:422-497 | No event of a pass takes a shipped card back |
| `CardPool.InFlightCardsAreIndependent` | plugins/tribe/scripts/runner/core/loop/run-loop.ts:422-497 | From any loaded state, two cards in flight depend on each other only when the dependency already shipped |
| `CardPool.FinishedPassShippedEverything` | plugins/tribe/scripts/runner/core/loop/run-loop.ts:280-347 | A pass that ends because a fill finds nothing has shipped the whole campaign exactly when every card it attempted shipped and no ruling is outstanding |
| `PlanText.HeadingExactlyWhenItMatches` | plugins/tribe/scripts/runner/core/plan-index.ts:53 | A line is a heading exactly when it can be split, in any way, into one to six hashes, space, text on one line and a close of space or of space and hashes |
| `PlanText.HeadingIsTheGreedyMatch` | plugins/tribe/scripts/runner/core/plan-index.ts:53 | The heading read has the hashes as level and, trimmed, the shortest text behind all the space |
| `PlanText.ShortestText` | plugins/tribe/scripts/runner/core/plan-index.ts:53 | The lazy match: an end the rest may follow with none before it, or none at all |
| `PlanText.OpeningFenceIsARun` | plugins/tribe/scripts/runner/core/plan-index.ts:54 | A line opens a fence with this mark and length exactly when, behind at most three spaces, it has a run of just that many of one of the two marks, at least three |
| `PlanText.ClosingFenceIsARun` | plugins/tribe/scripts/runner/core/plan-index.ts:76 | A line closes a fence exactly when, behind at most three spaces, it has a run of the same mark at least as long, and then only space |
| `PlanWriting.DoneInAnyCasing` | plugins/tribe/scripts/runner/core/plan-index.ts:106 | A heading is the Done heading exactly when it is the word done in some casing |
| `PlanIndex.ScanPlan` | plugins/tribe/scripts/runner/core/plan-index.ts:68-94 | The line loop computes the scan that the lemmas below are about |
| `PlanIndex.ScanIsWellFormed` | plugins/tribe/scripts/runner/core/plan-index.ts:65-94 | For every plan: a fence runs from an opening line to the first line that closes it, fences are disjoint, recorded headings are heading lines in order and stand in no fence, and no heading line outside a fence is missed |
| `PlanTasks.ResolveOne` | plugins/tribe/scripts/runner/core/plan-index.ts:98-132 | The filters, searches and early returns give the resolution that the lemmas below are about, including which of the eight problems is reported |
| `PlanSections.EachOutcomeHasItsReason` | plugins/tribe/scripts/runner/core/plan-index.ts:98-121 | In terms of headings and fences alone, each outcome has its own reason, with nothing left out: no such heading, several, no Done heading in the section, several, no fence before the next heading, one that never closes, or the one first fence below the one Done heading |
| `PlanTasks.ReadBlock` | plugins/tribe/scripts/runner/core/plan-index.ts:122-131 | The loop computes the reading of a block that the next two rows are about |
| `DoneBlock.BlockListsItsCommands` | plugins/tribe/scripts/runner/core/plan-index.ts:122-131 | A block written as any interleaving of commands, comments and blank lines, with any space around each, lists exactly its commands in order; one of comments and blank lines alone is refused as empty, and one with a line to be continued for that |
| `DoneBlock.EveryBlockIsWritten` | plugins/tribe/scripts/runner/core/plan-index.ts:122-131 | Every block is such an interleaving, so this says what becomes of all of them |
| `PlanTasks.LocatedBlockIsInside` | plugins/tribe/scripts/runner/core/plan-index.ts:98-121 | A located Done block belongs to its task: unique heading, a deeper Done heading inside the section, the first fence after it, closed before any further heading and before the section ends |
| `PlanTasks.DoneBlockIsSharedExactlyWhenNested` | plugins/tribe/scripts/runner/core/plan-index.ts:103-110 | Two tasks take their commands from one Done block exactly when the later heading stands inside the earlier one's section |
| `PlanRoundTrip.NestedTasksShareTheirBlock` | plugins/tribe/scripts/runner/core/plan-index.ts:98-132 | That happens: under any higher heading, a written section is located twice, for itself and for the heading above |
| `PlanRoundTrip.SixLinesAreNested` | plugins/tribe/scripts/runner/core/plan-index.ts:98-132 | The six lines `# A`, `## B`, `### Done`, fence, command, fence are such a plan |
| `PlanTasks.ResolveTaskIndex` | plugins/tribe/scripts/runner/core/plan-index.ts:136-150 | Every reference is resolved against one scan, tasks and issues collected in order |
| `PlanTasks.EveryReferenceIsJudged` | plugins/tribe/scripts/runner/core/plan-index.ts:134-150 | Each reference becomes a task or an issue; there is no issue exactly when all resolve, each to its own id, heading and at least one command |
| `PlanTasks.EveryRefusalIsReported` | plugins/tribe/scripts/runner/core/plan-index.ts:134-150 | Every refusal is among the issues, not only the first |
| `PlanWriting.ScanSection` | plugins/tribe/scripts/runner/core/plan-index.ts:68-94 | Scanning a written section adds exactly its two headings and its one closed fence |
| `PlanRoundTrip.WrittenTaskResolves` | plugins/tribe/scripts/runner/core/plan-index.ts:98-132 | A reference to a written heading resolves to exactly the commands its section lists |
| `PlanRoundTrip.RenderedPlanReadsBack` | plugins/tribe/scripts/runner/core/plan-index.ts:68-150 | Writing any task list as a plan and reading it back gives the same tasks and commands and no issue: behind any preface of titles, headings and closed fences, with prose around, Done in any casing and at any deeper level, either fence mark with its indents, info string and longer closing run, and commands among comments and blank lines |
| `DoneCommands.DoneCommandsThrough` | plugins/tribe/scripts/runner/core/plan-index.ts:154-170 | The plan through a task lists each distinct command once, in first-occurrence order, with exactly the ids of the tasks that list it |
| `DoneCommands.InOrderOfFirstOccurrence` | plugins/tribe/scripts/runner/core/plan-index.ts:154-170 | Of two planned commands the earlier one is listed by some task before the later one is listed by any |
| `DoneCommands.PlanCoversExactlyTheTasks` | plugins/tribe/scripts/runner/core/plan-index.ts:154-170 | A command is planned exactly when some task lists it |
| `DoneCommands.ListedExactlyByItsTasks` | plugins/tribe/scripts/runner/core/plan-index.ts:160-165 | A task id stands on a planned command exactly when that task lists the command |
| `DoneRun.NextStep` | plugins/tribe/scripts/runner/core/done.ts:15-21 | Delivery is due exactly when every task has passed and a Done commit is recorded; otherwise the step is the first unpassed task, or the last task when all have passed without a commit |
| `DoneRun.JudgeDoneRun` | plugins/tribe/scripts/runner/core/done.ts:40-51 | A run passes exactly when every planned command ran and exited 0 in time; otherwise the first failure is named with its planned command, and everything behind it is reported as not run |
| `DoneRun.PassAdvances` | plugins/tribe/scripts/runner/core/done.ts:6-21 | A pass at the asked step strictly lowers what is pending, keeps passed tasks a prefix, and leaves a coherent card |
| `DoneRun.PassThroughLastDelivers` | plugins/tribe/scripts/runner/core/done.ts:76-79 | A pass through the last task makes delivery the next step |
| `DoneRun.ClearingReopensTheLastTask` | plugins/tribe/scripts/runner/core/loop/card-actions.ts:731-737 | Clearing the final pass leaves exactly one task pending |
| `CardDriver.CardEntry.RunDone` | plugins/tribe/scripts/runner/core/loop/card-actions.ts:648-710 | A Done run stops at the first failure and passes exactly when every planned command exited 0; passed or failed, it leaves one row for each command it ran, with how it exited, and a summary naming the failure and what was not run; worktree failures are infrastructure, not verdicts |
| `CardDriver.CardEntry.RecordPass` | plugins/tribe/scripts/runner/core/loop/card-actions.ts:720-729 | The recorded pass is `applyPass` on the stored card, and keeps a branch once named |
| `CardDriver.CardEntry.AcceptTaskDone` | plugins/tribe/scripts/runner/core/loop/turns.ts:52-167 | A `TASK_DONE` answer is tried exactly when it names the task asked for and its branch is accepted; it passes exactly when the tree was set up and taken down and every command planned through that task exited 0, and is then recorded at the accepted tip; a pass through the last task leaves every Done command of every task green there |
| `CardDriver.CardEntry.TakeTurn` | plugins/tribe/scripts/runner/core/loop/turns.ts:52-167 | Each answer has its own consequence: it ends the call with its own outcome, is accepted as a pass, or spends an attempt with the card unchanged; which of these is determined by the answer, the step and the run |
| `CardDriver.CardEntry.RecheckBeforeDelivery` | plugins/tribe/scripts/runner/core/loop/turns.ts:52-167 | A card already due for delivery has its commands run again at the recorded commit; it stays due exactly when all of them exit 0, and a failure reopens the last task |
| `CardDriver.CardEntry.DriveCardTurns` | plugins/tribe/scripts/runner/core/loop/turns.ts:52-167 | Every run of the driver keeps the Done guarantee turn by turn; every turn but the last went on and the answer to the last decides the outcome; at most three turns a task and three for delivery; only a delivery turn at a recorded Done commit ends in a claimed ship; and the budget is used up only by one step asked three times, a failed check at entry being one |
| `CardDriver.TurnTaken` | plugins/tribe/scripts/runner/core/loop/turns.ts:52-167 | The step behind that: after any turn the call is over as said, or what is pending fell, or it stayed and one more attempt is spent |
| `CardDriver.RecordedPassIsKept` | plugins/tribe/scripts/runner/core/loop/turns.ts:52-167 | Recording a pass keeps: a stored Done commit means every Done command of every task exited 0 there in this call |
| `CardDriver.TurnSpendsBudget` | plugins/tribe/scripts/runner/core/loop/turns.ts:52-167 | Three unaccepted turns a step bound the task turns by three times the number of tasks |
| `ShellTokens.TokenizeShellCommand` | plugins/tribe/scripts/runner/core/merge-gate.ts:73-133 | The character loop computes the lexing that the round trip is about |
| `ShellTokens.TokenizerInvertsWriting` | plugins/tribe/scripts/runner/core/merge-gate.ts:73-133 | However a command line is written, each word bare, quoted or of bare and quoted pieces, with any white space before, between and after the words and any mix of the five separators, it tokenizes to the words meant; only a subcommand without words leaves none |
| `ShellTokens.UnclosedQuoteRunsToTheEnd` | plugins/tribe/scripts/runner/core/merge-gate.ts:73-133 | A quote that is never closed takes in everything to the end as one word, separators included |
| `MergeCommand.MatchForbiddenFlag` | plugins/tribe/scripts/runner/core/merge-gate.ts:55-64 | A token is reported exactly when it is forbidden, and under its own flag |
| `MergeCommand.ForbiddenTokens` | plugins/tribe/scripts/runner/core/merge-gate.ts:55-64 | Forbidden are exactly `--auto` and `--admin`, bare or with any value but `false` |
| `MergeCommand.ExtractMergeInvocation` | plugins/tribe/scripts/runner/core/merge-gate.ts:141-161 | A subcommand is a merge exactly when it holds the consecutive tokens gh, pr, merge; a forbidden flag behind any such triple is always reported; the PR is the first non-flag behind the first triple |
| `MergeCommand.NamedPrIs` | plugins/tribe/scripts/runner/core/merge-gate.ts:141-161 | Whatever stands around, the PR named is the first token behind the first `gh pr merge` that is no flag |
| `MergeCommand.FirstNamedPrIs` | plugins/tribe/scripts/runner/core/merge-gate.ts:173-190 | Of several subcommands the first that names a PR decides |
| `MergeCommand.ParseMergeCommand` | plugins/tribe/scripts/runner/core/merge-gate.ts:173-190 | The command is a merge exactly when some subcommand is, and a forbidden flag in any of them is reported |
| `MergeCommand.WrittenMergeIsSeen` | plugins/tribe/scripts/runner/core/merge-gate.ts:55-190 | What the gate sees of a written command line is decided by the words meant: no quoting, spacing or separator fakes a merge or a forbidden flag, and none hides one |
| `MergeGate.NotGreenChecks` | plugins/tribe/scripts/runner/core/merge-gate.ts:194-215 | Exactly the checks that did not conclude SUCCESS are reported, and none exactly when all did |
| `MergeGate.DecideMergeGateHook` | plugins/tribe/scripts/runner/core/session.ts:135-167 | One tool call: only a merging shell command is ever denied; one is let through exactly when it is unforced and the PR it names first has read, non-empty, all green checks and the readable Done commit as its head; otherwise the first reason that applies is given |
| `MergeGate.EveryMergeIsGuardedExactlyWhenOfOnePr` | plugins/tribe/scripts/runner/core/session.ts:152-161 | Letting a command through means that every PR it merges is green and at the Done commit, whatever the PRs are like, exactly when all its merging subcommands name the PR that is read, or nothing is let through at all |
| `MergeGate.ChainedMergesAreNotGuarded` | plugins/tribe/scripts/runner/core/merge-gate.ts:173-190 | Two merges of two PRs in one line, however written and with any separator, are read as just these, unforced, and the gate does not answer for both |
| `MergeGate.TypedChainIsNotGuarded` | plugins/tribe/scripts/runner/core/merge-gate.ts:173-190 | So it is with the line `gh pr merge 1 && gh pr merge 2` |
| `MergeGate.AllowedMergeIsVerified` | plugins/tribe/scripts/runner/core/merge-gate.ts:269-292 | End to end: in any turn of a call that started from a coherent card, every merge let through that is of the PR the gate read, and so every merge of a command that merges one PR, has that PR green and its head at a commit where this call ran every Done command of every task to exit 0 |
| `MergeGate.FirstTurnIsGuardedExactlyWhenCoherent` | plugins/tribe/scripts/runner/core/session.ts:135-173 | At the first turn the PR the gate reads is verified, for every command and every state of the PRs, exactly when the card is coherent: a Done commit kept beside an unpassed task lets the gate allow a commit this call has not run |
| `Elision.TruncateUtf8` | plugins/tribe/scripts/viewer/core/normalize.ts:567-582 | The binary search finds the longest prefix within the byte bound and steps back from a high surrogate |
| `Elision.TruncationIsBoundedAndWhole` | plugins/tribe/scripts/viewer/core/normalize.ts:565-582 | For any text the prefix is within the bound and never splits a surrogate pair |
| `Elision.TruncationIsLongest` | plugins/tribe/scripts/viewer/core/normalize.ts:565-582 | For well-formed text it is the longest well-formed prefix within the bound |
| `Elision.ElideToFit` | plugins/tribe/scripts/viewer/core/normalize.ts:599-613 | The halving loop terminates with the value that the next rows are about |
| `Elision.ElisionKeepsTheMost` | plugins/tribe/scripts/viewer/core/normalize.ts:599-613 | The whole text when it and its value are within the cap; otherwise the prefix for the first halving of the cap whose value fits, every larger halving having been over it, or for the last one |
| `Elision.ElisionFits` | plugins/tribe/scripts/viewer/core/normalize.ts:599-613 | The result exceeds the cap only when the value on the at-most-one-byte prefix does; `elided` is false only for the whole text |
| `Pairing.PairState.Pair` | plugins/tribe/scripts/viewer/core/pair.ts:88-136 | The in-place loop gives, in order, the nodes and patches of the per-candidate account, and leaves its pending map |
| `Pairing.PairState.EvictOldest` | plugins/tribe/scripts/viewer/core/pair.ts:150-156 | Eviction keeps the newest 512 entries in order |
| `Pairing.PairAllConcat` | plugins/tribe/scripts/viewer/core/pair.ts:88-136 | Pairing a stream in two calls is pairing it in one |
| `CompletedTool.FitCompletedTool` | plugins/tribe/scripts/viewer/core/pair.ts:201-231 | The shrinking steps give the fitted node that the next rows are about |
| `CompletedTool.FittingTakesTheLeast` | plugins/tribe/scripts/viewer/core/pair.ts:201-231 | A node within the cap comes back as it is; one over it loses its input and nothing else if that is enough; only otherwise is the text of its result cut, to the first halving of the cap that fits |
| `CompletedTool.FittingKeepsIdentity` | plugins/tribe/scripts/viewer/core/pair.ts:201-231 | Shrinking never loses a node's identity, outcome or anchors, marks everything it changes, and stays within the cap whenever the smallest text it can build does |
| `CompletedTool.BuildCompletedTool` | plugins/tribe/scripts/viewer/core/pair.ts:165-188 | The combined node is built, then fitted; the next row says what that means |
| `CompletedTool.CompletionCarriesBothHalves` | plugins/tribe/scripts/viewer/core/pair.ts:165-231 | A completed node keeps the call's identity, name and address, takes the result's outcome and address, is marked elided whenever either half or the shrinking lost something, and unmarked holds both halves whole |
| `CompletedTool.CompletionIsMarkedExactlyWhenCut` | plugins/tribe/scripts/viewer/core/pair.ts:165-231 | A completed node is marked elided exactly when one of its halves was or the two together exceed the cap, and within the cap it is the two halves, whole |
| `CompletedTool.TextIsItsLeaves` | plugins/tribe/scripts/viewer/core/pair.ts:239-261 | The plain text is the leaf texts of the token tree in order, a break read as a newline: none lost, doubled or moved, however bodies are nested |
| `Pairing.WithAgentId` | plugins/tribe/scripts/viewer/core/pair.ts:140-145 | Only a `Task` call whose id a sidecar names is changed, and only in its agent |
| `BoundedPairing.StepSimulates` | plugins/tribe/scripts/viewer/core/pair.ts:88-156 | One candidate: the capped pending map stays a suffix of the unbounded one, and the outcome is the ideal one or an orphan left by an eviction |
| `BoundedPairing.BoundedSimulatesIdeal` | plugins/tribe/scripts/viewer/core/pair.ts:88-156 | Over any stream without stale reuse the capped map is always a suffix of the ideal map |
| `BoundedPairing.EveryOutcomeIsIdealOrAnOrphan` | plugins/tribe/scripts/viewer/core/pair.ts:88-156 | Over every stream and under every cap, stale reuse included, each outcome is the ideal one or an orphan the ideal machine pairs |
| `BoundedPairing.EveryPatchIsIdeal` | plugins/tribe/scripts/viewer/core/pair.ts:88-156 | So the capped machine never sends a patch the ideal one would not |
| `BoundedPairing.FreshCallIdsAreNeverStale` | plugins/tribe/scripts/viewer/core/pair.ts:88-156 | Distinct tool ids rule stale reuse out, so for them the simulation is unconditional |
| `BoundedPairing.NothingEvictedWhileWithinCap` | plugins/tribe/scripts/viewer/core/pair.ts:88-156 | While at most the cap is outstanding the two machines are identical |
| `BoundedPairing.SuffixSurvivesExactlyFreshCalls` | plugins/tribe/scripts/viewer/core/pair.ts:98-115 | The exact condition: a call keeps the suffix relation unless it reuses the id of a call that is outstanding but was evicted (one corner stated) |
| `BoundedPairing.ReuseAfterCapCallsIsStale` | plugins/tribe/scripts/viewer/core/pair.ts:98-156 | From the empty map, any outstanding calls, one more than the cap, followed by a reuse of the first id break it |
| `BoundedPairing.StaleReuseIsReachable` | plugins/tribe/scripts/viewer/core/pair.ts:98-156 | For every cap such a stream exists |
| `LiveView.Poller.BuildWindowNodes` | plugins/tribe/scripts/viewer/adapters/poller.adapter.ts:204-216 | For unique node ids, merging through the index gives the snapshot view and leaves its pending map |
| `LiveView.RunTick` | plugins/tribe/scripts/viewer/adapters/poller.adapter.ts:308-314 | One tick appends the rows, then patches the store in place, a patch reaching rows of the same tick |
| `LiveView.ApplyPatches` | plugins/tribe/scripts/viewer/client/src/rowStore.ts:175-193 | For unique ids the client's in-place application replaces exactly the node a result patch names, takes out exactly the node a remove patch names, ignores ids it does not hold, and keeps ids unique |
| `LiveView.TickIsSnapshot` | plugins/tribe/scripts/viewer/adapters/poller.adapter.ts:204-314 | A window followed by a tick, patched in place, is the snapshot of both |
| `LiveView.LiveEqualsSnapshot` | plugins/tribe/scripts/viewer/adapters/poller.adapter.ts:204-314 | Over any run of ticks with unique node ids the live store equals the snapshot of all rows |
| `LiveView.PatchFollowsItsCall` | plugins/tribe/scripts/viewer/core/pair.ts:96-133 | Every patch comes from a result candidate, targets a call emitted earlier or in the same batch, and its node is that call finished with that result |
| `LiveView.PatchedCallIsGone` | plugins/tribe/scripts/viewer/core/pair.ts:118-131 | A completed call is out of the pending map for good |
| `LiveView.EachCallIsCompletedOnce` | plugins/tribe/scripts/viewer/core/pair.ts:118-131 | No call is completed twice |
| `PairingByPosition.IdealPairsTheFirstResult` | plugins/tribe/scripts/viewer/core/window.ts:285-296 | Against a definition by position: the unbounded machine shows every call with the first result after it, hides exactly that result, and shows everything else as it is |
| `BackFill.OrphanToolUseIds` | plugins/tribe/scripts/viewer/client/src/rowStore.ts:74-78 | Exactly the tool ids of the orphans held, in order |
| `BackFill.CompleteBackfillOrphans` | plugins/tribe/scripts/viewer/core/window.ts:350-395 | The four loops finish exactly the indexed calls through the live pairing, and emit one removal for each, never one without the other |
| `BackFill.LastWantedIsIndexed` | plugins/tribe/scripts/viewer/core/window.ts:362-368 | Of several wanted calls of one id on the page, the last is the one that is indexed |
| `BackFill.FinishAllFinishesTheWanted` | plugins/tribe/scripts/viewer/core/window.ts:362-393 | With each id called once, exactly the pending calls whose result is held as an orphan are finished, each with its first result |
| `BackFill.RemovedExactlyTheRelieved` | plugins/tribe/scripts/viewer/core/window.ts:382-393 | An orphan is removed exactly when it is the first result, in the range held, for a call the page leaves waiting |
| `BackFill.PrependPage` | plugins/tribe/scripts/viewer/client/src/rowStore.ts:201-225 | The page goes in front, the same patch path is applied, and past the cap the oldest 2000 nodes stay and following ends |
| `BackFill.BackFillIsTheWhole` | plugins/tribe/scripts/viewer/core/window.ts:285-395 | A page displayed alone, finished and prepended, is the display of page and held rows together, when all the range held was scanned |
| `BackFill.BackFillIsTheWholeExactlyWhenScanned` | plugins/tribe/scripts/viewer/core/window.ts:343-395 | With a scan that ends early it is exactly when the scan reached every result a call of the page waits for |
| `BackFill.HeldCallStaysAsItIs` | plugins/tribe/scripts/viewer/core/window.ts:343-395 | A call one request left pending is completed by no later one while it is held |
| `BackFill.LoadEarlier` | plugins/tribe/scripts/viewer/serve.ts:679-697 | One request onto a tail shown as the unbounded machine shows it, its scan reaching the results awaited, gives the oldest 2000 nodes of what that machine shows of both |
| `BackFill.LoadedHistoryIsTheSnapshot` | plugins/tribe/scripts/viewer/core/window.ts:285-395 | However many pages are loaded, each paired alone, the history is the snapshot of an unbounded machine over all rows |
| `Tail.AdvanceTail` | plugins/tribe/scripts/viewer/core/tail.ts:123-225 | Unless the file was reset, one tick gives exactly the rows its chunk completes, each once, as a line or as an oversized node at its true start and size, and the bounded state is what the whole file so far determines |
| `Tail.ScanRows` | plugins/tribe/scripts/viewer/core/tail.ts:156-206 | The discard machine counts and anchors a row that spans any number of chunks as if it had been read at once |
| `Tail.EveryRowIsGiven` | plugins/tribe/scripts/viewer/core/tail.ts:156-206 | Row by row: one over the cap gives its oversized node at its own start and with its own size, any other its decoded text without a final carriage return, a blank one nothing |
| `Tail.AckIsALineBoundary` | plugins/tribe/scripts/viewer/core/tail.ts:35-55 | The carry never exceeds one row cap, and the acknowledged offset is one past a newline with none after it |
| `Tail.ChunkingIsInvisible` | plugins/tribe/scripts/viewer/core/tail.ts:123-225 | However the growth of a file is cut into ticks, lines and oversized nodes are those of one whole read |
| `TailPoller.SplitRows` | plugins/tribe/scripts/viewer/adapters/poller.adapter.ts:110-120 | The forward split gives exactly the terminated rows |
| `TailPoller.ConfirmedRows` | plugins/tribe/scripts/viewer/adapters/poller.adapter.ts:293-303 | The rows handed on in a tick are those of the re-joined bytes, anchored from where these begin |
| `TailPoller.RowsEmittedOnceExactlyWithoutOversized` | plugins/tribe/scripts/viewer/adapters/poller.adapter.ts:287-306 | A tick emits each row it completes exactly once, precisely when none of them is oversized |
| `TailPoller.FragmentIsEmittedInTheMiddleOfARow` | plugins/tribe/scripts/viewer/adapters/poller.adapter.ts:287-306 | When a row dropped since an earlier tick ends, its last fragment is emitted beside its oversized node, anchored inside the row and not where any row begins |
| `TailPoller.OversizedRowIsEmittedTwice` | plugins/tribe/scripts/viewer/adapters/poller.adapter.ts:287-306 | A family of inputs: a row dropped for one byte too many, then its last byte; two nodes leave the tick under two anchors |
| `Cache.EvictionVictim` | plugins/tribe/scripts/viewer/core/cache.ts:92-107 | Nothing below capacity; otherwise the least entry by last use, then by write, first in map order |
| `Cache.SessionReadCache.BoundedInsert` | plugins/tribe/scripts/viewer/core/cache.ts:76-82 | A replacement keeps its place and evicts nothing; a new key evicts the victim first |
| `Cache.SessionReadCache.ReadSessionWindows` | plugins/tribe/scripts/viewer/serve.ts:318-331 | A fresh entry is returned and touched; anything else is read, inserted and returned |
| `Cache.KeptKeyIsAnswered` | plugins/tribe/scripts/viewer/serve.ts:318-331 | A request for a kept key is answered from its entry while that was written less than a minute ago, and only its last use moves; from then on the file is read and the entry written anew in its place |
| `Cache.NewKeyIsRead` | plugins/tribe/scripts/viewer/core/cache.ts:53-107 | A request for a new key reads the file and goes last; at capacity the one entry makes room that was used, or at the same time written, before all others |
| `CacheTraces.EntriesAreReads` | plugins/tribe/scripts/viewer/serve.ts:318-331 | After any requests every entry holds what a request of its own key read when it was written |
| `CacheTraces.AnswersAreRecentReads` | plugins/tribe/scripts/viewer/core/cache.ts:53-63 | Every answer is a direct read of the same key less than the expiry window old; when the key determines the content it is the direct read |
| `LruRefinement.CacheKeepsTheLatest` | plugins/tribe/scripts/viewer/core/cache.ts:53-107 | Under a clock that never goes back, whatever readings requests share: the cache holds as many keys as it can, with their last request times, and none is older than a key it gave up |
| `LruRefinement.SessionCacheKeepsTheLatest` | plugins/tribe/scripts/viewer/serve.ts:318-331 | The same for the session cache: 500 keys as soon as so many were requested, none older than one given up |
| `LruRefinement.VictimIsLeastRecentExactlyWithoutTies` | plugins/tribe/scripts/viewer/core/cache.ts:92-107 | The victim is the least recently requested entry under every order of requests with these readings exactly when the oldest reading belongs to one entry |
| `LruRefinement.UntiedVictimIsLeastRecent` | plugins/tribe/scripts/viewer/core/cache.ts:92-107 | In any run an untied victim is the kept key whose last request lies furthest back |
| `LruRefinement.CacheIsLru` | plugins/tribe/scripts/viewer/core/cache.ts:53-107 | Under a clock that never goes back, after any trace whose evictions were untied the cache is the head of the recency list |
| `LruRefinement.StrictClockTiesNothing` | plugins/tribe/scripts/viewer/core/cache.ts:92-107 | A strictly increasing clock ties no eviction |
| `LruRefinement.SessionCacheHoldsTheMostRecent` | plugins/tribe/scripts/viewer/serve.ts:318-331 | For the session cache these are the 500 most recent, scans under one reading included as long as no eviction is tied |
| `LruRefinement.EqualReadingsCanEvictTheLastUsed` | plugins/tribe/scripts/viewer/core/cache.ts:92-107 | At every capacity of two or more, 500 included: one scan under one reading after an earlier read gives up the very key used last |
| `ParentLinks.ComputeReachesRoot` | plugins/tribe/scripts/viewer/core/subagents.ts:71-80 | The walk with its visited set answers whether following parents ends, and terminates |
| `ParentLinks.RootOrCycle` | plugins/tribe/scripts/viewer/core/subagents.ts:64-80 | Every chain reaches an end or runs into a cycle, never both, and an end comes within the number of ids |
| `Subagents.DeriveAgents` | plugins/tribe/scripts/viewer/core/subagents.ts:52-115 | The loops give the derived listing, liveness included, that the next rows are about |
| `Subagents.EveryEntryIsListed` | plugins/tribe/scripts/viewer/core/subagents.ts:45-115 | Every sidecar is listed exactly once with its own facts; its parent is the one it names if that is in the batch and no circle of named parents is run into; and the list is in order of birth, then of id |
| `Subagents.LivenessFades` | plugins/tribe/scripts/viewer/core/liveness.ts:26-30 | Between scans that find a file unchanged an agent only goes from live to not live, and it stays live exactly as long as the ten-minute window |
| `Subagents.ParentIsKeptExactlyOffCycles` | plugins/tribe/scripts/viewer/core/subagents.ts:86-91 | A named in-batch parent is kept exactly when its chain does not run into a cycle |
| `Subagents.KeptParentsFormAForest` | plugins/tribe/scripts/viewer/core/subagents.ts:86-91 | Following kept parents from any agent ends within the batch size |
| `Subagents.ListingOrderIsIrrelevant` | plugins/tribe/scripts/viewer/core/subagents.ts:45-115 | With distinct ids the output does not depend on the order sidecars were listed in, and is a sorted permutation of the input |
| `Subagents.SortedOrderIsUnique` | plugins/tribe/scripts/viewer/core/subagents.ts:45-50 | The comparator leaves one sorted order for distinct ids |
| `SpawnLedger.AgentCallsIn` | plugins/tribe/scripts/runner/core/ledger.ts:65-82 | The dictionary holds exactly the agent calls of an assistant message, each with the message's own parent |
| `SpawnLedger.TrackerReflectsStream` | plugins/tribe/scripts/runner/core/ledger.ts:87-151 | After any stream the two dictionaries hold exactly its calls and starts, the latest under each tool id |
| `SpawnLedger.ParentIsTheSpawner` | plugins/tribe/scripts/runner/core/ledger.ts:107-151 | Over any stream, repeated tool ids included: a row has the spawner the stream shows; without one, the root when the depth is 1, and otherwise no parent, marked unresolved |
| `SpawnLedger.OneSpawner` | plugins/tribe/scripts/runner/core/ledger.ts:107-137 | A start has at most one spawner, so the parent is never a choice |
| `SpawnLedger.SessionTreeIsWellFounded` | plugins/tribe/scripts/runner/core/ledger.ts:87-151 | Over any stream each row's parent is the root, the session of a strictly earlier row, or absent and marked unresolved |
| `SpawnLedger.RowsAreTheSessionStarts` | plugins/tribe/scripts/runner/core/ledger.ts:87-151 | Over any stream every started agent session gets exactly one row, in order, with its own id, time and type, and nothing else does |
| `SpawnLedger.AnyCallIsTheLatest` | plugins/tribe/scripts/runner/core/ledger.ts:107-137 | When each tool id is called and started once, the spawner is whoever issued a call for the start, wherever it stands in the stream |
| `GapIds.IdReadsBack` | plugins/tribe/scripts/gaps/ledger.ts:115-134 | The zero-padded decimal id parses back to its number, for every number |
| `GapIds.IdIsPaddedDecimal` | plugins/tribe/scripts/gaps/ledger.ts:122-134 | An id is `G-` and the decimal number, padded with zeros to three digits and never cut |
| `GapIds.NumberedIds` | plugins/tribe/scripts/gaps/ledger.ts:115-120 | A text counts as an id exactly when it is `G-` and one or more digits |
| `GapIds.MintNextId` | plugins/tribe/scripts/gaps/ledger.ts:122-134 | The minted id carries one more than the largest number present, and is new |
| `GapEvents.FoldToLatestStatus` | plugins/tribe/scripts/gaps/ledger.ts:107-113 | The map holds exactly each known id's latest event |
| `GapEvents.AppendKeepsWellFormed` | plugins/tribe/scripts/gaps/gap-rule.ts:213-222 | Appending one event keeps every gap's life in order exactly when the event fits: a larger number for an opening, a known and unruled gap otherwise |
| `GapEvents.EachGapOpensOnceAndFirst` | plugins/tribe/scripts/gaps/gap-reconcile.ts:133-222 | In a well-formed ledger each id has one opened event and it comes before all its others |
| `GapRegistry.Registry.BuildRestrictedArgv` | plugins/tribe/scripts/gaps/gap-reconcile.ts:78-88 | The stored flags and pattern are kept and the paths replaced by the changed files in scope |
| `GapRegistry.Registry.MatchOpenEntries` | plugins/tribe/scripts/gaps/gap-reconcile.ts:155-185 | The loop gives the sightings, reports and the count that the next rows are about |
| `GapSightings.SeenExactlyWhenGrepFires` | plugins/tribe/scripts/gaps/gap-reconcile.ts:155-185 | A sighting of a gap with so many hits is appended exactly when the gap is opened and not ruled, its fingerprint is valid, the change touches its paths, and grep, run on its flags, its pattern and exactly the changed files that do, fires with these hits |
| `GapSightings.EachGapIsSeenOnce` | plugins/tribe/scripts/gaps/gap-reconcile.ts:155-185 | No gap is seen twice in one run |
| `GapSightings.FlaggedExactlyWhenRefused` | plugins/tribe/scripts/gaps/gap-reconcile.ts:155-185 | An open gap is reported exactly when the change touches it and its fingerprint is refused, for that reason |
| `GapSightings.SuppressedInARun` | plugins/tribe/scripts/gaps/gap-reconcile.ts:155-185 | The suppressed count is the number of ruled gaps the change touches |
| `GapRegistry.Registry.MintUnmatched` | plugins/tribe/scripts/gaps/gap-reconcile.ts:187-214 | The loop gives the openings that the next row is about |
| `GapSightings.OpenedExactlyUnlessCovered` | plugins/tribe/scripts/gaps/gap-reconcile.ts:187-214 | A run opens, in order, exactly the candidates that no gap of their category with an overlapping path still fires for, each with its own facts and numbered on from the largest number there is |
| `GapSightings.PrOfTheFirst` | plugins/tribe/scripts/gaps/gap-reconcile.ts:151 | Sightings and openings carry the PR of the first candidate that has one, or 0 |
| `GapRegistry.Registry.Reconcile` | plugins/tribe/scripts/gaps/gap-reconcile.ts:112-223 | One run appends to the old ledger, names exactly the ids it appended, those seen first, and returns the refused entries and the suppressed count |
| `GapRuling.CheckPrerequisites` | plugins/tribe/scripts/gaps/gap-rule.ts:224-255 | The steps between reading and appending stop at the first refusal, and the baseline is the number of hits |
| `GapRuling.RefusedForTheFirstUnmet` | plugins/tribe/scripts/gaps/gap-rule.ts:209-255 | Of fourteen demands, in the order they are made, the first that is not met decides the refusal, and a ruling is refused for nothing else |
| `GapRuling.RunDebtCheck` | plugins/tribe/scripts/gaps/gap-rule.ts:78-103 | Misshapen, errored and silent checks are refused |
| `GapRuling.ChecksItsPatternAndPaths` | plugins/tribe/scripts/gaps/gap-rule.ts:78-103 | Whatever flags a check has, grep is asked for its own pattern over its own paths, and a check without a path is misshapen |
| `GapRuling.CreateDebtEntity` | plugins/tribe/scripts/gaps/gap-rule.ts:156-202 | A failed step or a stray path is a refusal; only paths not there before count |
| `GapRegistry.Registry.Rule` | plugins/tribe/scripts/gaps/gap-rule.ts:209-275 | A ruling is recorded exactly when the gap is known, unruled and its prerequisites hold, and then is the last event; every refusal leaves the ledger as it was |
| `LedgerRuns.ReconcilingKeepsWellFormed` | plugins/tribe/scripts/gaps/gap-reconcile.ts:133-222 | A whole reconciliation keeps every gap's life in order |
| `LedgerRuns.LedgerStaysWellFormed` | plugins/tribe/scripts/gaps/gap-rule.ts:257-266 | From an empty ledger, any sequence of whole runs of both writers only appends and keeps: one opening and first, nothing after a ruling, strictly increasing numbers |
| `LedgerRuns.LateRunIsSafeExactlyWhenHarmless` | plugins/tribe/scripts/gaps/gap-reconcile.ts:125-220 | A run that read an older ledger than it appends to keeps every life in order exactly when nothing it saw fire was ruled since, nothing was opened since if it opens anything, and the gap it rules is unruled |
| `LedgerRuns.HistoryIsInOrderExactlyWhenHarmless` | plugins/tribe/scripts/gaps/gap-reconcile.ts:125-220 | Over any interleaving of overlapping runs of both writers the ledger is in order exactly when every append was harmless |
| `LedgerRuns.OverlappingReconcilesMintOneIdTwice` | plugins/tribe/scripts/gaps/gap-reconcile.ts:125-220 | Two reconciliations that both read an empty ledger open two gaps under one id |
| `LedgerRuns.LateRulingIsSafeExactlyWhileUnruled` | plugins/tribe/scripts/gaps/gap-rule.ts:213-266 | A ruling checked on an older ledger may still be appended exactly while the gap is unruled |
| `Fingerprint.Tokenize` | plugins/tribe/scripts/gaps/fingerprint.ts:20-46 | The nested loops end on every input, unclosed quotes included, and give the words of the string |
| `Fingerprint.TokenizerInvertsWriting` | plugins/tribe/scripts/gaps/fingerprint.ts:20-46 | However words are written, bare, quoted or both, with any space around them, they come back as meant, empty ones included |
| `Fingerprint.UnclosedQuoteRunsToTheEnd` | plugins/tribe/scripts/gaps/fingerprint.ts:20-46 | A quote that is never closed takes in everything to the end as one word |
| `Fingerprint.ValidateFingerprint` | plugins/tribe/scripts/gaps/fingerprint.ts:51-60 | A fingerprint is valid exactly when it holds no banned character and its words are grep and at least one more |
| `Fingerprint.VettedTokensAreClean` | plugins/tribe/scripts/gaps/fingerprint.ts:7-60 | No token of a valid fingerprint holds a shell metacharacter |
| `Transcript.ReadLines` | plugins/tribe/scripts/runner/adapters/transcript-io.adapter.ts:25-46 | For any chunking, even through the middle of a character, exactly the lines of the decoded text are yielded, and a non-empty final partial one |
| `Transcript.ReadTranscriptRows` | plugins/tribe/scripts/runner/adapters/transcript-io.adapter.ts:91-108 | Every such line is numbered, classified and counted once |
| `Transcript.EveryLineIsTallied` | plugins/tribe/scripts/runner/adapters/transcript-io.adapter.ts:91-108 | Line by line: the `k`-th is classified under the number `k`, gives its row or its skip reason or nothing, in order, and is counted |
| `Transcript.DecodeConcat` | plugins/tribe/scripts/runner/adapters/transcript-io.adapter.ts:25-46 | Decoding chunk by chunk gives the text of the whole |
| `Lines.LinesConcat` | plugins/tribe/scripts/runner/adapters/transcript-io.adapter.ts:31-40 | What was left over, put in front of the next chunk, gives the same lines as one text |
| `Lines.LinesAreTheOnlyCut` | plugins/tribe/scripts/runner/adapters/transcript-io.adapter.ts:35-39 | There is one way to cut a text into terminated lines and an unterminated end |
| `Cut.MeasureWindow` | plugins/tribe/scripts/runner/adapters/cut.ts:45-100 | For any chunking, exactly the newline-terminated lines of the bytes read are classified and the hash is over these bytes |
| `Cut.MeasureAtCut` | plugins/tribe/scripts/runner/adapters/cut.ts:108-115 | The measurement is a function of the pinned bytes alone |
| `Cut.MeasuredFields` | plugins/tribe/scripts/runner/adapters/cut.ts:108-115 | The first three compared fields are the counts of the cut itself, its lines, skips and skip reasons; all others are what the rows accumulate to |
| `Cut.FirstMismatchedMetricField` | plugins/tribe/scripts/runner/adapters/cut.ts:142-148 | Null exactly when every compared field agrees; otherwise the first that differs, in declared order, whatever the recorded value is |
| `Cut.VerifyBaseline` | plugins/tribe/scripts/runner/adapters/cut.ts:165-213 | One verdict per entry in order: absent, unreadable, truncated, changed prefix, changed metrics or verified, each under its own condition |
| `Cut.PinnedCutSurvivesAppends` | plugins/tribe/scripts/runner/adapters/cut.ts:45-213 | An entry measured on a file, however that read was chunked or cut short, verifies against every extension of the file |
| `Cut.VerifiedExactlyWhilePrefixIsKept` | plugins/tribe/scripts/runner/adapters/cut.ts:165-213 | With no hash collision on the two prefixes, `verified` holds exactly while the pinned prefix is still there; shorter is `truncated`, changed is `prefix_mismatch` |
| `Cut.CommittedRowsOnlyGrow` | plugins/tribe/scripts/runner/adapters/cut.ts:76-87 | A longer cut only adds to the rows, skips and lines of a shorter one |
| `Cut.StreamAddsOnlyThePartialLine` | plugins/tribe/scripts/runner/adapters/cut.ts:41-43 | The streamed report and the cut over the same bytes differ by the unterminated last line, and agree exactly when there is none |
| `Cut.MeasuredEntryLoadsExactlyWithALine` | plugins/tribe/scripts/runner/adapters/cut.ts:262-268 | A measured entry passes the load check on its counts exactly when its window held a complete line |
| `ShellQuote.QuotedArgReads` | plugins/tribe/scripts/runner/cli/main.ts:557-560 | A quoted argument reads as exactly one word, equal to the argument |
| `ShellQuote.OnlyOthersAreQuoted` | plugins/tribe/scripts/runner/cli/main.ts:557-560 | An argument stays as it is exactly when it is not empty and holds only letters, digits and seven safe marks |
| `ShellQuote.RerunCommandReadsBack` | plugins/tribe/scripts/runner/cli/main.ts:557-569 | For every argv, the re-run line read by a POSIX word splitter is bun, run.ts, supervise and then exactly argv |

## Left out

- TailPoller.RowsEmittedOnceExactlyWithoutOversized: as multisets, because the sort by anchor that follows is not modelled.
- Cut.PinnedCutSurvivesAppends: the verifying read is never cut short; a file that shrinks while it is verified may get any verdict.
- CardPool.FillsExactlyWhenThereIsRoom: a stop file and a permanent API error, after which nothing more is launched, are not events; the claims hold for every run of events, one that ends there included. Whether a selected card is launched or claimed for planning is said by `Campaign.SelectNextCard`.
- BackFill.LoadEarlier: asks for node ids and called tool ids that are used once, as a session writes them; with one tool id called twice in a page, a second result would complete the earlier call too.
- BackFill.LoadedHistoryIsTheSnapshot: before the client's cap; past it each request keeps the oldest 2000 nodes, as `BackFill.LoadEarlier` says.
- `resetCard` and `normalizeStaleBaseShas`: one-branch edits of a card; a reset may take back a shipped dependency, so it is no event of a pass.
- Loading and saving state: JSON and schema parsing, unknown-version and referential refusals (the last, that references resolve, is what `CardPool` assumes of a loaded state).
- Ids such as `__proto__` and `constructor` as object keys: every dictionary is modelled as one.
- Prompts, briefs, escalation texts, reports, notifications and the wording of every reason.
- A Done command whose process cannot be started at all: the exception leaves the driver, which the model has no outcome for.
- Verifying and healing a delivery (`verify.ts`, `residue.ts`): one answer of the environment.
- MergeGate.AllowedMergeIsVerified: a subcommand merges the one PR the parser reads in it; how `gh` itself takes the value of a flag, and shell syntax the tokenizer does not split on, are not part of this model.
- Reading PR checks and head: `gh` output that does not parse is an answer of the environment; the parser is not part of this model.
- Paths: `/`-separated text; joining, resolving and symbolic links are not modelled.
- Streaming UTF-8 decoder and hash: parameters; the decoder works byte by byte and is assumed to depend on nothing but the bytes.
- Transcript row classification and accumulation: parameters; only which lines they get, and in which order, is modelled.
- Markdown tokenizing, chip extraction and row normalization: candidates arrive as nodes.
- The backward window reader: the tail starts from a state that observes the file; a seeded carry cut to the row cap is not modelled.
- The client's cap and deduplication on live rows, and its return to the tail; frame batching, sequence numbers, metadata frames and pings.
- `Array.prototype.sort` with the given comparator: an insertion sort.
- Doubles: gap numbers are exact integers, so ids beyond 2^53 are not faithful.
- Greps during one reconciliation answer the same for the same arguments.
- Creating a debt entity: exit codes and status lines are answers of the environment; the body it writes is not modelled.
- `rememberPreviousSize` and the timestamps liveness compares: the earlier size is a field of the entry, parsing a parameter.
- Regular-expression case folding: `done` in any ASCII case; no other character lowers to these letters.
- POSIX word splitting is read strictly: an unquoted character that might expand, redirect or start a second command is refused rather than interpreted.
