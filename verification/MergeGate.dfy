/** What a command line merges, as the pre-merge gate reads it (runner/core/merge-gate.ts). */
module MergeCommand {
  import opened Collections
  import opened WrittenWords
  import opened ShellTokens

  predicate IsForbidden(token: string, flag: string) {
    token == flag || (flag + "=" <= token && token[|flag| + 1..] != "false")
  }

  function MatchForbiddenFlag(token: string): (flag: Option<string>)
    ensures flag.Some? <==> IsForbidden(token, "--auto") || IsForbidden(token, "--admin")
    ensures flag.Some? ==> IsForbidden(token, flag.value) && flag.value in {"--auto", "--admin"} && token[0] == '-'
  {
    if IsForbidden(token, "--auto") then Some("--auto")
    else if IsForbidden(token, "--admin") then Some("--admin")
    else None
  }

  predicate Forbidden(token: string) {
    MatchForbiddenFlag(token).Some?
  }

  /** `--auto` and `--admin`, bare or with any value but `false`; nothing else. */
  lemma ForbiddenTokens(token: string)
    ensures Forbidden(token) <==>
              || token == "--auto" || token == "--admin"
              || exists value: string :: value != "false" && (token == "--auto=" + value || token == "--admin=" + value)
  {
    forall flag | flag in {"--auto", "--admin"}
      ensures IsForbidden(token, flag) <==> token == flag || exists value: string :: value != "false" && token == (flag + "=") + value
    {
      if IsForbidden(token, flag) && token != flag {
        assert token == (flag + "=") + token[|flag| + 1..];
      }
      if value: string :| value != "false" && token == (flag + "=") + value {
        assert token[|flag| + 1..] == value;
      }
    }
    assert "--auto" + "=" == "--auto=" && "--admin" + "=" == "--admin=";
    hide IsForbidden;
  }

  predicate IsFlag(token: string) {
    |token| > 0 && token[0] == '-'
  }

  /** The consecutive tokens `gh pr merge` start at `i`. */
  predicate MergeAt(tokens: seq<string>, i: nat) {
    i + 2 < |tokens| && tokens[i] == "gh" && tokens[i + 1] == "pr" && tokens[i + 2] == "merge"
  }

  predicate HasMerge(tokens: seq<string>) {
    exists i :: 0 <= i < |tokens| && MergeAt(tokens, i)
  }

  /** A forbidden flag stands after some `gh pr merge` of the same subcommand. */
  predicate ForcesMerge(tokens: seq<string>) {
    exists i, j :: 0 <= i < j < |tokens| && MergeAt(tokens, i) && i + 3 <= j && Forbidden(tokens[j])
  }

  datatype Invocation = Invocation(prRef: Option<string>, forbiddenFlag: Option<string>)

  function FirstMerge(tokens: seq<string>): (i: nat)
    ensures i < |tokens| ==> MergeAt(tokens, i)
    ensures forall k :: 0 <= k < i && k < |tokens| ==> !MergeAt(tokens, k)
  {
    FirstMergeFrom(tokens, 0)
  }

  function FirstMergeFrom(tokens: seq<string>, from: nat): (i: nat)
    ensures from <= i
    ensures i < |tokens| ==> MergeAt(tokens, i)
    ensures forall k :: from <= k < i && k < |tokens| ==> !MergeAt(tokens, k)
    decreases |tokens| - from
  {
    if from >= |tokens| || MergeAt(tokens, from) then from else FirstMergeFrom(tokens, from + 1)
  }

  function FirstNonFlag(tokens: seq<string>): Option<string> {
    if tokens == [] then None
    else if !IsFlag(tokens[0]) then Some(tokens[0])
    else FirstNonFlag(tokens[1..])
  }

  lemma {:induction false} FirstNonFlagAppend(tokens: seq<string>, last: string)
    ensures FirstNonFlag(tokens + [last]) ==
            if FirstNonFlag(tokens).Some? then FirstNonFlag(tokens) else if IsFlag(last) then None else Some(last)
  {
    if tokens != [] {
      assert (tokens + [last])[1..] == tokens[1..] + [last];
      FirstNonFlagAppend(tokens[1..], last);
    } else {
      assert [last][1..] == [];
    }
  }

  /** The PR a subcommand names: the first token behind its first `gh pr merge` that is no flag. */
  function NamedPr(tokens: seq<string>): Option<string> {
    if HasMerge(tokens) then
      var at := FirstMerge(tokens);
      FirstNonFlag(if at + 3 <= |tokens| then tokens[at + 3..] else [])
    else None
  }

  function FirstNamedPr(subs: seq<seq<string>>): Option<string> {
    if subs == [] then None
    else
      var earlier := FirstNamedPr(subs[..|subs| - 1]);
      if earlier.Some? then earlier else NamedPr(subs[|subs| - 1])
  }

  method ExtractMergeInvocation(tokens: seq<string>) returns (invocation: Option<Invocation>)
    ensures invocation.Some? <==> HasMerge(tokens)
    ensures invocation.Some? ==> (invocation.value.forbiddenFlag.Some? <==> ForcesMerge(tokens))
    ensures invocation.Some? ==> invocation.value.prRef == NamedPr(tokens)
  {
    var mergeIndex := 0;
    while mergeIndex < |tokens| && !MergeAt(tokens, mergeIndex)
      invariant 0 <= mergeIndex <= |tokens|
      invariant forall i :: 0 <= i < mergeIndex ==> !MergeAt(tokens, i)
    {
      mergeIndex := mergeIndex + 1;
    }
    if mergeIndex == |tokens| {
      return None;
    }
    assert FirstMerge(tokens) == mergeIndex;
    hide MergeAt, FirstMerge, FirstNonFlag;
    var forbiddenFlag: Option<string> := None;
    var prRef: Option<string> := None;
    for i := mergeIndex + 3 to |tokens|
      invariant forbiddenFlag.Some? <==> exists j :: mergeIndex + 3 <= j < i && Forbidden(tokens[j])
      invariant prRef == FirstNonFlag(tokens[mergeIndex + 3..i])
    {
      var token := tokens[i];
      assert tokens[mergeIndex + 3..i + 1] == tokens[mergeIndex + 3..i] + [token];
      FirstNonFlagAppend(tokens[mergeIndex + 3..i], token);
      var forbidden := MatchForbiddenFlag(token);
      if forbidden.Some? {
        assert Forbidden(tokens[i]);
        forbiddenFlag := forbidden;
        continue;
      }
      if !IsFlag(token) && prRef.None? {
        prRef := Some(token);
      }
    }
    assert tokens[mergeIndex + 3..|tokens|] == tokens[mergeIndex + 3..];
    return Some(Invocation(prRef, forbiddenFlag));
  }

  datatype ParsedMergeCommand = ParsedMergeCommand(isMerge: bool, prRef: Option<string>, forbiddenFlag: Option<string>)

  /** Every subcommand is inspected: the command is a merge exactly when some subcommand holds the
      three tokens, and a forbidden flag behind any of them is reported. */
  method ParseMergeCommand(command: string) returns (parsed: ParsedMergeCommand)
    ensures var subs := Lex(START, command);
      && (parsed.isMerge <==> exists sub :: sub in subs && HasMerge(sub))
      && (parsed.forbiddenFlag.Some? <==> exists sub :: sub in subs && ForcesMerge(sub))
      && parsed.prRef == FirstNamedPr(subs)
  {
    var subs := TokenizeShellCommand(command);
    var isMerge := false;
    var forbiddenFlag: Option<string> := None;
    var prRef: Option<string> := None;
    for i := 0 to |subs|
      invariant isMerge <==> exists sub :: sub in subs[..i] && HasMerge(sub)
      invariant forbiddenFlag.Some? <==> exists sub :: sub in subs[..i] && ForcesMerge(sub)
      invariant prRef == FirstNamedPr(subs[..i])
    {
      var invocation := ExtractMergeInvocation(subs[i]);
      assert subs[..i + 1] == subs[..i] + [subs[i]];
      assert subs[..i + 1][..i] == subs[..i];
      ForcingIsMerging(subs[i]);
      if invocation.Some? {
        assert HasMerge(subs[i]);
        isMerge := true;
        if forbiddenFlag.None? {
          forbiddenFlag := invocation.value.forbiddenFlag;
        }
        if prRef.None? {
          prRef := invocation.value.prRef;
        }
      }
    }
    assert subs[..|subs|] == subs;
    return ParsedMergeCommand(isMerge, prRef, forbiddenFlag);
  }

  lemma ForcingIsMerging(tokens: seq<string>)
    ensures ForcesMerge(tokens) ==> HasMerge(tokens)
  {
  }

  /** The reference is the first token behind the first `gh pr merge` that is no flag, whatever stands around. */
  lemma NamedPrIs(before: seq<string>, flags: seq<string>, after: seq<string>)
    requires var tokens := before + ["gh", "pr", "merge"] + flags + after;
      forall i :: 0 <= i < |before| ==> !MergeAt(tokens, i)
    requires (forall f :: f in flags ==> f != "" && f[0] == '-') && (after != [] ==> after[0] == "" || after[0][0] != '-')
    ensures NamedPr(before + ["gh", "pr", "merge"] + flags + after) == if after == [] then None else Some(after[0])
  {
    var tokens, at := before + ["gh", "pr", "merge"] + flags + after, |before|;
    assert tokens[at] == "gh" && tokens[at + 1] == "pr" && tokens[at + 2] == "merge";
    assert MergeAt(tokens, at);
    assert FirstMerge(tokens) == at;
    assert tokens[at + 3..] == flags + after;
    FlagsAreSkipped(flags, after);
  }

  lemma {:induction false} FlagsAreSkipped(flags: seq<string>, after: seq<string>)
    requires (forall f :: f in flags ==> IsFlag(f)) && (after != [] ==> !IsFlag(after[0]))
    ensures FirstNonFlag(flags + after) == if after == [] then None else Some(after[0])
  {
    if flags == [] {
      assert flags + after == after;
    } else {
      assert flags[0] in flags && (flags + after)[1..] == flags[1..] + after;
      FlagsAreSkipped(flags[1..], after);
    }
  }

  /** Of several subcommands the first that names a PR decides. */
  lemma {:induction false} FirstNamedPrIs(subs: seq<seq<string>>, k: nat)
    requires k <= |subs| && forall j :: 0 <= j < k ==> NamedPr(subs[j]).None?
    requires k < |subs| ==> NamedPr(subs[k]).Some?
    ensures FirstNamedPr(subs) == if k < |subs| then NamedPr(subs[k]) else None
    decreases |subs|
  {
    hide NamedPr;
    if subs != [] {
      var n := |subs| - 1;
      FirstNamedPrIs(subs[..n], if k < n then k else n);
    }
  }

  /** What the gate sees of a written command is decided by the subcommands it means, however words are written
      and separated: a quoted mention fakes no merge, and no quoting or spacing hides one. */
  lemma WrittenMergeIsSeen(phrases: seq<Phrase>, seps: seq<Separator>)
    requires |phrases| == |seps| + 1
    requires forall i :: 0 <= i < |phrases| ==> IsPhrase(phrases[i])
    ensures var seen := Lex(START, LineText(phrases, seps));
      && ((exists sub :: sub in seen && HasMerge(sub)) <==> exists p :: p in phrases && HasMerge(Meanings(p.words)))
      && ((exists sub :: sub in seen && ForcesMerge(sub)) <==> exists p :: p in phrases && ForcesMerge(Meanings(p.words)))
  {
    TokenizerInvertsWriting(phrases, seps);
    SubcommandsAreMeant(phrases);
    var seen := Subcommands(phrases);
    hide Lex, LineText, IsPhrase, Subcommands, Meanings;
    if p :| p in phrases && HasMerge(Meanings(p.words)) {
      assert Meanings(p.words) in seen;
    }
    if p :| p in phrases && ForcesMerge(Meanings(p.words)) {
      assert Meanings(p.words) in seen;
    }
  }

  /** The subcommands are what the phrases with words mean. */
  lemma {:induction false} SubcommandsAreMeant(phrases: seq<Phrase>)
    ensures forall sub :: sub in Subcommands(phrases) ==> exists p :: p in phrases && sub == Meanings(p.words)
    ensures forall p :: p in phrases && p.words != [] ==> Meanings(p.words) in Subcommands(phrases)
  {
    if phrases != [] {
      hide Meanings;
      SubcommandsAreMeant(phrases[1..]);
    }
  }
}

/** The hook in front of every shell command (runner/core/session.ts), and what an allowed merge implies. */
module MergeGate {
  import opened Collections
  import opened Tasks
  import opened DoneRun
  import opened CardDriver
  import opened WrittenWords
  import opened ShellTokens
  import opened MergeCommand

  /** The stdout of `gh pr checks`, after `JSON.parse`. A field that is no string is absent. */
  datatype Check = Check(name: Option<string>, state: Option<string>)
  datatype ChecksOutput = NotJson | NotAList | CheckList(checks: seq<Check>)
  datatype ChecksExec = ChecksExec(exitCode: int, stdout: ChecksOutput)

  /** `gh pr view`, with the head its stdout names if it has that shape. */
  datatype ViewExec = ViewExec(exitCode: int, headRefOid: Option<string>)

  /** A PR by reference, None being the branch's own. A read that rejects is absent. */
  type PrRef = Option<string>
  datatype GateWorld = GateWorld(
    wired: bool, checks: PrRef -> Option<ChecksExec>, view: PrRef -> Option<ViewExec>, doneSha: Option<string>)

  datatype GateInput = GateInput(
    parsed: ParsedMergeCommand, checksExec: Option<ChecksExec>, headSha: Option<string>, doneSha: Option<string>)

  datatype Denial = ForbiddenFlag | ChecksError | NotGreen(notGreen: seq<Check>) | HeadNotDone
  datatype Decision = NoOpinion | Deny(reason: Denial)

  function NotGreenChecks(checks: seq<Check>): (r: seq<Check>)
    ensures forall c :: c in r <==> c in checks && c.state != Some("SUCCESS")
    ensures r == [] <==> forall c :: c in checks ==> c.state == Some("SUCCESS")
  {
    if checks == [] then []
    else (if checks[0].state == Some("SUCCESS") then [] else [checks[0]]) + NotGreenChecks(checks[1..])
  }

  predicate AllGreenChecks(stdout: ChecksOutput) {
    stdout.CheckList? && stdout.checks != [] && NotGreenChecks(stdout.checks) == []
  }

  predicate Readable(sha: Option<string>) {
    sha.Some? && sha.value != ""
  }

  function BuildMergeGateDecision(input: GateInput): Decision {
    if !input.parsed.isMerge then NoOpinion
    else if input.parsed.forbiddenFlag.Some? then Deny(ForbiddenFlag)
    else if input.checksExec.None? || input.checksExec.value.exitCode != 0 then Deny(ChecksError)
    else if !AllGreenChecks(input.checksExec.value.stdout) then
      Deny(NotGreen(if input.checksExec.value.stdout.CheckList? then NotGreenChecks(input.checksExec.value.stdout.checks) else []))
    else if !(Readable(input.headSha) && Readable(input.doneSha) && input.headSha == input.doneSha) then Deny(HeadNotDone)
    else NoOpinion
  }

  // ----- the PRs of a command

  /** An empty name is no name: the branch's own PR is meant. */
  function Reference(named: Option<string>): PrRef {
    if named == Some("") then None else named
  }

  /** The PR a merging subcommand names. */
  function MergedPr(sub: seq<string>): PrRef {
    Reference(NamedPr(sub))
  }

  /** The one PR the hook reads. */
  function JudgedPr(subs: seq<seq<string>>): PrRef {
    Reference(FirstNamedPr(subs))
  }

  predicate Merging(subs: seq<seq<string>>) {
    exists sub :: sub in subs && HasMerge(sub)
  }

  predicate Forced(subs: seq<seq<string>>) {
    exists sub :: sub in subs && ForcesMerge(sub)
  }

  /** Every merge of the command is of the PR that is read. */
  predicate MergesOnePr(subs: seq<seq<string>>) {
    forall sub :: sub in subs && HasMerge(sub) ==> MergedPr(sub) == JudgedPr(subs)
  }

  function HeadOf(w: GateWorld, pr: PrRef): (head: Option<string>)
    ensures head.Some? ==> head.value != ""
  {
    var exec := w.view(pr);
    if exec.Some? && exec.value.exitCode == 0 && Readable(exec.value.headRefOid) then exec.value.headRefOid else None
  }

  /** The PR's checks were read and are a non-empty list, each concluded green. */
  predicate ChecksAreGreen(w: GateWorld, pr: PrRef) {
    var exec := w.checks(pr);
    && exec.Some? && exec.value.exitCode == 0 && exec.value.stdout.CheckList? && exec.value.stdout.checks != []
    && forall c :: c in exec.value.stdout.checks ==> c.state == Some("SUCCESS")
  }

  /** Nothing could be learned about the PR: no way to ask, a read that rejected, or a failed read of the checks. */
  predicate IsUnread(w: GateWorld, pr: PrRef) {
    !w.wired || w.checks(pr).None? || w.view(pr).None? || w.checks(pr).value.exitCode != 0
  }

  /** The PR may be merged: green, and its head is the commit whose Done commands passed. */
  predicate IsCleared(w: GateWorld, pr: PrRef) {
    ChecksAreGreen(w, pr) && HeadOf(w, pr).Some? && HeadOf(w, pr) == w.doneSha
  }

  /** The hook lets a command with these subcommands merge. */
  predicate Allowed(subs: seq<seq<string>>, w: GateWorld) {
    Merging(subs) && !Forced(subs) && w.wired && IsCleared(w, JudgedPr(subs))
  }

  /** One tool call. Nothing but a merging shell command is ever denied; a merging one gets no denial exactly when
      it is unforced and the PR it names first is cleared, and the reason is the first that applies: a forbidden flag,
      an unread PR, checks that are not all green, or else a head that is not the Done commit. */
  method DecideMergeGateHook(isBash: bool, command: string, w: GateWorld) returns (decision: Decision)
    ensures var subs := Lex(START, command);
      && (decision.NoOpinion? <==> !isBash || !Merging(subs) || Allowed(subs, w))
      && (decision == Deny(ForbiddenFlag) <==> isBash && Forced(subs))
      && (decision == Deny(ChecksError) <==> isBash && Merging(subs) && !Forced(subs) && IsUnread(w, JudgedPr(subs)))
      && (decision.Deny? && decision.reason.NotGreen? <==>
            isBash && Merging(subs) && !Forced(subs) && !IsUnread(w, JudgedPr(subs)) && !ChecksAreGreen(w, JudgedPr(subs)))
      && (decision.Deny? && decision.reason.NotGreen? ==>
            var stdout := w.checks(JudgedPr(subs)).value.stdout;
            forall c :: c in decision.reason.notGreen <==> stdout.CheckList? && c in stdout.checks && c.state != Some("SUCCESS"))
  {
    if !isBash {
      return NoOpinion;
    }
    ghost var subs := Lex(START, command);
    var parsed := ParseMergeCommand(command);
    ForcedIsMerging(subs);
    hide Lex, HasMerge, ForcesMerge, FirstNamedPr, NotGreenChecks;
    if !parsed.isMerge {
      return NoOpinion;
    }
    if parsed.forbiddenFlag.Some? || !w.wired {
      return BuildMergeGateDecision(GateInput(parsed, None, None, None));
    }
    var pr := if parsed.prRef == Some("") then None else parsed.prRef;
    var checksExec := w.checks(pr);
    if checksExec.None? {
      return BuildMergeGateDecision(GateInput(parsed, None, None, None));
    }
    var viewExec := w.view(pr);
    if viewExec.None? {
      return BuildMergeGateDecision(GateInput(parsed, None, None, None));
    }
    var head := viewExec.value.headRefOid;
    var headSha := if viewExec.value.exitCode == 0 && Readable(head) then head else None;
    decision := BuildMergeGateDecision(GateInput(parsed, checksExec, headSha, w.doneSha));
  }

  lemma ForcedIsMerging(subs: seq<seq<string>>)
    ensures Forced(subs) ==> Merging(subs)
  {
    forall sub | sub in subs && ForcesMerge(sub) ensures HasMerge(sub) {
      ForcingIsMerging(sub);
    }
  }

  // ----- when the gate answers for every merge of the command

  /** Letting the command through means that every PR it merges is cleared. */
  ghost predicate GuardsEveryMerge(subs: seq<seq<string>>, doneSha: Option<string>) {
    forall w: GateWorld, sub :: w.doneSha == doneSha && Allowed(subs, w) && sub in subs && HasMerge(sub) ==>
      IsCleared(w, MergedPr(sub))
  }

  /** The gate reads one PR. It answers for every merge of the command, whatever the PRs are like, exactly when all
      of them are of that PR, or when it lets nothing through at all: no Done commit, or a forbidden flag. */
  lemma EveryMergeIsGuardedExactlyWhenOfOnePr(subs: seq<seq<string>>, doneSha: Option<string>)
    ensures GuardsEveryMerge(subs, doneSha) <==> !Readable(doneSha) || Forced(subs) || MergesOnePr(subs)
  {
    hide HasMerge, ForcesMerge, NamedPr, FirstNamedPr, ChecksAreGreen;
    if Readable(doneSha) && !Forced(subs) && !MergesOnePr(subs) {
      var sub :| sub in subs && HasMerge(sub) && MergedPr(sub) != JudgedPr(subs);
      var w := OnlyCleared(JudgedPr(subs), doneSha.value);
      OnlyOneIsCleared(JudgedPr(subs), doneSha.value, JudgedPr(subs));
      OnlyOneIsCleared(JudgedPr(subs), doneSha.value, MergedPr(sub));
      assert Allowed(subs, w);
      assert !IsCleared(w, MergedPr(sub));
    }
  }

  /** A repository in which one PR is green at the Done commit and no other can be read. */
  function OnlyCleared(pr: PrRef, doneSha: string): GateWorld {
    GateWorld(true,
              (asked: PrRef) => if asked == pr then Some(ChecksExec(0, CheckList([Check(Some("test"), Some("SUCCESS"))]))) else None,
              (asked: PrRef) => if asked == pr then Some(ViewExec(0, Some(doneSha))) else None,
              Some(doneSha))
  }

  lemma OnlyOneIsCleared(pr: PrRef, doneSha: string, other: PrRef)
    requires doneSha != ""
    ensures IsCleared(OnlyCleared(pr, doneSha), other) <==> other == pr
  {
  }

  /** Two merges in one command line, of two PRs, however they are written: nothing in it is forced, and the gate does
      not answer for both. */
  lemma ChainedMergesAreNotGuarded(first: Phrase, second: Phrase, sep: Separator, a: string, b: string, doneSha: Option<string>)
    requires IsPhrase(first) && Meanings(first.words) == MergeOf(a) && IsPlainRef(a)
    requires IsPhrase(second) && Meanings(second.words) == MergeOf(b) && IsPlainRef(b)
    requires a != b && Readable(doneSha)
    ensures var subs := Lex(START, LineText([first, second], [sep]));
      && subs == [MergeOf(a), MergeOf(b)] && !Forced(subs) && !MergesOnePr(subs)
      && !GuardsEveryMerge(subs, doneSha)
  {
    TwoPhrasesReadBack(first, second, sep);
    hide Lex, LineText, IsPhrase, Meanings, Forced, MergesOnePr, GuardsEveryMerge;
    TwoMergesAreNotGuarded(a, b, doneSha);
  }

  lemma TwoMergesAreNotGuarded(a: string, b: string, doneSha: Option<string>)
    requires IsPlainRef(a) && IsPlainRef(b) && a != b && Readable(doneSha)
    ensures var subs := [MergeOf(a), MergeOf(b)];
      !Forced(subs) && !MergesOnePr(subs) && !GuardsEveryMerge(subs, doneSha)
  {
    var subs := [MergeOf(a), MergeOf(b)];
    NamesItsPr(a);
    NamesItsPr(b);
    hide HasMerge, ForcesMerge, NamedPr, MergeOf;
    FirstNamedPrIs(subs, 0);
    assert subs[0] in subs && subs[1] in subs;
    EveryMergeIsGuardedExactlyWhenOfOnePr(subs, doneSha);
  }

  /** A reference that needs no thought: not empty and no flag. */
  predicate IsPlainRef(pr: string) {
    pr != "" && !IsFlag(pr)
  }

  function MergeOf(pr: string): seq<string> {
    ["gh", "pr", "merge", pr]
  }

  lemma NamesItsPr(pr: string)
    requires IsPlainRef(pr)
    ensures HasMerge(MergeOf(pr)) && !ForcesMerge(MergeOf(pr)) && NamedPr(MergeOf(pr)) == Some(pr)
  {
    var tokens := MergeOf(pr);
    assert MergeAt(tokens, 0);
    assert [] + ["gh", "pr", "merge"] + [] + [pr] == tokens;
    NamedPrIs([], [], [pr]);
  }

  lemma TwoPhrasesReadBack(first: Phrase, second: Phrase, sep: Separator)
    requires IsPhrase(first) && IsPhrase(second) && first.words != [] && second.words != []
    ensures Lex(START, LineText([first, second], [sep])) == [Meanings(first.words), Meanings(second.words)]
  {
    var phrases := [first, second];
    TokenizerInvertsWriting(phrases, [sep]);
    hide Lex, LineText, IsPhrase, Meanings;
    assert phrases[1..] == [second] && phrases[1..][1..] == [];
    assert Subcommands(phrases[1..]) == [Meanings(second.words)] + Subcommands([]);
  }

  /** Tokens typed bare, one space behind each. */
  function Typed(lead: string, tokens: seq<string>): (p: Phrase) {
    Phrase(lead, seq(|tokens|, i requires 0 <= i < |tokens| => Spaced([Bare(tokens[i])], " ")))
  }

  lemma TypedIsAPhrase(lead: string, tokens: seq<string>)
    requires IsGap(lead)
    requires forall i :: 0 <= i < |tokens| ==> tokens[i] != "" && IsBare(tokens[i])
    ensures IsPhrase(Typed(lead, tokens)) && Meanings(Typed(lead, tokens).words) == tokens
  {
    hide IsBare;
    forall i | 0 <= i < |tokens| ensures Meaning(Typed(lead, tokens).words[i].word) == tokens[i] {
      var w := Typed(lead, tokens).words[i].word;
      assert w[1..] == [] && Meaning(w) == w[0].text + Meaning(w[1..]);
    }
  }

  const CHAIN := "gh pr merge 1 && gh pr merge 2 "

  /** As one would type it. */
  lemma TypedChainIsNotGuarded(doneSha: Option<string>)
    requires Readable(doneSha)
    ensures !GuardsEveryMerge(Lex(START, CHAIN), doneSha)
  {
    hide *;
    var first, second := Typed("", MergeOf("1")), Typed(" ", MergeOf("2"));
    ChainText();
    TypedMergeIsAPhrase("", "1");
    TypedMergeIsAPhrase(" ", "2");
    assert IsPlainRef("1") && IsPlainRef("2") by {
      hide *;
      DigitsArePlain();
    }
    ChainedMergesAreNotGuarded(first, second, AndIf, "1", "2", doneSha);
  }

  lemma DigitsArePlain()
    ensures IsPlainRef("1") && IsPlainRef("2")
  {
  }

  lemma TypedMergeIsAPhrase(lead: string, pr: string)
    requires lead in {"", " "} && pr in {"1", "2"}
    ensures IsPhrase(Typed(lead, MergeOf(pr))) && Meanings(Typed(lead, MergeOf(pr)).words) == MergeOf(pr)
  {
    TypedWordsAreBare();
    assert IsGap(lead);
    hide IsBare;
    TypedIsAPhrase(lead, MergeOf(pr));
  }

  lemma ChainText()
    ensures LineText([Typed("", MergeOf("1")), Typed(" ", MergeOf("2"))], [AndIf]) == CHAIN
  {
    TypedText("", "1");
    TypedText(" ", "2");
    TwoPhrasesText(Typed("", MergeOf("1")), Typed(" ", MergeOf("2")));
    hide PhraseText, Typed, MergeOf, LineText;
  }

  lemma TwoPhrasesText(first: Phrase, second: Phrase)
    ensures LineText([first, second], [AndIf]) == PhraseText(first) + ("&&" + PhraseText(second))
  {
    hide PhraseText;
    assert [first, second][1..] == [second] && [AndIf][1..] == [];
    assert LineText([second], []) == PhraseText(second);
  }

  lemma TypedWordsAreBare()
    ensures IsBare("gh") && IsBare("pr") && IsBare("merge") && IsBare("1") && IsBare("2")
  {
    forall text | text in {"gh", "pr", "merge", "1", "2"} ensures IsBare(text) {
      forall i | 0 <= i < |text| ensures IsBareAt(text, i) {
        assert text[i] in "ghprme12";
      }
    }
  }

  lemma BareWordText(w: WrittenWords.Word)
    requires |w| == 1 && w[0].Bare?
    ensures WordText(w) == w[0].text
  {
    assert w[1..] == [] && WordText(w) == PieceText(w[0]) + WordText(w[1..]);
  }

  lemma OneWordText(words: seq<Spaced>, k: nat)
    requires k < |words|
    ensures WordsText(words[k..]) == WordText(words[k].word) + (words[k].gap + WordsText(words[k + 1..]))
  {
    assert words[k..][1..] == words[k + 1..];
  }

  lemma FourTyped(lead: string, tokens: seq<string>)
    requires |tokens| == 4
    ensures PhraseText(Typed(lead, tokens)) ==
            lead + (tokens[0] + (" " + (tokens[1] + (" " + (tokens[2] + (" " + (tokens[3] + (" " + ""))))))))
  {
    var words := Typed(lead, tokens).words;
    forall k | 0 <= k < 4 ensures WordsText(words[k..]) == tokens[k] + (" " + WordsText(words[k + 1..])) {
      BareWordText(words[k].word);
      OneWordText(words, k);
    }
    assert words[4..] == [] && words[0..] == words;
    NoWordsText();
    hide WordsText, WordText;
  }

  lemma TypedText(lead: string, pr: string)
    ensures PhraseText(Typed(lead, MergeOf(pr))) == lead + ("gh pr merge " + (pr + " "))
  {
    FourTyped(lead, MergeOf(pr));
    hide PhraseText, Typed;
    assert " " + "" == " ";
    AppendIsAssociative("merge", " ", pr + " ");
    AppendIsAssociative("pr", " ", "merge " + (pr + " "));
    AppendIsAssociative("gh", " ", "pr " + ("merge " + (pr + " ")));
    SpelledOut(pr + " ");
  }

  lemma SpelledOut(rest: string)
    ensures "gh " + ("pr " + ("merge " + rest)) == "gh pr merge " + rest
  {
    AppendIsAssociative("pr ", "merge ", rest);
    AppendIsAssociative("gh ", "pr merge ", rest);
  }

  lemma NoWordsText()
    ensures WordsText([]) == ""
  {
  }

  // ----- end to end

  /** What the gate is for: the PR's checks are green, and at its head this call ran every Done command of every
      task to exit 0. */
  ghost predicate IsVerified(index: seq<ResolvedTask>, log: seq<DoneRow>, w: GateWorld, pr: PrRef) {
    ChecksAreGreen(w, pr) && HeadOf(w, pr).Some? && AllGreenAt(index, log, HeadOf(w, pr).value)
  }

  /** End to end: in any turn of any call that started from a coherent card, every merge let through is unforced, and
      it is of a verified PR if it is of the PR the gate read; so all the merges of a command are, when they are of one PR. */
  lemma AllowedMergeIsVerified(index: seq<ResolvedTask>, tasks0: seq<TaskRef>, doneSha0: Option<string>,
                               tasks: seq<TaskRef>, doneSha: Option<string>, turns: seq<Turn>, log: seq<DoneRow>,
                               k: nat, subs: seq<seq<string>>, w: GateWorld)
    requires Kept(index, tasks0, doneSha0, tasks, doneSha, turns, log) && Coherent(tasks0, doneSha0)
    requires k < |turns| && w.doneSha == turns[k].doneSha
    requires Allowed(subs, w)
    ensures forall sub :: sub in subs && HasMerge(sub) && MergedPr(sub) == JudgedPr(subs) ==>
              !ForcesMerge(sub) && IsVerified(index, log, w, MergedPr(sub))
    ensures MergesOnePr(subs) ==> forall sub :: sub in subs && HasMerge(sub) ==>
              !ForcesMerge(sub) && IsVerified(index, log, w, MergedPr(sub))
  {
    hide HasMerge, ForcesMerge, NamedPr, FirstNamedPr, ChecksAreGreen, AllGreenAt;
    var turn := turns[k];
    assert Verified(index, turn.doneSha, turn.log);
    LongerLogStaysGreen(index, turn.log, log[|turn.log|..], turn.doneSha.value);
    assert turn.log + log[|turn.log|..] == log;
  }

  /** Coherence is exactly what the guarantee needs of the card. A card whose `doneSha` survived an unpassed task (a
      task added by hand) is not re-run before its first turn, and the gate then lets that commit merge although this
      call has run nothing. */
  lemma FirstTurnIsGuardedExactlyWhenCoherent(index: seq<ResolvedTask>, tasks0: seq<TaskRef>, doneSha0: Option<string>,
                                              tasks: seq<TaskRef>, doneSha: Option<string>, turns: seq<Turn>, log: seq<DoneRow>)
    requires Kept(index, tasks0, doneSha0, tasks, doneSha, turns, log) && turns != []
    requires index != [] && index[0].doneCommands != []
    requires turns[0].doneSha.Some? ==> turns[0].doneSha.value != ""
    ensures Coherent(tasks0, doneSha0) <==>
            forall subs, w: GateWorld :: w.doneSha == turns[0].doneSha && Allowed(subs, w) ==>
              IsVerified(index, turns[0].log, w, JudgedPr(subs))
  {
    if Coherent(tasks0, doneSha0) {
      assert Verified(index, turns[0].doneSha, turns[0].log);
    } else {
      var done := turns[0].doneSha.value;
      var subs := [MergeOf("1")];
      var w := OnlyCleared(JudgedPr(subs), done);
      OnlyOneIsCleared(JudgedPr(subs), done, JudgedPr(subs));
      NamesItsPr("1");
      assert MergeOf("1") in subs;
      assert Allowed(subs, w);
      assert index[0] in index && index[0].doneCommands[0] in index[0].doneCommands;
      assert !GreenAt([], done, index[0].doneCommands[0]);
      assert !AllGreenAt(index, turns[0].log, done);
    }
  }
}
