/** What a ruling must be able to show before it is recorded (gaps/gap-rule.ts). */
module GapRuling {
  import opened Collections
  import opened JsText
  import opened GapEvents
  import opened Fingerprint

  datatype RuleOptions = RuleOptions(
    gap: string, disposition: Disposition, ratifiedBy: string, ref: Option<string>, debtSlug: Option<string>,
    check: Option<string>, description: Option<string>, c3Bin: Option<string>)

  datatype GrepRun = GrepRun(exitCode: int, lines: seq<string>)

  /** What the file system, `git grep` and the entity tool answer: the status lines before and after the entity was
      added, and how adding it and opening it ended. */
  datatype RuleWorld = RuleWorld(
    ruleFileExists: string -> bool, gitGrep: (string, seq<string>) -> GrepRun,
    statusBefore: seq<string>, addExit: int, setExit: int, statusAfter: seq<string>)

  datatype Refusal =
    | NotFound | AlreadyRuled | RefMissing | NoRuleFile | CheckMissing | SlugMissing | DescriptionMissing
    | CheckRejected(rejection: Rejection) | CheckMisshapen | CheckErrored | CheckSilent | C3BinMissing | AddFailed
    | OpenFailed | StrayPaths(paths: seq<string>)

  datatype RuleOutcome = Refused(reason: Refusal) | Recorded(baseline: Option<nat>)

  /** An option that is absent or empty counts as not given. */
  predicate Given(option: Option<string>) {
    option.Some? && option.value != ""
  }

  predicate RequiresRef(disposition: Disposition) {
    disposition in {Disposition.Rule, AntiRule, Debt}
  }

  function RulingOf(o: RuleOptions): GapEvent {
    Ruled(o.gap, o.disposition, if o.ref.Some? then o.ref.value else "", o.ratifiedBy)
  }

  /** The flags of a check are not passed on; its pattern and paths are. */
  function PatternAt(rest: seq<string>): (idx: nat)
    ensures idx <= |rest| && (forall i :: 0 <= i < idx ==> rest[i] != "" && rest[i][0] == '-')
    ensures idx < |rest| ==> rest[idx] == "" || rest[idx][0] != '-'
  {
    if rest != [] && rest[0] != "" && rest[0][0] == '-' then 1 + PatternAt(rest[1..]) else 0
  }

  /** A check names a pattern and at least one path behind its flags. */
  predicate IsShaped(tokens: seq<string>) {
    tokens != [] && PatternAt(tokens[1..]) + 1 < |tokens[1..]|
  }

  function GrepOf(tokens: seq<string>, w: RuleWorld): GrepRun
    requires IsShaped(tokens)
  {
    var rest := tokens[1..];
    w.gitGrep(rest[PatternAt(rest)], rest[PatternAt(rest) + 1..])
  }

  /** A check is run as its own pattern over its own paths, its flags left out; without a path it is misshapen. */
  lemma ChecksItsPatternAndPaths(name: string, flags: seq<string>, pattern: string, paths: seq<string>, w: RuleWorld)
    requires (forall f :: f in flags ==> f != "" && f[0] == '-') && (pattern == "" || pattern[0] != '-')
    ensures !IsShaped([name] + flags)
    ensures IsShaped([name] + flags + [pattern] + paths) <==> paths != []
    ensures paths != [] ==> GrepOf([name] + flags + [pattern] + paths, w) == w.gitGrep(pattern, paths)
  {
    var rest := flags + [pattern] + paths;
    assert ([name] + flags + [pattern] + paths)[1..] == rest && ([name] + flags)[1..] == flags;
    FlagsComeFirst(flags, [pattern] + paths);
    FlagsComeFirst(flags, []);
    assert rest == flags + ([pattern] + paths) && flags + [] == flags;
    assert rest[|flags| + 1..] == paths;
  }

  lemma FlagsComeFirst(flags: seq<string>, rest: seq<string>)
    requires forall f :: f in flags ==> f != "" && f[0] == '-'
    requires rest != [] ==> rest[0] == "" || rest[0][0] != '-'
    ensures PatternAt(flags + rest) == |flags|
  {
    var all := flags + rest;
    hide PatternAt;
    assert forall i :: 0 <= i < |flags| ==> all[i] == flags[i] && all[i] in flags;
    assert rest != [] ==> all[|flags|] == rest[0];
  }

  /** What the vetted check of these options finds. */
  function DebtGrep(o: RuleOptions, w: RuleWorld): GrepRun {
    if Given(o.check) && ValidateFingerprint(o.check.value).Valid? && IsShaped(Words(o.check.value))
    then GrepOf(Words(o.check.value), w) else GrepRun(0, [])
  }

  method RunDebtCheck(tokens: seq<string>, w: RuleWorld) returns (refusal: Option<Refusal>, hits: nat)
    requires tokens != []
    ensures refusal == CheckRefusal(tokens, w)
    ensures refusal.None? ==> hits == |GrepOf(tokens, w).lines|
  {
    var rest := tokens[1..];
    var idx := 0;
    while idx < |rest| && rest[idx] != "" && rest[idx][0] == '-'
      invariant 0 <= idx <= |rest| && PatternAt(rest) == idx + PatternAt(rest[idx..])
    {
      assert rest[idx..][1..] == rest[idx + 1..];
      idx := idx + 1;
    }
    if idx >= |rest| || |rest[idx + 1..]| == 0 {
      return Some(CheckMisshapen), 0;
    }
    var run := w.gitGrep(rest[idx], rest[idx + 1..]);
    if run.exitCode != 0 && run.exitCode != 1 {
      return Some(CheckErrored), 0;
    }
    if |run.lines| == 0 {
      return Some(CheckSilent), 0;
    }
    return None, |run.lines|;
  }

  function CheckRefusal(tokens: seq<string>, w: RuleWorld): Option<Refusal> {
    if !IsShaped(tokens) then Some(CheckMisshapen)
    else if GrepOf(tokens, w).exitCode !in {0, 1} then Some(CheckErrored)
    else if GrepOf(tokens, w).lines == [] then Some(CheckSilent)
    else None
  }

  // ----- the debt entity

  function EntityPath(slug: string): string {
    ".c3/documents/debt/debt-" + slug + ".md"
  }

  /** A porcelain status line is two letters, a space and the path. */
  function StatusPath(line: string): string {
    Trim(if |line| <= 3 then "" else line[3..])
  }

  lemma StatusNamesItsPath(x: char, y: char, path: string)
    requires path != "" && Trimmed(path)
    ensures StatusPath([x, y] + " " + path) == path
  {
    var line := [x, y] + " " + path;
    assert line[3..] == path;
  }

  predicate EndsWith(s: string, tail: string) {
    |tail| <= |s| && s[|s| - |tail|..] == tail
  }

  /** The entity itself, or a wholly new directory that holds it. */
  predicate IsEntityPath(path: string, entityPath: string) {
    path == entityPath || (EndsWith(path, "/") && path <= entityPath)
  }

  /** A line that was not there before and is neither the entity nor the tool's database. */
  predicate IsStray(line: string, before: seq<string>, entityPath: string) {
    line !in before && !IsEntityPath(StatusPath(line), entityPath) && !EndsWith(StatusPath(line), "c3.db")
  }

  function StrayOf(before: seq<string>, after: seq<string>, entityPath: string): (stray: seq<string>)
    ensures stray == [] <==> forall line :: line in after ==> !IsStray(line, before, entityPath)
  {
    if after == [] then []
    else
      var n := |after| - 1;
      assert after == after[..n] + [after[n]];
      StrayOf(before, after[..n], entityPath)
      + if IsStray(after[n], before, entityPath) then [StatusPath(after[n])] else []
  }

  method CreateDebtEntity(slug: string, w: RuleWorld) returns (refusal: Option<Refusal>)
    ensures refusal == EntityRefusal(slug, w)
  {
    if w.addExit != 0 {
      return Some(AddFailed);
    }
    if w.setExit != 0 {
      return Some(OpenFailed);
    }
    var stray: seq<string> := [];
    for i := 0 to |w.statusAfter|
      invariant stray == StrayOf(w.statusBefore, w.statusAfter[..i], EntityPath(slug))
    {
      hide IsStray, EntityPath, StatusPath;
      assert w.statusAfter[..i + 1][..i] == w.statusAfter[..i];
      if IsStray(w.statusAfter[i], w.statusBefore, EntityPath(slug)) {
        stray := stray + [StatusPath(w.statusAfter[i])];
      }
    }
    assert w.statusAfter[..|w.statusAfter|] == w.statusAfter;
    return if stray != [] then Some(StrayPaths(stray)) else None;
  }

  function EntityRefusal(slug: string, w: RuleWorld): Option<Refusal> {
    if w.addExit != 0 then Some(AddFailed)
    else if w.setExit != 0 then Some(OpenFailed)
    else
      var stray := StrayOf(w.statusBefore, w.statusAfter, EntityPath(slug));
      if stray != [] then Some(StrayPaths(stray)) else None
  }

  // ----- the steps between reading the ledger and appending to it

  /** What keeps a ruling from being recorded, in the order it is looked at. */
  function FirstRefusal(o: RuleOptions, w: RuleWorld): Option<Refusal> {
    if RequiresRef(o.disposition) && !Given(o.ref) then Some(RefMissing)
    else if RequiresRef(o.disposition) && !w.ruleFileExists(o.ref.value) then Some(NoRuleFile)
    else if o.disposition != Debt then None
    else if !Given(o.check) then Some(CheckMissing)
    else if !Given(o.debtSlug) then Some(SlugMissing)
    else if !Given(o.description) then Some(DescriptionMissing)
    else DebtRefusal(o.check.value, o.debtSlug.value, o.c3Bin, w)
  }

  /** What keeps a debt's check and entity from being accepted. */
  function DebtRefusal(check: string, slug: string, c3Bin: Option<string>, w: RuleWorld): Option<Refusal> {
    match ValidateFingerprint(check)
    case Rejected(rejection) => Some(CheckRejected(rejection))
    case Valid(tokens) =>
      if CheckRefusal(tokens, w).Some? then CheckRefusal(tokens, w)
      else if !Given(c3Bin) then Some(C3BinMissing)
      else EntityRefusal(slug, w)
  }

  method CheckPrerequisites(o: RuleOptions, w: RuleWorld) returns (refusal: Option<Refusal>, baseline: Option<nat>)
    ensures refusal == FirstRefusal(o, w)
    ensures refusal.None? <==> Prerequisites(o, w)
    ensures refusal.None? && o.disposition == Debt ==> baseline == Some(|DebtGrep(o, w).lines|)
    ensures refusal.Some? ==> refusal.value !in {NotFound, AlreadyRuled}
  {
    RefusedExactlyWithoutPrerequisites(o, w);
    hide Prerequisites, ValidateFingerprint, EntityRefusal, CheckRefusal;
    if RequiresRef(o.disposition) {
      if !Given(o.ref) {
        return Some(RefMissing), None;
      }
      if !w.ruleFileExists(o.ref.value) {
        return Some(NoRuleFile), None;
      }
    }
    if o.disposition != Debt {
      return None, None;
    }
    if !Given(o.check) {
      return Some(CheckMissing), None;
    }
    if !Given(o.debtSlug) {
      return Some(SlugMissing), None;
    }
    if !Given(o.description) {
      return Some(DescriptionMissing), None;
    }
    var validation := ValidateFingerprint(o.check.value);
    if validation.Rejected? {
      return Some(CheckRejected(validation.reason)), None;
    }
    var failed, hits := RunDebtCheck(validation.tokens, w);
    KindsOfRefusal(validation.tokens, o.debtSlug.value, w);
    if failed.Some? {
      return failed, None;
    }
    if !Given(o.c3Bin) {
      return Some(C3BinMissing), None;
    }
    refusal := CreateDebtEntity(o.debtSlug.value, w);
    baseline := Some(hits);
  }

  lemma KindsOfRefusal(tokens: seq<string>, slug: string, w: RuleWorld)
    ensures CheckRefusal(tokens, w).Some? ==> CheckRefusal(tokens, w).value !in {NotFound, AlreadyRuled}
    ensures CheckRefusal(tokens, w).None? ==> IsShaped(tokens)
    ensures EntityRefusal(slug, w).Some? ==> EntityRefusal(slug, w).value !in {NotFound, AlreadyRuled}
  {
  }

  /** What a recorded ruling points at: an existing rule where it names one; for a debt a vetted check that fires, and
      an entity whose creation touched nothing else. */
  predicate Prerequisites(o: RuleOptions, w: RuleWorld) {
    && (RequiresRef(o.disposition) ==> Given(o.ref) && w.ruleFileExists(o.ref.value))
    && (o.disposition == Debt ==>
          && Given(o.check) && Given(o.debtSlug) && Given(o.description) && Given(o.c3Bin)
          && CheckFires(o.check.value, w) && EntityIsClean(o.debtSlug.value, w))
  }

  predicate CheckFires(check: string, w: RuleWorld) {
    && (forall c :: c in check ==> c !in BANNED)
    && |Words(check)| >= 2 && Words(check)[0] == "grep" && IsShaped(Words(check))
    && GrepOf(Words(check), w).exitCode in {0, 1} && GrepOf(Words(check), w).lines != []
  }

  predicate EntityIsClean(slug: string, w: RuleWorld) {
    w.addExit == 0 && w.setExit == 0 && OnlyTheEntity(slug, w)
  }

  /** Every new status line is of the entity, of a new directory on the way to it, or of the tool's database. */
  predicate OnlyTheEntity(slug: string, w: RuleWorld) {
    forall line :: line in w.statusAfter && line !in w.statusBefore ==>
      var path, entity := StatusPath(line), ".c3/documents/debt/debt-" + slug + ".md";
      path == entity || (EndsWith(path, "/") && path <= entity) || EndsWith(path, "c3.db")
  }

  lemma RefusedExactlyWithoutPrerequisites(o: RuleOptions, w: RuleWorld)
    ensures FirstRefusal(o, w).None? <==> Prerequisites(o, w)
  {
    hide OnlyTheEntity, StatusPath, EndsWith, Words, IsShaped, GrepOf;
    if Given(o.check) && Given(o.debtSlug) {
      var v := ValidateFingerprint(o.check.value);
      EntityIsCleanWithoutRefusal(o.debtSlug.value, w);
    }
  }

  lemma EntityIsCleanWithoutRefusal(slug: string, w: RuleWorld)
    ensures EntityRefusal(slug, w).None? <==> EntityIsClean(slug, w)
  {
    hide StatusPath, EndsWith;
    var stray := StrayOf(w.statusBefore, w.statusAfter, EntityPath(slug));
  }

  /** What a ruling must show, in the order it is asked for, and what is refused without it. */
  datatype Demand =
    | NamesARule | RuleExists | HasCheck | HasSlug | HasDescription | CheckIsClean | CheckIsOneGrep | CheckIsShaped
    | CheckRan | CheckHit | HasC3Bin | EntityAdded | EntityOpened | NothingElseTouched

  function Rank(d: Demand): nat {
    match d
    case NamesARule => 0
    case RuleExists => 1
    case HasCheck => 2
    case HasSlug => 3
    case HasDescription => 4
    case CheckIsClean => 5
    case CheckIsOneGrep => 6
    case CheckIsShaped => 7
    case CheckRan => 8
    case CheckHit => 9
    case HasC3Bin => 10
    case EntityAdded => 11
    case EntityOpened => 12
    case NothingElseTouched => 13
  }

  function RefusalFor(d: Demand, o: RuleOptions, w: RuleWorld): Refusal {
    match d
    case NamesARule => RefMissing
    case RuleExists => NoRuleFile
    case HasCheck => CheckMissing
    case HasSlug => SlugMissing
    case HasDescription => DescriptionMissing
    case CheckIsClean => CheckRejected(ShellMetacharacters)
    case CheckIsOneGrep => CheckRejected(NotOneGrep)
    case CheckIsShaped => CheckMisshapen
    case CheckRan => CheckErrored
    case CheckHit => CheckSilent
    case HasC3Bin => C3BinMissing
    case EntityAdded => AddFailed
    case EntityOpened => OpenFailed
    case NothingElseTouched =>
      StrayPaths(StrayOf(w.statusBefore, w.statusAfter, EntityPath(if o.debtSlug.Some? then o.debtSlug.value else "")))
  }

  /** Only a debt must show more than a rule, and a dismissal nothing. */
  predicate IsMet(d: Demand, o: RuleOptions, w: RuleWorld) {
    var check := if o.check.Some? then o.check.value else "";
    match d
    case NamesARule => o.disposition in {Disposition.Rule, AntiRule, Debt} ==> o.ref.Some? && o.ref.value != ""
    case RuleExists => o.disposition in {Disposition.Rule, AntiRule, Debt} ==> o.ref.Some? && w.ruleFileExists(o.ref.value)
    case HasCheck => o.disposition == Debt ==> o.check.Some? && o.check.value != ""
    case HasSlug => o.disposition == Debt ==> o.debtSlug.Some? && o.debtSlug.value != ""
    case HasDescription => o.disposition == Debt ==> o.description.Some? && o.description.value != ""
    case CheckIsClean => o.disposition == Debt ==> forall c :: c in check ==> c !in BANNED
    case CheckIsOneGrep => o.disposition == Debt ==> |Words(check)| >= 2 && Words(check)[0] == "grep"
    case CheckIsShaped => o.disposition == Debt ==> IsShaped(Words(check))
    case CheckRan => o.disposition == Debt ==> IsShaped(Words(check)) && GrepOf(Words(check), w).exitCode in {0, 1}
    case CheckHit => o.disposition == Debt ==> IsShaped(Words(check)) && GrepOf(Words(check), w).lines != []
    case HasC3Bin => o.disposition == Debt ==> o.c3Bin.Some? && o.c3Bin.value != ""
    case EntityAdded => o.disposition == Debt ==> w.addExit == 0
    case EntityOpened => o.disposition == Debt ==> w.setExit == 0
    case NothingElseTouched => o.disposition == Debt ==> o.debtSlug.Some? && OnlyTheEntity(o.debtSlug.value, w)
  }

  /** A ruling is refused for the first demand that is not met, and for none if all are. */
  lemma RefusedForTheFirstUnmet(o: RuleOptions, w: RuleWorld, d: Demand)
    requires forall e :: Rank(e) < Rank(d) ==> IsMet(e, o, w)
    ensures !IsMet(d, o, w) ==> FirstRefusal(o, w) == Some(RefusalFor(d, o, w))
    ensures d.NothingElseTouched? && IsMet(d, o, w) ==> FirstRefusal(o, w) == None
  {
    hide Words, IsShaped, GrepOf, OnlyTheEntity, DebtRefusal, EntityPath;
    var n := Rank(d);
    assert (n > 0 ==> IsMet(NamesARule, o, w)) && (n > 1 ==> IsMet(RuleExists, o, w)) && (n > 2 ==> IsMet(HasCheck, o, w));
    assert (n > 3 ==> IsMet(HasSlug, o, w)) && (n > 4 ==> IsMet(HasDescription, o, w));
    if n > 4 && o.disposition == Debt {
      assert FirstRefusal(o, w) == DebtRefusal(o.check.value, o.debtSlug.value, o.c3Bin, w);
      hide FirstRefusal;
      DebtRefusedForTheFirstUnmet(o, w, d);
    }
  }

  lemma DebtRefusedForTheFirstUnmet(o: RuleOptions, w: RuleWorld, d: Demand)
    requires o.disposition == Debt && Given(o.check) && Given(o.debtSlug) && Rank(d) > 4
    requires forall e :: Rank(e) < Rank(d) ==> IsMet(e, o, w)
    ensures !IsMet(d, o, w) ==> DebtRefusal(o.check.value, o.debtSlug.value, o.c3Bin, w) == Some(RefusalFor(d, o, w))
    ensures d.NothingElseTouched? && IsMet(d, o, w) ==> DebtRefusal(o.check.value, o.debtSlug.value, o.c3Bin, w) == None
  {
    hide IsMet, DebtRefusal, RefusalFor;
    var n := Rank(d);
    assert (n > 5 ==> IsMet(CheckIsClean, o, w)) && (n > 6 ==> IsMet(CheckIsOneGrep, o, w)) && (n > 7 ==> IsMet(CheckIsShaped, o, w));
    assert (n > 8 ==> IsMet(CheckRan, o, w)) && (n > 9 ==> IsMet(CheckHit, o, w)) && (n > 10 ==> IsMet(HasC3Bin, o, w));
    assert (n > 11 ==> IsMet(EntityAdded, o, w)) && (n > 12 ==> IsMet(EntityOpened, o, w));
    if n >= 10 {
      AcceptedCheckLeavesTheEntity(o, w);
      EntityRefusedForTheFirstUnmet(o, w, d);
    } else if !IsMet(d, o, w) {
      CheckRefusedForTheFirstUnmet(o, w, d);
    }
  }

  lemma CheckRefusedForTheFirstUnmet(o: RuleOptions, w: RuleWorld, d: Demand)
    requires o.disposition == Debt && Given(o.check) && Given(o.debtSlug) && 4 < Rank(d) < 10
    requires Rank(d) > 5 ==> IsMet(CheckIsClean, o, w)
    requires Rank(d) > 6 ==> IsMet(CheckIsOneGrep, o, w)
    requires Rank(d) > 7 ==> IsMet(CheckIsShaped, o, w)
    requires Rank(d) > 8 ==> IsMet(CheckRan, o, w)
    requires !IsMet(d, o, w)
    ensures DebtRefusal(o.check.value, o.debtSlug.value, o.c3Bin, w) == Some(RefusalFor(d, o, w))
  {
    hide Words, IsShaped, GrepOf, EntityRefusal, EntityPath;
  }

  lemma EntityRefusedForTheFirstUnmet(o: RuleOptions, w: RuleWorld, d: Demand)
    requires o.disposition == Debt && Given(o.check) && Given(o.debtSlug) && Rank(d) >= 10
    requires DebtRefusal(o.check.value, o.debtSlug.value, o.c3Bin, w)
             == if Given(o.c3Bin) then EntityRefusal(o.debtSlug.value, w) else Some(C3BinMissing)
    requires Rank(d) > 10 ==> IsMet(HasC3Bin, o, w)
    requires Rank(d) > 11 ==> IsMet(EntityAdded, o, w)
    requires Rank(d) > 12 ==> IsMet(EntityOpened, o, w)
    ensures !IsMet(d, o, w) ==> DebtRefusal(o.check.value, o.debtSlug.value, o.c3Bin, w) == Some(RefusalFor(d, o, w))
    ensures d.NothingElseTouched? && IsMet(d, o, w) ==> DebtRefusal(o.check.value, o.debtSlug.value, o.c3Bin, w) == None
  {
    hide Words, IsShaped, GrepOf, OnlyTheEntity, EntityRefusal, EntityPath, DebtRefusal, StrayOf, IsStray, StatusPath;
    EntityRefusalIs(o.debtSlug.value, w);
  }

  lemma AcceptedCheckLeavesTheEntity(o: RuleOptions, w: RuleWorld)
    requires o.disposition == Debt && Given(o.check) && Given(o.debtSlug)
    requires IsMet(CheckIsClean, o, w) && IsMet(CheckIsOneGrep, o, w) && IsMet(CheckIsShaped, o, w)
    requires IsMet(CheckRan, o, w) && IsMet(CheckHit, o, w)
    ensures DebtRefusal(o.check.value, o.debtSlug.value, o.c3Bin, w)
            == if Given(o.c3Bin) then EntityRefusal(o.debtSlug.value, w) else Some(C3BinMissing)
  {
    hide Words, IsShaped, GrepOf, EntityRefusal, EntityPath;
  }

  lemma EntityRefusalIs(slug: string, w: RuleWorld)
    ensures EntityRefusal(slug, w) ==
            if w.addExit != 0 then Some(AddFailed)
            else if w.setExit != 0 then Some(OpenFailed)
            else if OnlyTheEntity(slug, w) then None
            else Some(StrayPaths(StrayOf(w.statusBefore, w.statusAfter, EntityPath(slug))))
  {
    hide StatusPath, EndsWith;
    var stray := StrayOf(w.statusBefore, w.statusAfter, EntityPath(slug));
  }

  /** The stray paths reported are those of the stray lines. */
  lemma {:induction false} StrayPathsAre(before: seq<string>, after: seq<string>, entityPath: string, path: string)
    ensures path in StrayOf(before, after, entityPath) <==>
              exists line :: line in after && IsStray(line, before, entityPath) && StatusPath(line) == path
    decreases |after|
  {
    hide IsStray, StatusPath;
    if after != [] {
      var n := |after| - 1;
      assert after == after[..n] + [after[n]];
      StrayPathsAre(before, after[..n], entityPath, path);
    }
  }
}
