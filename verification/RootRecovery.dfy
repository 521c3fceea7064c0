/** Recovering a missing project root: a plan, then two separate CASes while users keep publishing. */
module RootRecovery {
  import opened Text
  import opened ObjectStore
  import opened VersionHistory

  datatype Status = Empty | Healthy | CacheStale | Recoverable | Unrecoverable

  datatype Plan = Plan(
    projectId: string, currentRoot: Hash, currentRootHealthy: bool, currentRootScopeHash: Hash,
    recoveryRoot: Hash, sourceCommitId: CommitId, sourceCreatedAt: string)
  {
    function Status(): Status {
      if currentRoot == "" then Empty
      else if currentRootHealthy then
        if currentRootScopeHash == currentRoot then Healthy else CacheStale
      else if recoveryRoot != "" then Recoverable else Unrecoverable
    }

    predicate Applicable() { Status().Recoverable? || Status().CacheStale? }
  }

  predicate IsReadableTree(store: Store, h: Hash) {
    h != "" && IsTree(store, h)
  }

  function EntryRoot(e: LogEntry): Hash {
    if e.rootHash != "" then e.rootHash else e.root
  }

  // ---- Planning --------------------------------------------------------------------------

  function NewestWithRoot(log: seq<LogEntry>, root: Hash): Option<LogEntry> {
    if log == [] then None
    else if EntryRoot(log[|log| - 1]) == root then Some(log[|log| - 1])
    else NewestWithRoot(log[..|log| - 1], root)
  }

  function NewestReadable(log: seq<LogEntry>, store: Store, current: Hash): Option<LogEntry> {
    if log == [] then None
    else
      var h := EntryRoot(log[|log| - 1]);
      if h != "" && h != current && IsReadableTree(store, h) then Some(log[|log| - 1])
      else NewestReadable(log[..|log| - 1], store, current)
  }

  /** The plan made from three values that are read one after the other. */
  function PlanFrom(projectId: string, root: Hash, scopeHash: Hash, log: seq<LogEntry>, store: Store): Plan {
    if root == "" then Plan(projectId, root, false, "", "", "", "")
    else if IsReadableTree(store, root) then
      match NewestWithRoot(log, root)
      case Some(e) => Plan(projectId, root, true, scopeHash, root, e.commitId, e.createdAt)
      case None => Plan(projectId, root, true, scopeHash, root, "", "")
    else
      match NewestReadable(log, store, root)
      case Some(e) => Plan(projectId, root, false, scopeHash, EntryRoot(e), e.commitId, e.createdAt)
      case None => Plan(projectId, root, false, scopeHash, "", "", "")
  }

  /** The plan made from one state. */
  function PlanOf(projectId: string, s: State, store: Store, limit: int): Plan {
    PlanFrom(projectId, s.root, s.ScopeHash(""), Since(s.log, "", "", limit), store)
  }

  method PlanProjectRootRecovery(repo: HistoryManager, projectId: string, store: Store, historyLimit: int)
    returns (plan: Plan)
    ensures plan == PlanOf(projectId, repo.View(), store, historyLimit)
  {
    var currentRoot := repo.rootHash;
    var scopeHash, _ := repo.GetScopeState("");
    if currentRoot == "" {
      return Plan(projectId, currentRoot, false, "", "", "", "");
    }
    var entries := repo.GetSince("", "", historyLimit);
    var readable := IsReadableTree(store, currentRoot);
    var i := |entries|;
    assert entries[..i] == entries;
    while i > 0
      invariant 0 <= i <= |entries|
      invariant readable ==> NewestWithRoot(entries, currentRoot) == NewestWithRoot(entries[..i], currentRoot)
      invariant !readable ==>
                  NewestReadable(entries, store, currentRoot) == NewestReadable(entries[..i], store, currentRoot)
    {
      i := i - 1;
      assert entries[..i + 1][..i] == entries[..i];
      var e := entries[i];
      var h := EntryRoot(e);
      if readable && h == currentRoot {
        return Plan(projectId, currentRoot, true, scopeHash, currentRoot, e.commitId, e.createdAt);
      }
      if !readable && h != "" && h != currentRoot && IsReadableTree(store, h) {
        return Plan(projectId, currentRoot, false, scopeHash, h, e.commitId, e.createdAt);
      }
    }
    plan := Plan(projectId, currentRoot, readable, scopeHash, if readable then currentRoot else "", "", "");
  }

  lemma {:induction false} NewestReadableIs(log: seq<LogEntry>, store: Store, current: Hash) returns (i: int)
    requires !IsReadableTree(store, current)
    ensures -1 <= i < |log|
    ensures NewestReadable(log, store, current) == if i < 0 then None else Some(log[i])
    ensures i >= 0 ==> IsReadableTree(store, EntryRoot(log[i]))
    ensures forall j :: i < j < |log| ==> !IsReadableTree(store, EntryRoot(log[j]))
  {
    if log == [] {
      i := -1;
    } else if IsReadableTree(store, EntryRoot(log[|log| - 1])) {
      i := |log| - 1;
    } else {
      i := NewestReadableIs(log[..|log| - 1], store, current);
    }
  }

  /** A missing root is recoverable exactly if some listed root still decodes, and the newest such wins. */
  lemma PlanIsNewestReadable(projectId: string, root: Hash, scopeHash: Hash, log: seq<LogEntry>, store: Store)
    requires root != "" && !IsReadableTree(store, root)
    ensures var plan := PlanFrom(projectId, root, scopeHash, log, store);
            && (plan.Status().Recoverable? <==>
                exists i :: 0 <= i < |log| && IsReadableTree(store, EntryRoot(log[i])))
            && (plan.Status().Recoverable? ==>
                exists i :: 0 <= i < |log| && plan.recoveryRoot == EntryRoot(log[i])
                  && plan.sourceCommitId == log[i].commitId && IsReadableTree(store, EntryRoot(log[i]))
                  && forall j :: i < j < |log| ==> !IsReadableTree(store, EntryRoot(log[j])))
            && (!plan.Status().Recoverable? ==> plan.Status().Unrecoverable?)
  {
    var i := NewestReadableIs(log, store, root);
  }

  /** A recovery never puts back the missing root itself. */
  lemma PlanReplacesRoot(projectId: string, root: Hash, scopeHash: Hash, log: seq<LogEntry>, store: Store)
    ensures var plan := PlanFrom(projectId, root, scopeHash, log, store);
            plan.Status().Recoverable? ==>
              IsReadableTree(store, plan.recoveryRoot) && plan.recoveryRoot != plan.currentRoot
  {
    if root != "" && !IsReadableTree(store, root) {
      var i := NewestReadableIs(log, store, root);
    }
  }

  // ---- The plan, by log positions ------------------------------------------------------------

  /** The root an entry records: the fallback counts only where the first field is blank. */
  predicate Records(e: LogEntry, h: Hash) {
    h != "" && (e.rootHash == h || (e.rootHash == "" && e.root == h))
  }

  predicate RecordsReadable(e: LogEntry, store: Store) {
    var h := if e.rootHash != "" then e.rootHash else e.root;
    h != "" && h in store && store[h].Tree?
  }

  /** Where the entries that a planner with this limit reads begin: it reads the newest ones. */
  function FirstRead(log: seq<LogEntry>, limit: int): (from: nat)
    ensures from <= |log|
  {
    if 0 < limit <= |log| then |log| - limit else 0
  }

  /** Entry `i` is the newest one read that records root `h`, and the plan names it as its source. */
  ghost predicate SourceIs(plan: Plan, log: seq<LogEntry>, h: Hash, i: nat) {
    && i < |log| && Records(log[i], h)
    && plan.sourceCommitId == log[i].commitId && plan.sourceCreatedAt == log[i].createdAt
  }

  lemma {:induction false} NewestWithRootIs(log: seq<LogEntry>, root: Hash) returns (i: int)
    requires root != ""
    ensures -1 <= i < |log|
    ensures NewestWithRoot(log, root) == if i < 0 then None else Some(log[i])
    ensures i >= 0 ==> Records(log[i], root)
    ensures forall j :: i < j < |log| ==> !Records(log[j], root)
  {
    if log == [] {
      i := -1;
    } else if EntryRoot(log[|log| - 1]) == root {
      i := |log| - 1;
    } else {
      i := NewestWithRootIs(log[..|log| - 1], root);
    }
  }

  /** The source named is the newest entry from `from` on that records root `h`; it is blank if there is none. */
  ghost predicate NewestSource(plan: Plan, log: seq<LogEntry>, from: nat, h: Hash) {
    || (exists i: nat :: from <= i && SourceIs(plan, log, h, i) && forall j :: i < j < |log| ==> !Records(log[j], h))
    || (plan.sourceCommitId == plan.sourceCreatedAt == "" && forall j :: from <= j < |log| ==> !Records(log[j], h))
  }

  /** The recovery root and the source named come from the newest entry from `from` on that records a readable
      root. */
  ghost predicate NewestRecovery(plan: Plan, log: seq<LogEntry>, from: nat, store: Store) {
    exists i: nat ::
      && from <= i && SourceIs(plan, log, plan.recoveryRoot, i)
      && plan.recoveryRoot in store && store[plan.recoveryRoot].Tree?
      && forall j :: i < j < |log| ==> !RecordsReadable(log[j], store)
  }

  ghost predicate SomeReadable(log: seq<LogEntry>, from: nat, store: Store) {
    exists i :: from <= i < |log| && RecordsReadable(log[i], store)
  }

  lemma NewestWithRootFrom(log: seq<LogEntry>, from: nat, root: Hash) returns (i: int)
    requires root != "" && from <= |log|
    ensures i == -1 || from <= i < |log|
    ensures NewestWithRoot(log[from..], root) == if i < 0 then None else Some(log[i])
    ensures i >= 0 ==> Records(log[i], root)
    ensures forall j :: from <= j < |log| && i < j ==> !Records(log[j], root)
  {
    var k := NewestWithRootIs(log[from..], root);
    i := if k < 0 then -1 else from + k;
    forall j | from <= j < |log| && i < j ensures !Records(log[j], root) {
      assert log[j] == log[from..][j - from];
    }
  }

  lemma NewestReadableFrom(log: seq<LogEntry>, from: nat, store: Store, current: Hash) returns (i: int)
    requires !IsReadableTree(store, current) && from <= |log|
    ensures i == -1 || from <= i < |log|
    ensures NewestReadable(log[from..], store, current) == if i < 0 then None else Some(log[i])
    ensures i >= 0 ==> RecordsReadable(log[i], store) && Records(log[i], EntryRoot(log[i]))
    ensures i >= 0 ==> EntryRoot(log[i]) in store && store[EntryRoot(log[i])].Tree?
    ensures forall j :: from <= j < |log| && i < j ==> !RecordsReadable(log[j], store)
  {
    var k := NewestReadableIs(log[from..], store, current);
    i := if k < 0 then -1 else from + k;
    forall j | from <= j < |log| && i < j ensures !RecordsReadable(log[j], store) {
      assert log[j] == log[from..][j - from];
    }
  }

  /** The plan for a readable root: it stays, and the newest entry read that records it is the source. */
  lemma PlanKeepsRoot(projectId: string, s: State, store: Store, limit: int)
    requires s.root != "" && s.root in store && store[s.root].Tree?
    ensures var plan := PlanOf(projectId, s, store, limit);
            && plan.projectId == projectId && plan.currentRoot == plan.recoveryRoot == s.root
            && plan.currentRootScopeHash == s.ScopeHash("")
            && plan.Status() == (if s.ScopeHash("") == s.root then Healthy else CacheStale)
            && NewestSource(plan, s.log, FirstRead(s.log, limit), s.root)
  {
    var from := FirstRead(s.log, limit);
    SinceNewest(s.log, limit);
    var i := NewestWithRootFrom(s.log, from, s.root);
    KeepsSource(PlanOf(projectId, s, store, limit), s.log, from, s.root, i);
  }

  lemma KeepsSource(plan: Plan, log: seq<LogEntry>, from: nat, root: Hash, i: int)
    requires i == -1 || (from <= i < |log| && SourceIs(plan, log, root, i))
    requires i == -1 ==> plan.sourceCommitId == plan.sourceCreatedAt == ""
    requires forall j :: from <= j < |log| && i < j ==> !Records(log[j], root)
    ensures NewestSource(plan, log, from, root)
  {
  }

  /** The plan for a missing root, from the repository's own log: it is recoverable exactly if one of the newest
      `limit` entries records a readable root, and then the newest such entry gives the root, the commit and
      the time. */
  lemma PlanRecoversNewest(projectId: string, s: State, store: Store, limit: int)
    requires s.root != "" && !(s.root in store && store[s.root].Tree?)
    ensures var plan, from := PlanOf(projectId, s, store, limit), FirstRead(s.log, limit);
            && plan.projectId == projectId && plan.currentRoot == s.root
            && plan.currentRootScopeHash == s.ScopeHash("")
            && plan.Status() == (if SomeReadable(s.log, from, store) then Recoverable else Unrecoverable)
            && if SomeReadable(s.log, from, store) then NewestRecovery(plan, s.log, from, store)
               else plan.recoveryRoot == plan.sourceCommitId == plan.sourceCreatedAt == ""
  {
    var plan, from := PlanOf(projectId, s, store, limit), FirstRead(s.log, limit);
    SinceNewest(s.log, limit);
    var i := NewestReadableFrom(s.log, from, store, s.root);
    if i >= 0 {
      RecoversSource(plan, s.log, from, store, i);
    }
  }

  lemma RecoversSource(plan: Plan, log: seq<LogEntry>, from: nat, store: Store, i: nat)
    requires from <= i < |log| && SourceIs(plan, log, plan.recoveryRoot, i) && RecordsReadable(log[i], store)
    requires plan.recoveryRoot in store && store[plan.recoveryRoot].Tree?
    requires forall j :: from <= j < |log| && i < j ==> !RecordsReadable(log[j], store)
    ensures SomeReadable(log, from, store) && NewestRecovery(plan, log, from, store)
  {
  }

  /** Without a root there is nothing to plan. */
  lemma PlanOfNothing(projectId: string, s: State, store: Store, limit: int)
    requires s.root == ""
    ensures PlanOf(projectId, s, store, limit) == Plan(projectId, "", false, "", "", "", "")
    ensures PlanOf(projectId, s, store, limit).Status() == Empty
  {
  }

  // ---- Applying, one atomic step at a time -------------------------------------------------

  datatype Failure = WrongProject | RecoveryRootUnreadable

  datatype Pc = BeforeRootCas | BeforeScopeCas | BeforeAudit | Finished(ok: bool) | Raised(failure: Failure)

  datatype System = System(repo: State, pc: Pc)

  /** A user publishes, or the repairer takes its next step. */
  datatype Step = User(publish: Publish) | Repair

  /** The checks before the first CAS. */
  function Admit(plan: Plan, projectId: string, store: Store): Pc {
    if !plan.Applicable() then Finished(false)
    else if projectId != plan.projectId then Raised(WrongProject)
    else if !IsReadableTree(store, plan.recoveryRoot) then Raised(RecoveryRootUnreadable)
    else if plan.Status().Recoverable? then BeforeRootCas
    else BeforeScopeCas
  }

  function AuditEvent(plan: Plan): AuditEvent {
    RootRecovered(plan.currentRoot, plan.recoveryRoot, plan.sourceCommitId, plan.sourceCreatedAt,
                  plan.Status().Recoverable?)
  }

  function RepairStep(plan: Plan, y: System): System {
    match y.pc
    case BeforeRootCas =>
      if y.repo.root != plan.currentRoot then y.(pc := Finished(false))
      else System(CasRoot(y.repo, plan.currentRoot, plan.recoveryRoot), BeforeScopeCas)
    case BeforeScopeCas =>
      if y.repo.ScopeHash("") != plan.currentRootScopeHash then y.(pc := Finished(false))
      else System(CasScope(y.repo, "", plan.currentRootScopeHash, plan.recoveryRoot, plan.sourceCommitId),
                  BeforeAudit)
    case BeforeAudit =>
      System(y.repo.(audit := y.repo.audit + [AuditEvent(plan)]), Finished(true))
    case _ => y
  }

  function Next(plan: Plan, y: System, step: Step): System {
    match step
    case User(p) => y.(repo := PublishStep(y.repo, p))
    case Repair => RepairStep(plan, y)
  }

  function Exec(plan: Plan, y: System, trace: seq<Step>): System {
    if trace == [] then y else Next(plan, Exec(plan, y, trace[..|trace| - 1]), trace[|trace| - 1])
  }

  function Start(plan: Plan, projectId: string, store: Store, s: State): System {
    System(s, Admit(plan, projectId, store))
  }

  function ApplyAlone(plan: Plan, projectId: string, store: Store, s: State): System {
    RepairStep(plan, RepairStep(plan, RepairStep(plan, Start(plan, projectId, store, s))))
  }

  /** The tool itself, run with nobody else writing, takes exactly the repairer's steps. */
  method ApplyProjectRootRecovery(repo: HistoryManager, projectId: string, plan: Plan, store: Store)
    returns (outcome: Pc)
    modifies repo
    ensures System(repo.View(), outcome) == ApplyAlone(plan, projectId, store, old(repo.View()))
    ensures outcome.Finished? || outcome.Raised?
  {
    if !plan.Applicable() {
      return Finished(false);
    }
    if projectId != plan.projectId {
      return Raised(WrongProject);
    }
    if !IsReadableTree(store, plan.recoveryRoot) {
      return Raised(RecoveryRootUnreadable);
    }
    var rootChanged := plan.Status().Recoverable?;
    if rootChanged {
      var ok := repo.CasUpdateRootHash(plan.currentRoot, plan.recoveryRoot);
      if !ok {
        return Finished(false);
      }
    }
    var aligned := repo.CasUpdateScopeHash("", plan.currentRootScopeHash, plan.recoveryRoot, plan.sourceCommitId);
    if !aligned {
      return Finished(false);
    }
    repo.RecordAudit(RootRecovered(plan.currentRoot, plan.recoveryRoot, plan.sourceCommitId,
                                   plan.sourceCreatedAt, rootChanged));
    return Finished(true);
  }

  // ---- What applying leaves behind -------------------------------------------------------------

  /** Every way an undisturbed apply can end, from the plan and the state: each guard in turn, and what has been
      changed by then. A refused scope CAS comes too late to take the root back. */
  lemma AppliedCases(plan: Plan, projectId: string, store: Store, s: State, path: string)
    ensures var swaps := plan.currentRoot != "" && !plan.currentRootHealthy && plan.recoveryRoot != "";
            var aligns := plan.currentRoot != "" && plan.currentRootHealthy
                          && plan.currentRootScopeHash != plan.currentRoot;
            var readable := plan.recoveryRoot != "" && plan.recoveryRoot in store && store[plan.recoveryRoot].Tree?;
            var y := ApplyAlone(plan, projectId, store, s);
            if !swaps && !aligns then y == System(s, Finished(false))
            else if projectId != plan.projectId then y == System(s, Raised(WrongProject))
            else if !readable then y == System(s, Raised(RecoveryRootUnreadable))
            else if swaps && s.root != plan.currentRoot then y == System(s, Finished(false))
            else if s.ScopeHash("") != plan.currentRootScopeHash then
              y == System(s.(root := if swaps then plan.recoveryRoot else s.root), Finished(false))
            else
              && y.pc == Finished(true) && y.repo.root == (if swaps then plan.recoveryRoot else s.root)
              && y.repo.ScopeHash(path) == (if StripSlashes(path) == "" then plan.recoveryRoot else s.ScopeHash(path))
              && y.repo.ScopeHead(path)
                 == (if StripSlashes(path) == "" && plan.sourceCommitId != "" then plan.sourceCommitId
                     else s.ScopeHead(path))
              && y.repo.log == s.log && y.repo.head == s.head && y.repo.audited == s.audited
              && y.repo.audit == s.audit + [RootRecovered(plan.currentRoot, plan.recoveryRoot, plan.sourceCommitId,
                                                          plan.sourceCreatedAt, swaps)]
  {
    assert StripSlashes("") == "";
    if Admit(plan, projectId, store).BeforeRootCas? && s.root == plan.currentRoot {
      AlignedCases(plan, CasRoot(s, plan.currentRoot, plan.recoveryRoot), path);
    } else if Admit(plan, projectId, store).BeforeScopeCas? {
      AlignedCases(plan, s, path);
    }
  }

  /** The scope CAS and the audit. */
  lemma AlignedCases(plan: Plan, s: State, path: string)
    ensures var y := RepairStep(plan, RepairStep(plan, System(s, BeforeScopeCas)));
            if s.ScopeHash("") != plan.currentRootScopeHash then y == System(s, Finished(false))
            else
              && y.pc == Finished(true) && y.repo.root == s.root
              && y.repo.ScopeHash(path) == (if StripSlashes(path) == "" then plan.recoveryRoot else s.ScopeHash(path))
              && y.repo.ScopeHead(path)
                 == (if StripSlashes(path) == "" && plan.sourceCommitId != "" then plan.sourceCommitId
                     else s.ScopeHead(path))
              && y.repo.log == s.log && y.repo.head == s.head && y.repo.audited == s.audited
              && y.repo.audit == s.audit + [AuditEvent(plan)]
  {
    assert StripSlashes("") == "";
    CasEffect(s, "", plan.currentRootScopeHash, plan.recoveryRoot, plan.sourceCommitId, path);
  }

  /** The record names an entry of the log that holds the new root, or none if no entry read does. */
  ghost predicate SourceRecorded(e: VersionHistory.AuditEvent, log: seq<LogEntry>, from: nat, root: Hash) {
    e.RootRecovered? &&
    ((exists i: nat :: from <= i < |log| && Records(log[i], root)
        && e.sourceCommitId == log[i].commitId && e.sourceCreatedAt == log[i].createdAt)
     || (e.sourceCommitId == e.sourceCreatedAt == "" && forall i :: from <= i < |log| ==> !Records(log[i], root)))
  }

  /** The audit record of an undisturbed round, from the states before and after: the old root, the new root,
      whether they differ, and the log entry the new root comes from. */
  lemma AppliedRecord(projectId: string, store: Store, s: State, limit: int)
    requires PlanOf(projectId, s, store, limit).Applicable()
    ensures var plan := PlanOf(projectId, s, store, limit);
            var y := ApplyAlone(plan, projectId, store, s);
            && y.pc == Finished(true) && |y.repo.audit| == |s.audit| + 1 && y.repo.audit[..|s.audit|] == s.audit
            && var e := y.repo.audit[|s.audit|];
               && e.RootRecovered? && e.previousRoot == s.root && e.recoveredRoot == y.repo.root
               && (e.rootChanged <==> s.root != y.repo.root)
               && SourceRecorded(e, s.log, FirstRead(s.log, limit), y.repo.root)
  {
    var plan := PlanOf(projectId, s, store, limit);
    assert s.root != "";
    if s.root in store && store[s.root].Tree? {
      PlanKeepsRoot(projectId, s, store, limit);
    } else {
      PlanRecoversNewest(projectId, s, store, limit);
      PlanReplacesRoot(projectId, s.root, s.ScopeHash(""), Since(s.log, "", "", limit), store);
    }
    AppliedCases(plan, projectId, store, s, "");
  }

  /** In any interleaving: the only recovery recorded since the start stands at `k`. */
  ghost predicate OnlyRecordAt(audit: seq<VersionHistory.AuditEvent>, from: nat, k: nat) {
    && from <= k < |audit| && audit[k].RootRecovered?
    && forall j :: from <= j < |audit| && audit[j].RootRecovered? ==> j == k
  }

  lemma {:induction false} TrueIsRecorded(plan: Plan, start: System, trace: seq<Step>) returns (k: nat)
    requires start.pc != Finished(true) && Exec(plan, start, trace).pc == Finished(true)
    ensures OnlyRecordAt(Exec(plan, start, trace).repo.audit, |start.repo.audit|, k)
  {
    var front := trace[..|trace| - 1];
    var x := Exec(plan, start, front);
    AuditGrows(plan, start, front);
    if x.pc == Finished(true) {
      k := TrueIsRecorded(plan, start, front);
    } else {
      NoneRecorded(plan, start, front);
      k := |x.repo.audit|;
    }
  }

  lemma {:induction false} NoneRecorded(plan: Plan, start: System, trace: seq<Step>)
    requires start.pc != Finished(true) && Exec(plan, start, trace).pc != Finished(true)
    ensures var audit := Exec(plan, start, trace).repo.audit;
            forall j :: |start.repo.audit| <= j < |audit| ==> !audit[j].RootRecovered?
  {
    if trace != [] {
      NoneRecorded(plan, start, trace[..|trace| - 1]);
    }
  }

  /** In any interleaving the audit log only grows, and a recovery that is recorded is the planned one. */
  lemma {:induction false} RecordedIsPlanned(plan: Plan, start: System, trace: seq<Step>, k: nat)
    requires var audit := Exec(plan, start, trace).repo.audit;
             |start.repo.audit| <= k < |audit| && audit[k].RootRecovered?
    ensures var audit := Exec(plan, start, trace).repo.audit;
            && start.repo.audit <= audit
            && audit[k] == RootRecovered(plan.currentRoot, plan.recoveryRoot, plan.sourceCommitId,
                                         plan.sourceCreatedAt, plan.currentRoot != "" && !plan.currentRootHealthy
                                                               && plan.recoveryRoot != "")
  {
    var front := trace[..|trace| - 1];
    AuditGrows(plan, start, front);
    StepRecords(plan, Exec(plan, start, front), trace[|trace| - 1]);
    if k < |Exec(plan, start, front).repo.audit| {
      RecordedIsPlanned(plan, start, front, k);
    }
  }

  /** One step records at most one thing, and a recovery only as planned. */
  lemma StepRecords(plan: Plan, x: System, step: Step)
    ensures var before, after := x.repo.audit, Next(plan, x, step).repo.audit;
            && before <= after && |after| <= |before| + 1
            && (|after| > |before| && after[|before|].RootRecovered? ==>
                  after[|before|] == RootRecovered(plan.currentRoot, plan.recoveryRoot, plan.sourceCommitId,
                                                   plan.sourceCreatedAt, plan.currentRoot != ""
                                                     && !plan.currentRootHealthy && plan.recoveryRoot != ""))
  {
  }

  lemma {:induction false} AuditGrows(plan: Plan, start: System, trace: seq<Step>)
    ensures start.repo.audit <= Exec(plan, start, trace).repo.audit
  {
    if trace != [] {
      AuditGrows(plan, start, trace[..|trace| - 1]);
    }
  }

  // ---- Safety over every interleaving ------------------------------------------------------

  /** The root-scope hash an accepted publish leaves behind. */
  function InstalledRootScopeHash(p: Publish): Hash {
    if p.Scope() == "" then p.AcceptedScopeHash() else p.newRoot
  }

  /** No user brings back the root-scope hash the plan saw. */
  ghost predicate NoStaleReinstall(plan: Plan, trace: seq<Step>) {
    forall i :: 0 <= i < |trace| && trace[i].User? ==>
      InstalledRootScopeHash(trace[i].publish) != plan.currentRootScopeHash
  }

  /** No user publishes the very root that was found missing. */
  ghost predicate NoRootReinstall(plan: Plan, trace: seq<Step>) {
    forall i :: 0 <= i < |trace| && trace[i].User? ==> trace[i].publish.newRoot != plan.currentRoot
  }

  predicate ScopeCasSucceeds(plan: Plan, y: System) {
    y.pc.BeforeScopeCas? && RepairStep(plan, y).pc.BeforeAudit?
  }

  predicate Recovered(plan: Plan, s: State) {
    s.root == plan.recoveryRoot && s.ScopeHash("") == plan.recoveryRoot
  }

  /** Whenever the scope CAS succeeds, root and root-scope hash both become the recovery root. */
  ghost predicate SafeFrom(plan: Plan, projectId: string, store: Store, s: State) {
    forall trace :: NoStaleReinstall(plan, trace) ==> SafeAfter(plan, Start(plan, projectId, store, s), trace)
  }

  predicate SafeAfter(plan: Plan, start: System, trace: seq<Step>) {
    var y := Exec(plan, start, trace);
    ScopeCasSucceeds(plan, y) ==> Recovered(plan, RepairStep(plan, y).repo)
  }

  /** What the planner guarantees about the plans it returns. */
  predicate Planned(plan: Plan) {
    plan.currentRootHealthy ==> plan.recoveryRoot == plan.currentRoot
  }

  /** The root the repairer expects to find, as long as no publish has been accepted. */
  function ExpectedRoot(plan: Plan, s: State, pc: Pc): Hash {
    if pc.BeforeScopeCas? && plan.Status().Recoverable? then plan.recoveryRoot else s.root
  }

  /** Before its last CAS the repairer either runs undisturbed, or will be refused. */
  ghost predicate Undecided(plan: Plan, s: State, y: System) {
    (y.pc.BeforeRootCas? || y.pc.BeforeScopeCas?) ==>
      if y.repo.log == s.log
      then y.repo.root == ExpectedRoot(plan, s, y.pc) && y.repo.ScopeHash("") == s.ScopeHash("")
      else y.repo.ScopeHash("") != plan.currentRootScopeHash
  }

  lemma {:induction false} UndecidedAlways(plan: Plan, projectId: string, store: Store, s: State, trace: seq<Step>)
    requires plan.Applicable() ==> plan.currentRootScopeHash == s.ScopeHash("")
    requires NoStaleReinstall(plan, trace)
    ensures var y := Exec(plan, Start(plan, projectId, store, s), trace);
            && Undecided(plan, s, y) && s.log <= y.repo.log
            && (y.pc.BeforeRootCas? ==> plan.Status().Recoverable?)
            && (plan.Applicable() || y.pc == Finished(false))
  {
    if trace != [] {
      var front, step := trace[..|trace| - 1], trace[|trace| - 1];
      UndecidedAlways(plan, projectId, store, s, front);
      var x := Exec(plan, Start(plan, projectId, store, s), front);
      if step.User? && Accepts(x.repo, step.publish) {
        assert StripSlashes("") == "";
        assert PublishStep(x.repo, step.publish).ScopeHash("") == InstalledRootScopeHash(step.publish);
        assert |PublishStep(x.repo, step.publish).log| > |s.log|;
      }
    }
  }

  /** For a plan whose scope hash was read in `s`, applying it is safe in every interleaving exactly
      if it restores the root by CAS, or its root was still current when the scope hash was read. */
  lemma SafeIff(plan: Plan, projectId: string, store: Store, s: State)
    requires Planned(plan) && plan.currentRootScopeHash == s.ScopeHash("")
    requires Admit(plan, projectId, store).BeforeRootCas? || Admit(plan, projectId, store).BeforeScopeCas?
    ensures SafeFrom(plan, projectId, store, s) <==> plan.Status().Recoverable? || plan.currentRoot == s.root
  {
    var start := Start(plan, projectId, store, s);
    if plan.Status().Recoverable? || plan.currentRoot == s.root {
      forall trace | NoStaleReinstall(plan, trace) ensures SafeAfter(plan, start, trace) {
        UndecidedAlways(plan, projectId, store, s, trace);
        var y := Exec(plan, start, trace);
        if ScopeCasSucceeds(plan, y) {
          ScopeCasInstalls(plan, y);
        }
      }
    } else {
      ScopeCasInstalls(plan, start);
      assert Exec(plan, start, []) == start;
      assert NoStaleReinstall(plan, []) && !SafeAfter(plan, start, []);
    }
  }

  lemma ScopeCasInstalls(plan: Plan, y: System)
    requires y.pc.BeforeScopeCas?
    ensures var z := RepairStep(plan, y);
            ScopeCasSucceeds(plan, y) ==>
              && y.repo.ScopeHash("") == plan.currentRootScopeHash
              && z.repo.root == y.repo.root && z.repo.ScopeHash("") == plan.recoveryRoot
              && z.repo.log == y.repo.log && z.repo.audit == y.repo.audit
  {
    assert StripSlashes("") == "";
  }

  /** A one-snapshot plan: a True result went through a scope CAS that left root and root-scope hash
      at the recovery root, with no publish accepted since the plan was made. */
  lemma {:induction false} TrueMeansRecovered(plan: Plan, projectId: string, store: Store, s: State, limit: int,
                                              trace: seq<Step>)
    returns (k: nat)
    requires plan == PlanOf(projectId, s, store, limit) && NoStaleReinstall(plan, trace)
    requires var y := Exec(plan, Start(plan, projectId, store, s), trace);
             y.pc.BeforeAudit? || y.pc == Finished(true)
    ensures k < |trace| && trace[k].Repair?
    ensures var y := Exec(plan, Start(plan, projectId, store, s), trace[..k]);
            && ScopeCasSucceeds(plan, y)
            && Recovered(plan, RepairStep(plan, y).repo) && RepairStep(plan, y).repo.log == s.log
  {
    var start := Start(plan, projectId, store, s);
    var n := |trace| - 1;
    var front := trace[..n];
    var x := Exec(plan, start, front);
    if x.pc.BeforeAudit? || x.pc == Finished(true) {
      k := TrueMeansRecovered(plan, projectId, store, s, limit, front);
      assert trace[..k] == front[..k];
    } else {
      k := n;
      UndecidedAlways(plan, projectId, store, s, front);
      assert x.pc.BeforeScopeCas?;
      ScopeCasInstalls(plan, x);
    }
  }

  /** Step `k` was the root CAS, made when the log was `log`: it took the root from a publish accepted since
      the plan. */
  predicate TakenAt(plan: Plan, start: System, trace: seq<Step>, k: nat, log: seq<LogEntry>) {
    && k < |trace| && trace[k].Repair?
    && var x := Exec(plan, start, trace[..k]);
       && x.pc.BeforeRootCas? && x.repo.root == plan.currentRoot
       && x.repo.log != start.repo.log && x.repo.log == log
  }

  ghost predicate TakenWith(plan: Plan, start: System, trace: seq<Step>, log: seq<LogEntry>) {
    exists k: nat :: TakenAt(plan, start, trace, k, log)
  }

  /** The root CAS took a publish's root, and no publish has been accepted since. */
  ghost predicate Taken(plan: Plan, start: System, trace: seq<Step>) {
    TakenWith(plan, start, trace, Exec(plan, start, trace).repo.log)
  }

  lemma {:induction false} ExecLogGrows(plan: Plan, start: System, trace: seq<Step>, k: nat)
    requires k <= |trace|
    ensures Exec(plan, start, trace[..k]).repo.log <= Exec(plan, start, trace).repo.log
    decreases |trace|
  {
    if k < |trace| {
      var front := trace[..|trace| - 1];
      ExecLogGrows(plan, start, front, k);
      assert front[..k] == trace[..k];
      NextLogGrows(plan, Exec(plan, start, front), trace[|trace| - 1]);
    } else {
      assert trace[..k] == trace;
    }
  }

  lemma NextLogGrows(plan: Plan, y: System, step: Step)
    ensures y.repo.log <= Next(plan, y, step).repo.log
  {
  }

  /** A newly accepted publish gives the root back. */
  lemma NotTakenAfterPublish(plan: Plan, start: System, trace: seq<Step>)
    requires trace != []
    requires var n := |trace| - 1;
             |Exec(plan, start, trace).repo.log| > |Exec(plan, start, trace[..n]).repo.log|
    ensures !Taken(plan, start, trace)
  {
    var n := |trace| - 1;
    forall k: nat ensures !TakenAt(plan, start, trace, k, Exec(plan, start, trace).repo.log) {
      if k < |trace| {
        ExecLogGrows(plan, start, trace[..n], k);
        assert trace[..n][..k] == trace[..k];
      }
    }
  }

  lemma TakenInFront(plan: Plan, start: System, trace: seq<Step>, k: nat, log: seq<LogEntry>)
    requires k < |trace| - 1
    ensures TakenAt(plan, start, trace, k, log) <==> TakenAt(plan, start, trace[..|trace| - 1], k, log)
  {
    assert trace[..|trace| - 1][..k] == trace[..k];
  }

  lemma TakenOneMore(plan: Plan, start: System, trace: seq<Step>, log: seq<LogEntry>)
    requires trace != []
    ensures var n := |trace| - 1;
            TakenWith(plan, start, trace, log) <==>
            TakenWith(plan, start, trace[..n], log) || TakenAt(plan, start, trace, n, log)
  {
    var n := |trace| - 1;
    forall k: nat | k < n
      ensures TakenAt(plan, start, trace, k, log) <==> TakenAt(plan, start, trace[..n], k, log)
    {
      TakenInFront(plan, start, trace, k, log);
    }
    if TakenWith(plan, start, trace[..n], log) {
      var k: nat :| TakenAt(plan, start, trace[..n], k, log);
      assert TakenAt(plan, start, trace, k, log);
    }
    if TakenWith(plan, start, trace, log) {
      var k: nat :| TakenAt(plan, start, trace, k, log);
      assert k < n ==> TakenAt(plan, start, trace[..n], k, log);
    }
  }

  /** In any interleaving at all with a publish accepted since the plan: the root is the last accepted
      publish's, unless the root CAS found that publish to have brought back the very root the plan names
      and nobody has published since. */
  lemma {:induction false} PublishWinsIff(plan: Plan, start: System, trace: seq<Step>)
    requires plan.recoveryRoot != plan.currentRoot || !start.pc.BeforeRootCas?
    ensures var y := Exec(plan, start, trace);
            && (y.pc.BeforeRootCas? ==> start.pc.BeforeRootCas? && !Taken(plan, start, trace))
            && (y.repo.log != start.repo.log ==>
                  (y.repo.root == LastRoot(y.repo.log) <==> !Taken(plan, start, trace)))
  {
    if trace == [] {
      assert forall k: nat :: !TakenAt(plan, start, trace, k, start.repo.log);
    } else {
      var n := |trace| - 1;
      var x, step := Exec(plan, start, trace[..n]), trace[n];
      PublishWinsIff(plan, start, trace[..n]);
      if step.User? && Accepts(x.repo, step.publish) {
        NotTakenAfterPublish(plan, start, trace);
        assert LastRoot(PublishStep(x.repo, step.publish).log) == step.publish.newRoot;
      } else {
        TakenOneMore(plan, start, trace, x.repo.log);
        assert trace[..n] == trace[..|trace| - 1];
      }
    }
  }

  /** So it takes a user who publishes the missing root itself. */
  lemma {:induction false} OnlyReinstallTakes(plan: Plan, start: System, trace: seq<Step>)
    requires NoRootReinstall(plan, trace)
    ensures var y := Exec(plan, start, trace);
            y.pc.BeforeRootCas? && y.repo.log != start.repo.log ==> y.repo.root != plan.currentRoot
    ensures !Taken(plan, start, trace)
  {
    if trace == [] {
      assert forall k: nat :: !TakenAt(plan, start, trace, k, start.repo.log);
    } else {
      var n := |trace| - 1;
      var x, step := Exec(plan, start, trace[..n]), trace[n];
      OnlyReinstallTakes(plan, start, trace[..n]);
      if step.User? && Accepts(x.repo, step.publish) {
        NotTakenAfterPublish(plan, start, trace);
      } else {
        TakenOneMore(plan, start, trace, x.repo.log);
      }
    }
  }

  ghost predicate AllAligned(trace: seq<Step>) {
    forall i :: 0 <= i < |trace| && trace[i].User? ==> Aligned(trace[i].publish)
  }

  /** In the ordinary case, where the plan saw root and root-scope hash agree and users keep them so, not
      bringing back the stale hash already means not bringing back the missing root. */
  lemma AgreedPlanIsEnough(plan: Plan, trace: seq<Step>)
    requires plan.currentRootScopeHash == plan.currentRoot && AllAligned(trace) && NoStaleReinstall(plan, trace)
    ensures NoRootReinstall(plan, trace)
  {
    forall i | 0 <= i < |trace| && trace[i].User? ensures trace[i].publish.newRoot != plan.currentRoot {
      assert InstalledRootScopeHash(trace[i].publish) == trace[i].publish.newRoot;
    }
  }

  /** Then a publish accepted since the plan keeps the root, at every moment of every interleaving. */
  lemma PublishWins(plan: Plan, start: System, trace: seq<Step>)
    requires plan.recoveryRoot != plan.currentRoot || !start.pc.BeforeRootCas?
    requires plan.currentRootScopeHash == plan.currentRoot && AllAligned(trace) && NoStaleReinstall(plan, trace)
    ensures var y := Exec(plan, start, trace); y.repo.log != start.repo.log ==> y.repo.root == LastRoot(y.repo.log)
  {
    AgreedPlanIsEnough(plan, trace);
    OnlyReinstallTakes(plan, start, trace);
    PublishWinsIff(plan, start, trace);
  }

  /** Outside the ordinary case the root can be taken: the root-scope hash was stale, and a user publishes
      the missing root once more. Apply answers False, but the root is the recovery root. */
  lemma RootReinstallTakesRoot() returns (s: State, plan: Plan, store: Store, trace: seq<Step>)
    ensures plan == PlanOf("p", s, store, 0) && plan.Status().Recoverable?
    ensures |trace| == 3 && trace[0].User? && AllAligned(trace) && NoStaleReinstall(plan, trace)
    ensures var y := Exec(plan, Start(plan, "p", store, s), trace);
            && y.pc == Finished(false) && y.repo.log != s.log
            && y.repo.root == plan.recoveryRoot != LastRoot(y.repo.log)
  {
    s, store, plan := TwoRoots("r0");
    var p := Publish("r1", "r1", "c3", "", "", "", "", "");
    trace := [User(p), Repair, Repair];
    assert InstalledRootScopeHash(p) == "r1";
    ExecThree(plan, Start(plan, "p", store, s), User(p), Repair, Repair);
  }

  /** A project with a missing root and an older readable one. */
  lemma TwoRoots(scopeHash: Hash) returns (s: State, store: Store, plan: Plan)
    ensures s.root == "r1" && s.ScopeHash("") == scopeHash && LastRoot(s.log) == "r1" && s.head == LastCommit(s.log)
    ensures plan == PlanOf("p", s, store, 0) == Plan("p", "r1", false, scopeHash, "r2", "c1", "")
    ensures IsReadableTree(store, "r2")
  {
    var e2, e1 := LogEntry("c1", "", "r2", "r2", "r2", ""), LogEntry("c2", "", "r1", scopeHash, "r1", "");
    s := State("r1", "c2", map["" := scopeHash], map["" := "c2"], [e2, e1], false, []);
    store := map["r2" := Tree([])];
    assert StripSlashes("") == "" && [e2, e1][..1] == [e2];
    assert Since(s.log, "", "", 0) == s.log;
    assert NewestReadable(s.log, store, "r1") == NewestReadable([e2], store, "r1") == Some(e2);
    plan := PlanOf("p", s, store, 0);
  }

  lemma ExecThree(plan: Plan, y: System, a: Step, b: Step, c: Step)
    ensures Exec(plan, y, [a, b, c]) == Next(plan, Next(plan, Next(plan, y, a), b), c)
  {
    assert [a, b, c][..2] == [a, b] && [a, b][..1] == [a] && [a][..0] == [];
    assert Exec(plan, y, [a]) == Next(plan, y, a);
    assert Exec(plan, y, [a, b]) == Next(plan, Exec(plan, y, [a]), b);
  }

  /** After a publish lands before the scope CAS, no continuation ends in True or records the recovery. */
  lemma {:induction false} NoTrueAfterPublish(plan: Plan, projectId: string, store: Store, s: State, trace: seq<Step>,
                                              more: seq<Step>)
    requires plan.currentRootScopeHash == s.ScopeHash("")
    requires NoStaleReinstall(plan, trace + more)
    requires var y := Exec(plan, Start(plan, projectId, store, s), trace);
             (y.pc.BeforeRootCas? || y.pc.BeforeScopeCas?) && y.repo.log != s.log
    ensures var y := Exec(plan, Start(plan, projectId, store, s), trace);
            var z := Exec(plan, Start(plan, projectId, store, s), trace + more);
            && (z.pc.BeforeRootCas? || z.pc.BeforeScopeCas? || z.pc == Finished(false))
            && RecoveryRecords(z.repo.audit) == RecoveryRecords(y.repo.audit)
    decreases |more|
  {
    var start := Start(plan, projectId, store, s);
    if more == [] {
      assert trace + more == trace;
    } else {
      var less, step := more[..|more| - 1], more[|more| - 1];
      assert trace + more == (trace + less) + [step];
      NoStaleBefore(plan, trace + less, [step]);
      NoTrueAfterPublish(plan, projectId, store, s, trace, less);
      UndecidedAlways(plan, projectId, store, s, trace + less);
      LogStaysAhead(plan, start, trace, less);
      RefusedStays(plan, Exec(plan, start, trace + less), step);
      ExecOne(plan, start, trace + less, step);
    }
  }

  lemma ExecOne(plan: Plan, start: System, trace: seq<Step>, step: Step)
    ensures Exec(plan, start, trace + [step]) == Next(plan, Exec(plan, start, trace), step)
  {
    assert (trace + [step])[..|trace|] == trace;
  }

  /** A repairer that the scope CAS would refuse does not get through in one more step. */
  lemma RefusedStays(plan: Plan, x: System, step: Step)
    requires x.pc.BeforeRootCas? || x.pc.BeforeScopeCas? || x.pc == Finished(false)
    requires x.pc.BeforeScopeCas? ==> x.repo.ScopeHash("") != plan.currentRootScopeHash
    ensures var z := Next(plan, x, step);
            && (z.pc.BeforeRootCas? || z.pc.BeforeScopeCas? || z.pc == Finished(false))
            && RecoveryRecords(z.repo.audit) == RecoveryRecords(x.repo.audit)
  {
    if step.User? {
      PublishAudits(x.repo, step.publish);
    }
  }

  lemma NoStaleBefore(plan: Plan, a: seq<Step>, b: seq<Step>)
    requires NoStaleReinstall(plan, a + b)
    ensures NoStaleReinstall(plan, a)
  {
    forall i | 0 <= i < |a| && a[i].User? ensures InstalledRootScopeHash(a[i].publish) != plan.currentRootScopeHash {
      assert (a + b)[i] == a[i];
    }
  }

  lemma LogStaysAhead(plan: Plan, start: System, a: seq<Step>, b: seq<Step>)
    requires Exec(plan, start, a).repo.log != start.repo.log
    ensures Exec(plan, start, a + b).repo.log != start.repo.log
  {
    ExecLogGrows(plan, start, a, 0);
    assert a[..0] == [];
    ExecLogGrows(plan, start, a + b, |a|);
    assert (a + b)[..|a|] == a;
  }

  lemma PublishAudits(s: State, p: Publish)
    ensures RecoveryRecords(PublishStep(s, p).audit) == RecoveryRecords(s.audit)
  {
    assert (s.audit + [Published(p.eventType)])[..|s.audit|] == s.audit;
  }

  function RecoveryRecords(audit: seq<VersionHistory.AuditEvent>): nat {
    if audit == [] then 0
    else RecoveryRecords(audit[..|audit| - 1]) + if audit[|audit| - 1].RootRecovered? then 1 else 0
  }

  /** In any interleaving at all, the recovery is audited exactly when both CASes succeeded. */
  lemma {:induction false} AuditedIffTrue(plan: Plan, start: System, trace: seq<Step>)
    requires start.pc != Finished(true)
    ensures var y := Exec(plan, start, trace);
            RecoveryRecords(y.repo.audit) ==
            RecoveryRecords(start.repo.audit) + if y.pc == Finished(true) then 1 else 0
  {
    if trace != [] {
      var front, step := trace[..|trace| - 1], trace[|trace| - 1];
      AuditedIffTrue(plan, start, front);
      AuditStep(plan, Exec(plan, start, front), step);
    }
  }

  /** Recovery records less a true answer: no step changes the difference. */
  lemma AuditStep(plan: Plan, x: System, step: Step)
    ensures var y := Next(plan, x, step);
            RecoveryRecords(y.repo.audit) - (if y.pc == Finished(true) then 1 else 0) ==
            RecoveryRecords(x.repo.audit) - (if x.pc == Finished(true) then 1 else 0)
  {
    var event := if step.User? then Published(step.publish.eventType) else AuditEvent(plan);
    assert (x.repo.audit + [event])[..|x.repo.audit|] == x.repo.audit;
  }

  /** A publish between the two reads of a healthy store makes a plan that is applied, reports True,
      and leaves the root-scope hash behind the root. */
  lemma TornReadBreaks() returns (s: State, p: Publish, plan: Plan, store: Store)
    ensures Agrees(s) && Aligned(p) && Accepts(s, p)
    ensures plan == PlanFrom("p", s.root, PublishStep(s, p).ScopeHash(""), PublishStep(s, p).log, store)
    ensures var z := ApplyAlone(plan, "p", store, PublishStep(s, p));
            z.pc == Finished(true) && !Agrees(z.repo) && !Recovered(plan, z.repo)
  {
    var e := LogEntry("c1", "", "r1", "r1", "r1", "");
    s := State("r1", "c1", map["" := "r1"], map["" := "c1"], [e], false, []);
    p := Publish("r1", "r2", "c2", "", "", "", "", "");
    store := map["r1" := Tree([]), "r2" := Tree([])];
    assert StripSlashes("") == "";
    PublishAgreesIff(s, p);
    var t := PublishStep(s, p);
    assert t.root == "r2" && t.ScopeHash("") == "r2";
    plan := PlanFrom("p", s.root, t.ScopeHash(""), t.log, store);
    assert plan.Status() == CacheStale;
  }

  /** The log at the moment the repairer turned to its scope CAS. */
  function TurnLog(plan: Plan, start: System, trace: seq<Step>): seq<LogEntry> {
    if trace == [] || !Exec(plan, start, trace[..|trace| - 1]).pc.BeforeScopeCas?
    then Exec(plan, start, trace).repo.log
    else TurnLog(plan, start, trace[..|trace| - 1])
  }

  /** What the scope CAS finds: the root is the recovery root until the next publish is accepted, and the
      root-scope hash is the planned one until the first. */
  lemma {:induction false} BeforeScopeCasFinds(plan: Plan, start: System, trace: seq<Step>)
    requires plan.currentRootScopeHash == start.repo.ScopeHash("")
    requires start.pc.BeforeRootCas? || (start.pc.BeforeScopeCas? && start.repo.root == plan.recoveryRoot)
    ensures var y := Exec(plan, start, trace);
            && start.repo.log <= y.repo.log
            && (y.pc.BeforeRootCas? || y.pc.BeforeScopeCas? ==>
                  y.repo.ScopeHash("") ==
                  if y.repo.log == start.repo.log then plan.currentRootScopeHash else LastRootScope(y.repo.log))
            && (y.pc.BeforeScopeCas? ==>
                  && TurnLog(plan, start, trace) <= y.repo.log
                  && y.repo.root == if y.repo.log == TurnLog(plan, start, trace) then plan.recoveryRoot
                                    else LastRoot(y.repo.log))
  {
    if trace != [] {
      var x, step := Exec(plan, start, trace[..|trace| - 1]), trace[|trace| - 1];
      BeforeScopeCasFinds(plan, start, trace[..|trace| - 1]);
      if step.User? && Accepts(x.repo, step.publish) {
        PublishRootScope(x.repo, step.publish);
        assert PublishStep(x.repo, step.publish).log == x.repo.log + [step.publish.Entry()];
      }
    }
  }

  /** Exactly when True is wrong, in any interleaving: a publish was accepted between the two CASes, and the
      last such one left the planned root-scope hash behind and a root other than the recovery root. */
  lemma WrongTrueIff(plan: Plan, start: System, trace: seq<Step>)
    requires plan.currentRootScopeHash == start.repo.ScopeHash("")
    requires start.pc.BeforeRootCas? || (start.pc.BeforeScopeCas? && start.repo.root == plan.recoveryRoot)
    requires Exec(plan, start, trace).pc.BeforeScopeCas?
    ensures var y := Exec(plan, start, trace);
            ScopeCasSucceeds(plan, y) && !Recovered(plan, RepairStep(plan, y).repo) <==>
            && y.repo.log != TurnLog(plan, start, trace)
            && LastRootScope(y.repo.log) == plan.currentRootScopeHash && LastRoot(y.repo.log) != plan.recoveryRoot
  {
    BeforeScopeCasFinds(plan, start, trace);
    TurnLogGrows(plan, start, trace);
    ScopeCasInstalls(plan, Exec(plan, start, trace));
  }

  lemma {:induction false} TurnLogGrows(plan: Plan, start: System, trace: seq<Step>)
    ensures start.repo.log <= TurnLog(plan, start, trace)
  {
    if trace == [] || !Exec(plan, start, trace[..|trace| - 1]).pc.BeforeScopeCas? {
      ExecLogGrows(plan, start, trace, 0);
      assert trace[..0] == [];
    } else {
      TurnLogGrows(plan, start, trace[..|trace| - 1]);
    }
  }

  /** So no weaker assumption on users will do: any publish that brings back the stale hash under another
      root, accepted between the CASes, makes apply answer True with the users' root in place. */
  lemma StaleReinstallBreaks(plan: Plan, projectId: string, store: Store, s: State, p: Publish)
    requires Admit(plan, projectId, store).BeforeRootCas? && plan.currentRoot == s.root
    requires plan.currentRootScopeHash == s.ScopeHash("") && p.oldRoot == plan.recoveryRoot
    requires InstalledRootScopeHash(p) == plan.currentRootScopeHash && p.newRoot != plan.recoveryRoot
    ensures var y := Exec(plan, Start(plan, projectId, store, s), [Repair, User(p), Repair, Repair]);
            y.pc == Finished(true) && y.repo.root == p.newRoot && y.repo.ScopeHash("") == plan.recoveryRoot
  {
    assert StripSlashes("") == "";
    var start := Start(plan, projectId, store, s);
    ExecThree(plan, start, Repair, User(p), Repair);
    var front := [Repair, User(p), Repair];
    assert [Repair, User(p), Repair, Repair][..3] == front;
    var x := Next(plan, Next(plan, start, Repair), User(p));
    StripSlashesFixed(p.Scope());
    assert x.repo.ScopeHash("") == InstalledRootScopeHash(p);
  }

  // ---- Convergence -------------------------------------------------------------------------

  /** With nobody else writing, one round repairs whatever can be repaired, from any state: also from
      one where an earlier round stopped half-way or a folder repair moved the root alone. */
  lemma RepairConverges(projectId: string, store: Store, s: State, limit: int)
    ensures var plan := PlanOf(projectId, s, store, limit);
            var z := ApplyAlone(plan, projectId, store, s);
            if plan.Applicable()
            then z.pc == Finished(true) && Recovered(plan, z.repo) && z.repo.log == s.log
                 && PlanOf(projectId, z.repo, store, limit).Status().Healthy?
            else z == System(s, Finished(false))
  {
    var plan := PlanOf(projectId, s, store, limit);
    if plan.Applicable() {
      if s.root != "" && !IsReadableTree(store, s.root) {
        var i := NewestReadableIs(Since(s.log, "", "", limit), store, s.root);
      }
      AloneRecovers(plan, projectId, store, s);
      RecoveredIsHealthy(plan, projectId, store, ApplyAlone(plan, projectId, store, s).repo, limit);
    }
  }

  /** Undisturbed, an applicable plan goes through both CASes. */
  lemma AloneRecovers(plan: Plan, projectId: string, store: Store, s: State)
    requires plan.Applicable() && plan.projectId == projectId && IsReadableTree(store, plan.recoveryRoot)
    requires plan.currentRoot == s.root && plan.currentRootScopeHash == s.ScopeHash("") && Planned(plan)
    ensures var z := ApplyAlone(plan, projectId, store, s);
            z.pc == Finished(true) && Recovered(plan, z.repo) && z.repo.log == s.log
  {
    assert StripSlashes("") == "";
  }

  lemma RecoveredIsHealthy(plan: Plan, projectId: string, store: Store, s: State, limit: int)
    requires Recovered(plan, s) && IsReadableTree(store, plan.recoveryRoot)
    ensures PlanOf(projectId, s, store, limit).Status().Healthy?
  {
  }

  /** A second round changes nothing. */
  lemma RepairIdempotent(projectId: string, store: Store, s: State, limit: int)
    ensures var z := ApplyAlone(PlanOf(projectId, s, store, limit), projectId, store, s).repo;
            ApplyAlone(PlanOf(projectId, z, store, limit), projectId, store, z).repo == z
  {
    RepairConverges(projectId, store, s, limit);
    RepairConverges(projectId, store, ApplyAlone(PlanOf(projectId, s, store, limit), projectId, store, s).repo, limit);
  }

  lemma {:induction false} SameSource(log: seq<LogEntry>, store: Store, current: Hash)
    requires !IsReadableTree(store, current) && NewestReadable(log, store, current).Some?
    ensures NewestWithRoot(log, EntryRoot(NewestReadable(log, store, current).value))
            == NewestReadable(log, store, current)
  {
    if !IsReadableTree(store, EntryRoot(log[|log| - 1])) {
      SameSource(log[..|log| - 1], store, current);
      var i := NewestReadableIs(log, store, current);
    }
  }

  /** Stopping between the CASes and starting over ends where an uninterrupted run would have ended. */
  lemma InterruptedRepairResumes(projectId: string, store: Store, s: State, limit: int)
    requires PlanOf(projectId, s, store, limit).Status().Recoverable?
    ensures var plan := PlanOf(projectId, s, store, limit);
            var mid := RepairStep(plan, Start(plan, projectId, store, s)).repo;
            var done := ApplyAlone(plan, projectId, store, s).repo;
            var again := PlanOf(projectId, mid, store, limit);
            var resumed := ApplyAlone(again, projectId, store, mid).repo;
            && resumed.root == done.root && resumed.scopeHashes == done.scopeHashes
            && resumed.log == done.log && resumed.head == done.head
            && (again.Status().CacheStale? ==> resumed.scopeHeads == done.scopeHeads)
            && (again.Status().CacheStale? || again.Status().Healthy?)
  {
    assert StripSlashes("") == "";
    var log := Since(s.log, "", "", limit);
    var i := NewestReadableIs(log, store, s.root);
    SameSource(log, store, s.root);
    var plan := PlanOf(projectId, s, store, limit);
    var mid := RepairStep(plan, Start(plan, projectId, store, s)).repo;
    assert mid.root == plan.recoveryRoot && mid.ScopeHash("") == s.ScopeHash("");
    if mid.ScopeHash("") == plan.recoveryRoot {
      assert mid.scopeHashes[StripSlashes("") := plan.recoveryRoot] == mid.scopeHashes;
    }
  }

  // ---- What the conditions above say ---------------------------------------------------------

  /** The hash that users are said to install is the root-scope hash their publish leaves behind. */
  lemma PublishInstalls(s: State, p: Publish)
    requires s.root == p.oldRoot
    ensures PublishStep(s, p).ScopeHash("") == InstalledRootScopeHash(p)
  {
    PublishEffect(s, p, "");
    assert StripSlashes("") == "";
  }
}
