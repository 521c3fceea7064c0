/** The version store of one project: root, scope hashes, head, log, and their atomic updates. */
module VersionHistory {
  import opened Text
  import opened ObjectStore
  import opened Positions

  type CommitId = string

  datatype LogEntry = LogEntry(
    commitId: CommitId, scopePath: string, rootHash: Hash, scopeHash: Hash, root: Hash, createdAt: string)

  datatype AuditEvent =
    | Published(eventType: string)
    | RootRecovered(previousRoot: Hash, recoveredRoot: Hash, sourceCommitId: CommitId,
                    sourceCreatedAt: string, rootChanged: bool)

  datatype State = State(
    root: Hash, head: CommitId, scopeHashes: map<string, Hash>, scopeHeads: map<string, CommitId>,
    log: seq<LogEntry>, audited: bool, audit: seq<AuditEvent>)
  {
    function ScopeHash(scopePath: string): Hash {
      var norm := StripSlashes(scopePath);
      if norm in scopeHashes then scopeHashes[norm] else ""
    }

    function ScopeHead(scopePath: string): CommitId {
      var norm := StripSlashes(scopePath);
      if norm in scopeHeads then scopeHeads[norm] else ""
    }
  }

  /** The arguments of one publish that matter to the stored state. */
  datatype Publish = Publish(
    oldRoot: Hash, newRoot: Hash, commitId: CommitId, createdAt: string, eventType: string,
    scopePath: string, scopeHash: Hash, scopeHead: CommitId)
  {
    function Scope(): string { StripSlashes(scopePath) }

    function AcceptedScopeHash(): Hash { if scopeHash != "" then scopeHash else newRoot }

    function Entry(): LogEntry {
      LogEntry(commitId, Scope(), newRoot, AcceptedScopeHash(), newRoot, createdAt)
    }
  }

  function Initial(audited: bool): State {
    State("", "", map[], map[], [], audited, [])
  }

  // ---- The atomic steps ------------------------------------------------------------------

  predicate Accepts(s: State, p: Publish) {
    s.root == p.oldRoot
  }

  function PublishStep(s: State, p: Publish): State {
    if !Accepts(s, p) then s
    else s.(
      root := p.newRoot,
      scopeHashes := s.scopeHashes["" := p.newRoot][p.Scope() := p.AcceptedScopeHash()],
      scopeHeads := s.scopeHeads["" := p.commitId][
                      p.Scope() := if p.scopeHead != "" then p.scopeHead else p.commitId],
      log := s.log + [p.Entry()],
      head := p.commitId,
      audit := if s.audited then s.audit + [Published(p.eventType)] else s.audit)
  }

  function CasRoot(s: State, expected: Hash, replacement: Hash): State {
    if s.root == expected then s.(root := replacement) else s
  }

  function CasScope(s: State, scopePath: string, expected: Hash, replacement: Hash, head: CommitId): State {
    if s.ScopeHash(scopePath) != expected then s
    else
      var norm := StripSlashes(scopePath);
      s.(scopeHashes := s.scopeHashes[norm := replacement],
         scopeHeads := if head != "" then s.scopeHeads[norm := head] else s.scopeHeads)
  }

  function Run(s: State, ps: seq<Publish>): State {
    if ps == [] then s else PublishStep(Run(s, ps[..|ps| - 1]), ps[|ps| - 1])
  }

  // ---- The store itself, updated in place ------------------------------------------------

  class HistoryManager {
    var rootHash: Hash
    var headCommitId: CommitId
    var scopeHashes: map<string, Hash>
    var scopeHeadCommitIds: map<string, CommitId>
    var entries: seq<LogEntry>
    const audited: bool
    var auditEvents: seq<AuditEvent>

    ghost function View(): State
      reads this
    {
      State(rootHash, headCommitId, scopeHashes, scopeHeadCommitIds, entries, audited, auditEvents)
    }

    constructor (audited: bool)
      ensures View() == Initial(audited)
    {
      rootHash, headCommitId := "", "";
      scopeHashes, scopeHeadCommitIds := map[], map[];
      entries, auditEvents := [], [];
      this.audited := audited;
    }

    method GetScopeState(scopePath: string) returns (hash: Hash, head: CommitId)
      ensures hash == View().ScopeHash(scopePath) && head == View().ScopeHead(scopePath)
    {
      var norm := StripSlashes(scopePath);
      hash := if norm in scopeHashes then scopeHashes[norm] else "";
      head := if norm in scopeHeadCommitIds then scopeHeadCommitIds[norm] else "";
    }

    method CasUpdateScopeHash(scopePath: string, oldHash: Hash, newHash: Hash, headCommitId: CommitId)
      returns (ok: bool)
      modifies this`scopeHashes, this`scopeHeadCommitIds
      ensures ok == (old(View()).ScopeHash(scopePath) == oldHash)
      ensures View() == CasScope(old(View()), scopePath, oldHash, newHash, headCommitId)
    {
      var norm := StripSlashes(scopePath);
      var current := if norm in scopeHashes then scopeHashes[norm] else "";
      if current != oldHash {
        return false;
      }
      scopeHashes := scopeHashes[norm := newHash];
      if headCommitId != "" {
        scopeHeadCommitIds := scopeHeadCommitIds[norm := headCommitId];
      }
      return true;
    }

    method CasUpdateRootHash(oldHash: Hash, newHash: Hash) returns (ok: bool)
      modifies this`rootHash
      ensures ok == (old(View()).root == oldHash)
      ensures View() == CasRoot(old(View()), oldHash, newHash)
    {
      if rootHash != oldHash {
        return false;
      }
      rootHash := newHash;
      return true;
    }

    method Record(entry: LogEntry)
      modifies this`entries
      ensures entries == old(entries) + [entry]
    {
      entries := entries + [entry];
    }

    method RecordAudit(event: AuditEvent)
      modifies this`auditEvents
      ensures auditEvents == old(auditEvents) + [event]
    {
      auditEvents := auditEvents + [event];
    }

    method PublishProjectUpdate(p: Publish) returns (ok: bool)
      modifies this
      ensures ok == Accepts(old(View()), p)
      ensures View() == PublishStep(old(View()), p)
    {
      if rootHash != p.oldRoot {
        return false;
      }
      var norm := StripSlashes(p.scopePath);
      var acceptedScopeHash := if p.scopeHash != "" then p.scopeHash else p.newRoot;
      rootHash := p.newRoot;
      scopeHashes := scopeHashes["" := p.newRoot];
      scopeHeadCommitIds := scopeHeadCommitIds["" := p.commitId];
      scopeHashes := scopeHashes[norm := acceptedScopeHash];
      scopeHeadCommitIds := scopeHeadCommitIds[norm := if p.scopeHead != "" then p.scopeHead else p.commitId];
      Record(LogEntry(p.commitId, norm, p.newRoot, acceptedScopeHash, p.newRoot, p.createdAt));
      headCommitId := p.commitId;
      if audited {
        RecordAudit(Published(p.eventType));
      }
      return true;
    }

    method GetEntry(commitId: CommitId) returns (index: nat)
      ensures index == FirstIndex(entries, commitId)
    {
      index := 0;
      while index < |entries| && entries[index].commitId != commitId
        invariant index <= |entries|
        invariant FirstIndex(entries, commitId) == index + FirstIndex(entries[index..], commitId)
      {
        index := index + 1;
      }
    }

    method AfterEntry(commitId: CommitId) returns (found: seq<LogEntry>)
      ensures found == After(entries, commitId)
    {
      found := entries;
      if commitId != "" {
        var index := GetEntry(commitId);
        if index < |entries| {
          found := entries[index + 1..];
        }
      }
    }

    static method Filter(log: seq<LogEntry>, scopePath: string) returns (kept: seq<LogEntry>)
      ensures kept == InScope(log, scopePath)
    {
      kept := [];
      for i := 0 to |log|
        invariant kept + InScope(log[i..], scopePath) == InScope(log, scopePath)
      {
        assert log[i..][1..] == log[i + 1..];
        if log[i].scopePath == scopePath {
          kept := kept + [log[i]];
        }
      }
    }

    method GetSince(sinceCommitId: CommitId, scopePath: string, limit: int) returns (found: seq<LogEntry>)
      ensures found == Since(entries, sinceCommitId, scopePath, limit)
    {
      found := AfterEntry(sinceCommitId);
      if scopePath != "" {
        found := Filter(found, scopePath);
      }
      if 0 < limit < |found| {
        found := found[|found| - limit..];
      }
    }

    method GetPreviousScopeHash(scopePath: string, beforeCommitId: CommitId) returns (hash: Hash)
      ensures hash == PreviousScopeHash(entries, scopePath, beforeCommitId)
    {
      var norm := StripSlashes(scopePath);
      var index := GetEntry(beforeCommitId);
      var i := index;
      while i > 0
        invariant 0 <= i <= index <= |entries|
        invariant PreviousScopeHash(entries, scopePath, beforeCommitId)
                  == LastScopeHash(entries[..i], norm, index < |entries|)
      {
        i := i - 1;
        assert entries[..i + 1][..i] == entries[..i];
        if StripSlashes(entries[i].scopePath) == norm && (index == |entries| || entries[i].scopeHash != "") {
          return entries[i].scopeHash;
        }
      }
      return "";
    }
  }

  // ---- Reading the log -------------------------------------------------------------------

  /** Position of the first entry with this commit id; the length of the log if there is none. */
  function FirstIndex(log: seq<LogEntry>, c: CommitId): (i: nat)
    ensures i <= |log| && (i < |log| ==> log[i].commitId == c)
    ensures forall j :: 0 <= j < i ==> log[j].commitId != c
  {
    if log == [] || log[0].commitId == c then 0 else 1 + FirstIndex(log[1..], c)
  }

  function InScope(log: seq<LogEntry>, scopePath: string): seq<LogEntry> {
    if log == [] then []
    else (if log[0].scopePath == scopePath then [log[0]] else []) + InScope(log[1..], scopePath)
  }

  function Since(log: seq<LogEntry>, c: CommitId, scopePath: string, limit: int): seq<LogEntry> {
    var after := After(log, c);
    Newest(if scopePath != "" then InScope(after, scopePath) else after, limit)
  }

  function After(log: seq<LogEntry>, c: CommitId): seq<LogEntry> {
    var i := FirstIndex(log, c);
    if c != "" && i < |log| then log[i + 1..] else log
  }

  function Newest(log: seq<LogEntry>, limit: int): seq<LogEntry> {
    if 0 < limit < |log| then log[|log| - limit..] else log
  }

  /** The scope hash of the newest entry of scope `norm`, skipping blank ones if asked to. */
  function LastScopeHash(log: seq<LogEntry>, norm: string, skipBlank: bool): Hash {
    if log == [] then ""
    else
      var e := log[|log| - 1];
      if StripSlashes(e.scopePath) == norm && (!skipBlank || e.scopeHash != "") then e.scopeHash
      else LastScopeHash(log[..|log| - 1], norm, skipBlank)
  }

  function PreviousScopeHash(log: seq<LogEntry>, scopePath: string, before: CommitId): Hash {
    var i := FirstIndex(log, before);
    LastScopeHash(log[..i], StripSlashes(scopePath), i < |log|)
  }

  // ---- Every run of publishes ------------------------------------------------------------

  function LastRoot(log: seq<LogEntry>): Hash {
    if log == [] then "" else log[|log| - 1].rootHash
  }

  function LastCommit(log: seq<LogEntry>): CommitId {
    if log == [] then "" else log[|log| - 1].commitId
  }

  /** Root, root-scope hash, newest entry and head all name the same version. */
  ghost predicate Agrees(s: State) {
    && s.root == s.ScopeHash("")
    && s.root == LastRoot(s.log)
    && s.head == LastCommit(s.log)
  }

  /** A publish of the root scope must not name another root-scope hash. */
  predicate Aligned(p: Publish) {
    p.Scope() == "" ==> p.scopeHash == "" || p.scopeHash == p.newRoot
  }

  /** An accepted publish leaves the store in agreement exactly if it is aligned. */
  lemma PublishAgreesIff(s: State, p: Publish)
    requires Accepts(s, p)
    ensures Agrees(PublishStep(s, p)) <==> Aligned(p)
  {
    var t := PublishStep(s, p);
    assert t.log[|t.log| - 1] == p.Entry();
    assert StripSlashes("") == "";
    assert t.ScopeHash("") == if p.Scope() == "" then p.AcceptedScopeHash() else p.newRoot;
  }

  /** An accepted publish number `k` started from the previous entry's root, and its entry stays. */
  ghost predicate ChainsAt(s: State, ps: seq<Publish>, k: nat)
    requires k < |ps|
  {
    var before := Run(s, ps[..k]);
    Accepts(before, ps[k]) ==>
      ps[k].oldRoot == LastRoot(before.log) && before.log + [ps[k].Entry()] <= Run(s, ps).log
  }

  lemma {:induction false} RunKeepsAgreement(s: State, ps: seq<Publish>)
    requires Agrees(s) && forall p :: p in ps ==> Aligned(p)
    ensures Agrees(Run(s, ps)) && s.log <= Run(s, ps).log
  {
    if ps != [] {
      var front, p := ps[..|ps| - 1], ps[|ps| - 1];
      RunKeepsAgreement(s, front);
      if Accepts(Run(s, front), p) {
        PublishAgreesIff(Run(s, front), p);
      }
    }
  }

  lemma RunChains(s: State, ps: seq<Publish>, k: nat)
    requires Agrees(s) && (forall p :: p in ps ==> Aligned(p)) && k < |ps|
    ensures ChainsAt(s, ps, k)
  {
    RunKeepsAgreement(s, ps[..k]);
    RunLogGrows(s, ps, k + 1);
    assert ps[..k + 1][..k] == ps[..k];
  }

  /** Over every run of aligned publishes: agreement, a log that only grows, a chain of roots. */
  lemma RunAgrees(s: State, ps: seq<Publish>)
    requires Agrees(s) && forall p :: p in ps ==> Aligned(p)
    ensures Agrees(Run(s, ps)) && s.log <= Run(s, ps).log
    ensures forall k :: 0 <= k < |ps| ==> ChainsAt(s, ps, k)
  {
    RunKeepsAgreement(s, ps);
    forall k | 0 <= k < |ps| ensures ChainsAt(s, ps, k) {
      RunChains(s, ps, k);
    }
  }

  ghost predicate UniqueCommits(log: seq<LogEntry>) {
    && (forall i :: 0 <= i < |log| ==> log[i].commitId != "")
    && (forall i, j :: 0 <= i < j < |log| ==> log[i].commitId != log[j].commitId)
  }

  /** Asking for what follows entry `i` is exact precisely when no earlier entry reuses its id. */
  lemma SinceExactIff(log: seq<LogEntry>, i: nat)
    requires i < |log| && log[i].commitId != ""
    ensures Since(log, log[i].commitId, "", 0) == log[i + 1..]
            <==> forall j :: 0 <= j < i ==> log[j].commitId != log[i].commitId
  {
    var f := FirstIndex(log, log[i].commitId);
    assert |Since(log, log[i].commitId, "", 0)| == |log| - f - 1;
  }

  lemma ResumeLog(seen: seq<LogEntry>, log: seq<LogEntry>)
    requires seen <= log && UniqueCommits(log)
    ensures seen + Since(log, LastCommit(seen), "", 0) == log
  {
    if seen != [] {
      var i := |seen| - 1;
      assert log[i] == seen[i];
      SinceExactIff(log, i);
      assert log == seen + log[i + 1..];
    }
  }

  /** A client that keeps the last commit it saw can always catch up, whatever was published since. */
  lemma ResumeReconstructs(s: State, ps: seq<Publish>)
    requires Agrees(s) && forall p :: p in ps ==> Aligned(p)
    requires UniqueCommits(Run(s, ps).log)
    ensures s.log + Since(Run(s, ps).log, LastCommit(s.log), "", 0) == Run(s, ps).log
  {
    RunAgrees(s, ps);
    ResumeLog(s.log, Run(s, ps).log);
  }

  // ---- The scope hash before a commit ------------------------------------------------------

  lemma {:induction false} LastScopeHashSkips(log: seq<LogEntry>, norm: string)
    requires forall e :: e in log ==> e.scopeHash != ""
    ensures LastScopeHash(log, norm, true) == LastScopeHash(log, norm, false)
  {
    if log != [] {
      assert log[|log| - 1] in log;
      LastScopeHashSkips(log[..|log| - 1], norm);
    }
  }

  lemma LastScopeHashSnoc(log: seq<LogEntry>, e: LogEntry, norm: string)
    ensures LastScopeHash(log + [e], norm, false)
         == if StripSlashes(e.scopePath) == norm then e.scopeHash else LastScopeHash(log, norm, false)
  {
    assert (log + [e])[..|log|] == log;
  }

  lemma {:induction false} ScopeHashIsLast(audited: bool, ps: seq<Publish>, scopePath: string)
    requires StripSlashes(scopePath) != ""
    ensures Run(Initial(audited), ps).ScopeHash(scopePath)
            == LastScopeHash(Run(Initial(audited), ps).log, StripSlashes(scopePath), false)
  {
    if ps != [] {
      var p := ps[|ps| - 1];
      var s := Run(Initial(audited), ps[..|ps| - 1]);
      ScopeHashIsLast(audited, ps[..|ps| - 1], scopePath);
      if Accepts(s, p) {
        PublishEffect(s, p, scopePath);
        StripSlashesFixed(p.Scope());
        LastScopeHashSnoc(s.log, p.Entry(), StripSlashes(scopePath));
      }
    }
  }

  lemma {:induction false} RunLogHashes(audited: bool, ps: seq<Publish>)
    requires forall p :: p in ps ==> p.newRoot != ""
    ensures forall e :: e in Run(Initial(audited), ps).log ==> e.scopeHash != ""
  {
    if ps != [] {
      RunLogHashes(audited, ps[..|ps| - 1]);
      assert ps[|ps| - 1] in ps;
    }
  }

  lemma {:induction false} RunLogGrows(s: State, ps: seq<Publish>, k: nat)
    requires k <= |ps|
    ensures Run(s, ps[..k]).log <= Run(s, ps).log
    decreases |ps|
  {
    if k < |ps| {
      RunLogGrows(s, ps[..|ps| - 1], k);
      assert ps[..|ps| - 1][..k] == ps[..k];
    } else {
      assert ps[..k] == ps;
    }
  }

  /** Asking for the hash before a recorded commit searches exactly the log as it was before that commit. */
  lemma PreviousScopeHashIs(audited: bool, ps: seq<Publish>, k: nat, scopePath: string)
    requires k < |ps| && Accepts(Run(Initial(audited), ps[..k]), ps[k])
    requires UniqueCommits(Run(Initial(audited), ps).log)
    ensures PreviousScopeHash(Run(Initial(audited), ps).log, scopePath, ps[k].commitId)
            == LastScopeHash(Run(Initial(audited), ps[..k]).log, StripSlashes(scopePath), true)
  {
    var s0 := Initial(audited);
    var before, log := Run(s0, ps[..k]).log, Run(s0, ps).log;
    RunLogGrows(s0, ps, k + 1);
    assert ps[..k + 1][..k] == ps[..k];
    assert before + [ps[k].Entry()] <= log;
    assert log[|before|] == ps[k].Entry() && log[..|before|] == before;
    assert FirstIndex(log, ps[k].commitId) == |before|;
  }

  /** For a sub-scope, the hash found in the log is the one that was stored just before the commit. */
  lemma PreviousScopeHashExact(audited: bool, ps: seq<Publish>, k: nat, scopePath: string)
    requires StripSlashes(scopePath) != ""
    requires k < |ps| && Accepts(Run(Initial(audited), ps[..k]), ps[k])
    requires forall p :: p in ps ==> p.newRoot != ""
    requires UniqueCommits(Run(Initial(audited), ps).log)
    ensures PreviousScopeHash(Run(Initial(audited), ps).log, scopePath, ps[k].commitId)
            == Run(Initial(audited), ps[..k]).ScopeHash(scopePath)
  {
    PreviousScopeHashIs(audited, ps, k, scopePath);
    ScopeHashIsLast(audited, ps[..k], scopePath);
    RunLogHashes(audited, ps[..k]);
    LastScopeHashSkips(Run(Initial(audited), ps[..k]).log, StripSlashes(scopePath));
  }

  /** The root-scope hash an entry leaves behind, whatever scope it is for. */
  function EntryRootScope(e: LogEntry): Hash {
    if StripSlashes(e.scopePath) == "" then e.scopeHash else e.rootHash
  }

  function LastRootScope(log: seq<LogEntry>): Hash {
    if log == [] then "" else EntryRootScope(log[|log| - 1])
  }

  /** An accepted publish leaves behind what its entry says. */
  lemma PublishRootScope(s: State, p: Publish)
    requires Accepts(s, p)
    ensures PublishStep(s, p).ScopeHash("") == LastRootScope(PublishStep(s, p).log) == EntryRootScope(p.Entry())
  {
    StripSlashesFixed(p.Scope());
    assert StripSlashes("") == "";
  }

  /** The stored root-scope hash comes from the newest entry of any scope. */
  lemma {:induction false} RootScopeHashIsLast(audited: bool, ps: seq<Publish>)
    ensures Run(Initial(audited), ps).ScopeHash("") == LastRootScope(Run(Initial(audited), ps).log)
  {
    if ps == [] {
      assert StripSlashes("") == "";
    } else {
      RootScopeHashIsLast(audited, ps[..|ps| - 1]);
      if Accepts(Run(Initial(audited), ps[..|ps| - 1]), ps[|ps| - 1]) {
        PublishRootScope(Run(Initial(audited), ps[..|ps| - 1]), ps[|ps| - 1]);
      }
    }
  }

  /** For the root scope, the hash found in the log is the one that was stored just before the commit exactly
      if the newest root-scope entry holds the hash that the newest entry of any scope left behind. */
  lemma PreviousRootScopeHashIff(audited: bool, ps: seq<Publish>, k: nat)
    requires k < |ps| && Accepts(Run(Initial(audited), ps[..k]), ps[k])
    requires UniqueCommits(Run(Initial(audited), ps).log)
    ensures var before := Run(Initial(audited), ps[..k]);
            PreviousScopeHash(Run(Initial(audited), ps).log, "", ps[k].commitId) == before.ScopeHash("")
            <==> LastScopeHash(before.log, "", true) == LastRootScope(before.log)
  {
    PreviousScopeHashIs(audited, ps, k, "");
    RootScopeHashIsLast(audited, ps[..k]);
    assert StripSlashes("") == "";
  }

  lemma RunThree(s: State, p0: Publish, p1: Publish, p2: Publish)
    ensures var ps := [p0, p1, p2];
            && Run(s, ps[..0]) == s && Run(s, ps[..1]) == PublishStep(s, p0)
            && Run(s, ps[..2]) == PublishStep(PublishStep(s, p0), p1)
            && Run(s, ps) == PublishStep(PublishStep(PublishStep(s, p0), p1), p2)
  {
    var ps := [p0, p1, p2];
    assert ps[..2][..1] == ps[..1] == [p0] && ps[..1][..0] == ps[..0] == [];
    assert ps[..|ps| - 1] == ps[..2];
    assert Run(s, ps[..1]) == PublishStep(s, p0);
    assert Run(s, ps[..2]) == PublishStep(Run(s, ps[..1]), ps[..2][1]);
  }

  lemma LastScopeHashOfTwo(e0: LogEntry, e1: LogEntry)
    requires StripSlashes(e0.scopePath) == "" && e0.scopeHash != "" && StripSlashes(e1.scopePath) != ""
    ensures LastScopeHash([e0, e1], "", true) == e0.scopeHash
  {
    assert [e0, e1][..1] == [e0];
    assert LastScopeHash([e0], "", true) == e0.scopeHash;
  }

  /** Three chained publishes, the second of them for a sub-scope. */
  lemma LaggingRun(p0: Publish, p1: Publish, p2: Publish, s: State)
    requires s == Initial(false) && p0.Scope() == "" && p1.Scope() != ""
    requires p0.oldRoot == "" && p1.oldRoot == p0.newRoot && p2.oldRoot == p1.newRoot
    ensures var ps := [p0, p1, p2];
            && (forall k :: 0 <= k < 3 ==> Accepts(Run(s, ps[..k]), ps[k]))
            && Run(s, ps[..2]).log == [p0.Entry(), p1.Entry()]
            && Run(s, ps).log == [p0.Entry(), p1.Entry(), p2.Entry()]
  {
    RunThree(s, p0, p1, p2);
  }

  /** The condition can fail: a sub-scope publish moves the root-scope hash without a root-scope entry. */
  lemma PreviousRootScopeHashCanLag() returns (ps: seq<Publish>)
    ensures |ps| == 3 && forall k :: 0 <= k < 3 ==> Accepts(Run(Initial(false), ps[..k]), ps[k])
    ensures UniqueCommits(Run(Initial(false), ps).log)
    ensures PreviousScopeHash(Run(Initial(false), ps).log, "", ps[2].commitId)
            != Run(Initial(false), ps[..2]).ScopeHash("")
  {
    var p0 := Publish("", "r1", "c1", "", "", "", "", "");
    var p1 := Publish("r1", "r2", "c2", "", "", "a", "s", "");
    var p2 := Publish("r2", "r3", "c3", "", "", "", "", "");
    ps := [p0, p1, p2];
    assert StripSlashes("") == "";
    StripSlashesFixed("a");
    LaggingRun(p0, p1, p2, Initial(false));
    StripSlashesFixed(p0.Scope());
    StripSlashesFixed(p1.Scope());
    LastScopeHashOfTwo(p0.Entry(), p1.Entry());
    PreviousRootScopeHashIff(false, ps, 2);
  }

  // ---- What a publish and a CAS change ------------------------------------------------------

  /** An accepted publish field by field, and the hash and the head of every scope after it. */
  lemma PublishEffect(s: State, p: Publish, scopePath: string)
    ensures Accepts(s, p) <==> s.root == p.oldRoot
    ensures s.root != p.oldRoot ==> PublishStep(s, p) == s
    ensures s.root == p.oldRoot ==>
              var t := PublishStep(s, p);
              var installed := if p.scopeHash != "" then p.scopeHash else p.newRoot;
              && t.root == p.newRoot && t.head == p.commitId && t.audited == s.audited
              && t.log == s.log + [LogEntry(p.commitId, StripSlashes(p.scopePath), p.newRoot, installed, p.newRoot,
                                            p.createdAt)]
              && t.audit == (if s.audited then s.audit + [Published(p.eventType)] else s.audit)
              && t.ScopeHash(scopePath)
                 == (if StripSlashes(scopePath) == StripSlashes(p.scopePath) then installed
                     else if StripSlashes(scopePath) == "" then p.newRoot
                     else s.ScopeHash(scopePath))
              && t.ScopeHead(scopePath)
                 == (if StripSlashes(scopePath) == StripSlashes(p.scopePath) then
                       if p.scopeHead != "" then p.scopeHead else p.commitId
                     else if StripSlashes(scopePath) == "" then p.commitId
                     else s.ScopeHead(scopePath))
  {
  }

  /** The two CASes: what they swap, and what the others see of it. */
  lemma CasEffect(s: State, scopePath: string, expected: Hash, replacement: Hash, head: CommitId, other: string)
    ensures var t := CasRoot(s, expected, replacement);
            && t == s.(root := t.root) && t.root == if s.root == expected then replacement else s.root
    ensures var t := CasScope(s, scopePath, expected, replacement, head);
            var mine := StripSlashes(other) == StripSlashes(scopePath) && s.ScopeHash(scopePath) == expected;
            && t == s.(scopeHashes := t.scopeHashes, scopeHeads := t.scopeHeads)
            && t.ScopeHash(other) == (if mine then replacement else s.ScopeHash(other))
            && t.ScopeHead(other) == (if mine && head != "" then head else s.ScopeHead(other))
  {
  }

  // ---- What a read returns, by log positions ------------------------------------------------

  /** Entry `x` comes after the first entry with id `c`, if there is one. */
  ghost predicate Follows(log: seq<LogEntry>, c: CommitId, x: nat) {
    && x < |log|
    && ((c != "" && exists i :: 0 <= i < |log| && log[i].commitId == c) ==>
          exists i :: 0 <= i < x && log[i].commitId == c)
  }

  ghost predicate Asked(log: seq<LogEntry>, c: CommitId, scopePath: string, x: nat) {
    Follows(log, c, x) && (scopePath == "" || log[x].scopePath == scopePath)
  }

  lemma {:induction false} InScopeExactly(log: seq<LogEntry>, scopePath: string)
    ensures Exactly(log, InScope(log, scopePath), (x: nat) => x < |log| && log[x].scopePath == scopePath)
  {
    var keep: nat -> bool := (x: nat) => x < |log| && log[x].scopePath == scopePath;
    if log == [] {
      ExactlyEmpty<LogEntry>(keep);
    } else {
      InScopeExactly(log[1..], scopePath);
      var rest: nat -> bool := (x: nat) => x < |log[1..]| && log[1..][x].scopePath == scopePath;
      assert log == [log[0]] + log[1..];
      ExactlyCons(log[0], log[1..], InScope(log[1..], scopePath), rest, keep);
    }
  }

  lemma AllExactly<T>(s: seq<T>)
    ensures Exactly(s, s, (x: nat) => x < |s|)
  {
    var at := seq(|s|, (i: nat) => i);
    assert forall x: nat :: x < |s| ==> at[x] == x;
    var all: nat -> bool := (x: nat) => x < |s|;
    forall x: nat ensures x in at <==> x < |s| && all(x) {
      if x < |s| {
        assert at[x] == x;
      }
    }
    assert PicksAll(s, s, at, all);
  }

  /** Where the entries after an anchor begin. */
  lemma AfterIs(log: seq<LogEntry>, c: CommitId) returns (from: nat)
    ensures from <= |log| && After(log, c) == log[from..]
    ensures forall x: nat :: Follows(log, c, x) <==> from <= x < |log|
  {
    var i := FirstIndex(log, c);
    from := if c != "" && i < |log| then i + 1 else 0;
    forall x: nat ensures Follows(log, c, x) <==> from <= x < |log| {
      if from > 0 && from <= x < |log| {
        assert log[i].commitId == c;
      }
    }
  }

  /** The answer of a read, told by positions in the log: of the entries after the anchor, of the one scope
      if one is named, the newest `limit` if a limit is given and exceeded, each once, in log order. */
  lemma SinceIs(log: seq<LogEntry>, c: CommitId, scopePath: string, limit: int) returns (all: seq<LogEntry>)
    ensures Exactly(log, all, AskedFor(log, c, scopePath))
    ensures Since(log, c, scopePath, limit) == if 0 < limit < |all| then all[|all| - limit..] else all
  {
    var from := AskedBegins(log, c, scopePath);
    all := AskedPositions(log, c, scopePath, from, log[from..]);
    SinceUnfolds(log, c, scopePath, limit, log[from..], all);
  }

  lemma AskedPositions(log: seq<LogEntry>, c: CommitId, scopePath: string, from: nat, rest: seq<LogEntry>)
    returns (all: seq<LogEntry>)
    requires from <= |log| && rest == log[from..] && BeginsAt(log, c, scopePath, from, rest)
    ensures all == if scopePath != "" then InScope(rest, scopePath) else rest
    ensures Exactly(log, all, AskedFor(log, c, scopePath))
  {
    all := OfScopeExactly(rest, scopePath);
    assert BeginsAt(log, c, scopePath, from, rest);
    ExactlyRest(log, from, all, ThatScope(rest, scopePath), AskedFor(log, c, scopePath));
  }

  ghost predicate BeginsAt(log: seq<LogEntry>, c: CommitId, scopePath: string, from: nat, rest: seq<LogEntry>) {
    forall x: nat :: x < |log| ==>
      (AskedFor(log, c, scopePath)(x) <==> x >= from && ThatScope(rest, scopePath)(x - from))
  }

  lemma SinceUnfolds(log: seq<LogEntry>, c: CommitId, scopePath: string, limit: int, rest: seq<LogEntry>,
                     all: seq<LogEntry>)
    requires After(log, c) == rest && all == if scopePath != "" then InScope(rest, scopePath) else rest
    ensures Since(log, c, scopePath, limit) == if 0 < limit < |all| then all[|all| - limit..] else all
  {
  }

  ghost function AskedFor(log: seq<LogEntry>, c: CommitId, scopePath: string): nat -> bool {
    (x: nat) => Asked(log, c, scopePath, x)
  }

  ghost function ThatScope(log: seq<LogEntry>, scopePath: string): nat -> bool {
    (x: nat) => x < |log| && (scopePath == "" || log[x].scopePath == scopePath)
  }

  /** Where the entries asked for begin. */
  lemma AskedBegins(log: seq<LogEntry>, c: CommitId, scopePath: string) returns (from: nat)
    ensures from <= |log| && After(log, c) == log[from..]
    ensures BeginsAt(log, c, scopePath, from, log[from..])
  {
    from := AfterIs(log, c);
    AskedFrom(log, c, scopePath, from, log[from..]);
  }

  lemma AskedFrom(log: seq<LogEntry>, c: CommitId, scopePath: string, from: nat, rest: seq<LogEntry>)
    requires from <= |log| && rest == log[from..] && forall x: nat :: Follows(log, c, x) <==> from <= x < |log|
    ensures BeginsAt(log, c, scopePath, from, rest)
  {
  }

  lemma OfScopeExactly(log: seq<LogEntry>, scopePath: string) returns (all: seq<LogEntry>)
    ensures all == if scopePath != "" then InScope(log, scopePath) else log
    ensures Exactly(log, all, ThatScope(log, scopePath))
  {
    if scopePath != "" {
      all := InScope(log, scopePath);
      InScopeExactly(log, scopePath);
      var some: nat -> bool := (x: nat) => x < |log| && log[x].scopePath == scopePath;
      ExactlySame(log, all, some, ThatScope(log, scopePath));
    } else {
      all := log;
      AllExactly(log);
      var every: nat -> bool := (x: nat) => x < |log|;
      ExactlySame(log, all, every, ThatScope(log, scopePath));
    }
  }

  /** Without anchor and scope, a limit keeps the end of the log. */
  lemma SinceNewest(log: seq<LogEntry>, limit: int)
    ensures Since(log, "", "", limit) == log[if 0 < limit <= |log| then |log| - limit else 0..]
  {
  }

  /** Entry `j` is the newest of the first `n` that belongs to the scope, blank ones left out if asked to. */
  ghost predicate NewestOf(log: seq<LogEntry>, norm: string, n: nat, skipBlank: bool, j: nat) {
    && j < n <= |log| && OfScope(log[j], norm, skipBlank)
    && forall m :: j < m < n ==> !OfScope(log[m], norm, skipBlank)
  }

  predicate OfScope(e: LogEntry, norm: string, skipBlank: bool) {
    StripSlashes(e.scopePath) == norm && (skipBlank ==> e.scopeHash != "")
  }

  /** `h` is the hash of the newest of the first `n` entries that belongs to the scope, or blank if none does. */
  ghost predicate NewestHash(log: seq<LogEntry>, norm: string, n: nat, skipBlank: bool, h: Hash) {
    || (exists j: nat :: NewestOf(log, norm, n, skipBlank, j) && h == log[j].scopeHash)
    || (h == "" && forall j :: 0 <= j < n && j < |log| ==> !OfScope(log[j], norm, skipBlank))
  }

  lemma {:induction false} LastScopeHashIs(log: seq<LogEntry>, norm: string, n: nat, skipBlank: bool)
    requires n <= |log|
    ensures NewestHash(log, norm, n, skipBlank, LastScopeHash(log[..n], norm, skipBlank))
  {
    if n > 0 {
      assert log[..n][..n - 1] == log[..n - 1];
      if OfScope(log[n - 1], norm, skipBlank) {
        assert NewestOf(log, norm, n, skipBlank, n - 1);
      } else {
        LastScopeHashIs(log, norm, n - 1, skipBlank);
        NewestHashMore(log, norm, n, skipBlank, LastScopeHash(log[..n - 1], norm, skipBlank));
      }
    }
  }

  lemma NewestHashMore(log: seq<LogEntry>, norm: string, n: nat, skipBlank: bool, h: Hash)
    requires 0 < n <= |log| && !OfScope(log[n - 1], norm, skipBlank) && NewestHash(log, norm, n - 1, skipBlank, h)
    ensures NewestHash(log, norm, n, skipBlank, h)
  {
    if j: nat :| NewestOf(log, norm, n - 1, skipBlank, j) && h == log[j].scopeHash {
      assert NewestOf(log, norm, n, skipBlank, j);
    }
  }

  /** The previous scope hash, told by positions: before the first entry with the commit id the newest entry of
      the scope that has a hash; without such an entry the newest entry of the scope, blank or not. */
  lemma PreviousScopeHashFrom(log: seq<LogEntry>, scopePath: string, c: CommitId, n: nat)
    requires n <= |log| && (n < |log| ==> log[n].commitId == c)
    requires forall j :: 0 <= j < n ==> log[j].commitId != c
    ensures NewestHash(log, StripSlashes(scopePath), n, n < |log|, PreviousScopeHash(log, scopePath, c))
  {
    assert FirstIndex(log, c) == n;
    LastScopeHashIs(log, StripSlashes(scopePath), n, n < |log|);
  }

  /** A new history is blank. */
  lemma InitialIs(audited: bool, scopePath: string)
    ensures var s := Initial(audited);
            && s.root == s.head == "" && s.log == [] && s.audit == [] && s.audited == audited
            && s.ScopeHash(scopePath) == s.ScopeHead(scopePath) == ""
  {
  }

  /** When an accepted publish leaves root, root-scope hash, head and newest entry naming one version. */
  lemma PublishAgreesSpelled(s: State, p: Publish)
    requires s.root == p.oldRoot
    ensures var t := PublishStep(s, p);
            t.root == t.ScopeHash("") && t.log != [] && t.root == t.log[|t.log| - 1].rootHash
            && t.head == t.log[|t.log| - 1].commitId
            <==> (StripSlashes(p.scopePath) == "" ==> p.scopeHash == "" || p.scopeHash == p.newRoot)
  {
    PublishEffect(s, p, "");
    assert StripSlashes("") == "";
  }
}
