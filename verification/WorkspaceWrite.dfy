/** Saving a workspace file optimistically while anybody else may write to the same directory. */
module WorkspaceWrite {
  import opened Text

  const MAX_BYTES := 8 * 1024 * 1024

  type Data = seq<bv8>
  type Revision = string

  datatype Node = File(data: Data) | Directory | Special
  type Dir = map<string, Node>

  datatype Error = FileConflict | FileNotFound | Rejected
  datatype Outcome = Saved(revision: Revision, size: nat) | Failed(error: Error)

  /** A write of `data`; without an expected revision the file must not exist yet. */
  datatype Request = Request(expected: Option<Revision>, data: Data)

  /** `Stuck` is the one way to end with the temporary file in place: removing it raised. */
  datatype Pc =
    | Start
    | Compared
    | TempMade
    | Written
    | Verified(seenAt: nat)
    | Linked
    | Installed
    | Cleanup(outcome: Outcome)
    | Done(outcome: Outcome)
    | Stuck(error: Error)

  datatype Writer = Writer(request: Request, pc: Pc)

  /** Every change of what the file name is bound to, in order. `seenAt` is the length of this log
      when the writer last read the file. */
  datatype Event =
    | External(after: Option<Node>)
    | Created(writer: string, data: Data)
    | Replaced(writer: string, expected: Revision, data: Data, seenAt: nat)

  /** Writers of one file name, each known by the unique name of its temporary file. */
  datatype System = System(dir: Dir, writers: map<string, Writer>, log: seq<Event>)

  /** Somebody else changes the directory, or a writer takes its next step, which may fail. */
  datatype Step = Env(dir: Dir) | Act(writer: string, fault: Option<Error>)

  function Lookup(dir: Dir, name: string): Option<Node> {
    if name in dir then Some(dir[name]) else None
  }

  // ---- Reading -------------------------------------------------------------------------------

  datatype Content = Bytes(data: Data) | Absent | Raised(error: Error)

  /** Only regular files of bounded size can be read. */
  function ReadNode(node: Option<Node>): Content {
    match node
    case None => Absent
    case Some(File(data)) => if |data| > MAX_BYTES then Raised(Rejected) else Bytes(data)
    case Some(_) => Raised(Rejected)
  }

  predicate Matches(hash: Data -> Revision, node: Option<Node>, expected: Option<Revision>) {
    match ReadNode(node)
    case Bytes(data) => expected == Some(hash(data))
    case Absent => expected == None
    case Raised(_) => false
  }

  /** What a read that does not match is answered with. */
  function Mismatch(node: Option<Node>): Outcome {
    match ReadNode(node)
    case Raised(e) => Failed(e)
    case _ => Failed(FileConflict)
  }

  predicate ValidRequest(r: Request) {
    (r.expected.Some? ==> |r.expected.value| == 64) && |r.data| <= MAX_BYTES
  }

  // ---- Steps ---------------------------------------------------------------------------------

  function Advance(sys: System, t: string, pc: Pc): System
    requires t in sys.writers
  {
    sys.(writers := sys.writers[t := sys.writers[t].(pc := pc)])
  }

  /** Link without clobbering, or replace atomically. */
  function Install(sys: System, name: string, t: string, seenAt: nat): System
    requires t in sys.writers
  {
    var r := sys.writers[t].request;
    if t !in sys.dir then Advance(sys, t, Cleanup(Failed(FileNotFound)))
    else if r.expected.None? then
      if name in sys.dir then Advance(sys, t, Cleanup(Failed(FileConflict)))
      else Advance(sys.(dir := sys.dir[name := sys.dir[t]], log := sys.log + [Created(t, r.data)]), t, Linked)
    else
      if Lookup(sys.dir, name) == Some(Directory) then Advance(sys, t, Cleanup(Failed(Rejected)))
      else Advance(sys.(dir := sys.dir[name := sys.dir[t]] - {t},
                        log := sys.log + [Replaced(t, r.expected.value, r.data, seenAt)]), t, Installed)
  }

  function ActStep(sys: System, hash: Data -> Revision, name: string, t: string, fault: Option<Error>): System
    requires t in sys.writers
  {
    var w := sys.writers[t];
    var node := Lookup(sys.dir, name);
    match w.pc
    case Start =>
      if !ValidRequest(w.request) then Advance(sys, t, Done(Failed(Rejected)))
      else if fault.Some? then Advance(sys, t, Done(Failed(fault.value)))
      else if Matches(hash, node, w.request.expected) then Advance(sys, t, Compared)
      else Advance(sys, t, Done(Mismatch(node)))
    case Compared =>
      if fault.Some? then Advance(sys, t, Done(Failed(fault.value)))
      else if t in sys.dir then Advance(sys, t, Done(Failed(FileConflict)))
      else Advance(sys.(dir := sys.dir[t := File([])]), t, TempMade)
    case TempMade =>
      if fault.Some? then Advance(sys, t, Cleanup(Failed(fault.value)))
      else Advance(sys.(dir := if t in sys.dir then sys.dir[t := File(w.request.data)] else sys.dir), t, Written)
    case Written =>
      if fault.Some? then Advance(sys, t, Cleanup(Failed(fault.value)))
      else if Matches(hash, node, w.request.expected) then Advance(sys, t, Verified(|sys.log|))
      else Advance(sys, t, Cleanup(Mismatch(node)))
    case Verified(seenAt) =>
      if fault.Some? then Advance(sys, t, Cleanup(Failed(fault.value)))
      else Install(sys, name, t, seenAt)
    case Linked =>
      if fault.Some? then Advance(sys, t, Cleanup(Failed(fault.value)))
      else if t !in sys.dir then Advance(sys, t, Cleanup(Failed(FileNotFound)))
      else Advance(sys.(dir := sys.dir - {t}), t, Installed)
    case Installed =>
      if fault.Some? then Advance(sys, t, Cleanup(Failed(fault.value)))
      else Advance(sys, t, Cleanup(Saved(hash(w.request.data), |w.request.data|)))
    case Cleanup(outcome) =>
      if fault.Some? then Advance(sys, t, Stuck(fault.value))
      else Advance(sys.(dir := sys.dir - {t}), t, Done(outcome))
    case Done(_) => sys
    case Stuck(_) => sys
  }

  /** Others may do anything, except write to a temporary file that is not theirs; they may remove it. */
  ghost predicate Allowed(sys: System, dir: Dir) {
    forall t :: t in sys.writers && t in dir ==> t in sys.dir && dir[t] == sys.dir[t]
  }

  ghost function Next(sys: System, hash: Data -> Revision, name: string, step: Step): System {
    match step
    case Env(dir) =>
      if !Allowed(sys, dir) then sys
      else if Lookup(dir, name) == Lookup(sys.dir, name) then sys.(dir := dir)
      else sys.(dir := dir, log := sys.log + [External(Lookup(dir, name))])
    case Act(t, fault) => if t in sys.writers then ActStep(sys, hash, name, t, fault) else sys
  }

  ghost function Run(sys: System, hash: Data -> Revision, name: string, steps: seq<Step>): System {
    if steps == [] then sys
    else Next(Run(sys, hash, name, steps[..|steps| - 1]), hash, name, steps[|steps| - 1])
  }

  ghost predicate Initial(sys: System, name: string) {
    && sys.log == [] && name !in sys.writers
    && forall t :: t in sys.writers ==> t !in sys.dir && sys.writers[t].pc.Start?
  }

  // ---- The invariant -------------------------------------------------------------------------

  /** What the name is bound to after the logged changes. */
  function Current(init: Option<Node>, log: seq<Event>): Option<Node> {
    if log == [] then init else LeftBy(log[|log| - 1])
  }

  function LeftBy(e: Event): Option<Node> {
    match e
    case External(after) => after
    case Created(_, data) => Some(File(data))
    case Replaced(_, _, data, _) => Some(File(data))
  }

  /** Writer `t` installed its data by change `k`, in the way its request asks for. */
  predicate InstalledAt(log: seq<Event>, t: string, r: Request, k: nat) {
    k < |log| &&
    match log[k]
    case External(_) => false
    case Created(u, data) => u == t && data == r.data && r.expected.None?
    case Replaced(u, expected, data, _) => u == t && data == r.data && r.expected == Some(expected)
  }

  ghost predicate HasInstalled(log: seq<Event>, t: string, r: Request) {
    exists k :: 0 <= k < |log| && InstalledAt(log, t, r, k)
  }

  ghost predicate GoodWriter(hash: Data -> Revision, init: Option<Node>, sys: System, t: string, w: Writer) {
    match w.pc
    case Start => t !in sys.dir
    case Compared => t !in sys.dir && ValidRequest(w.request)
    case TempMade => ValidRequest(w.request)
    case Written => ValidRequest(w.request) && (t in sys.dir ==> sys.dir[t] == File(w.request.data))
    case Verified(m) =>
      && ValidRequest(w.request) && (t in sys.dir ==> sys.dir[t] == File(w.request.data))
      && m <= |sys.log| && Matches(hash, Current(init, sys.log[..m]), w.request.expected)
    case Linked => HasInstalled(sys.log, t, w.request)
    case Installed => HasInstalled(sys.log, t, w.request)
    case Cleanup(o) => GoodOutcome(hash, sys, t, w.request, o)
    case Done(o) => t !in sys.dir && GoodOutcome(hash, sys, t, w.request, o)
    case Stuck(_) => true
  }

  ghost predicate GoodOutcome(hash: Data -> Revision, sys: System, t: string, r: Request, o: Outcome) {
    o.Saved? ==> o == Saved(hash(r.data), |r.data|) && HasInstalled(sys.log, t, r)
  }

  /** A creation found nothing; a replacement had seen a file with the expected revision. */
  ghost predicate GoodEvent(hash: Data -> Revision, init: Option<Node>, log: seq<Event>, k: nat)
    requires k < |log|
  {
    match log[k]
    case External(_) => true
    case Created(_, data) => Current(init, log[..k]) == None && |data| <= MAX_BYTES
    case Replaced(_, expected, data, m) =>
      && m <= k && |data| <= MAX_BYTES
      && Current(init, log[..m]).Some? && Current(init, log[..m]).value.File?
      && hash(Current(init, log[..m]).value.data) == expected
  }

  ghost predicate Inv(hash: Data -> Revision, name: string, init: Option<Node>, sys: System) {
    && name !in sys.writers
    && Lookup(sys.dir, name) == Current(init, sys.log)
    && (forall t :: t in sys.writers ==> GoodWriter(hash, init, sys, t, sys.writers[t]))
    && (forall k :: 0 <= k < |sys.log| ==> GoodEvent(hash, init, sys.log, k))
  }

  lemma GoodEventGrows(hash: Data -> Revision, init: Option<Node>, log: seq<Event>, e: Event, k: nat)
    requires k < |log| && GoodEvent(hash, init, log, k)
    ensures GoodEvent(hash, init, log + [e], k)
  {
    assert (log + [e])[..k] == log[..k];
    if log[k].Replaced? && log[k].seenAt <= k {
      assert (log + [e])[..log[k].seenAt] == log[..log[k].seenAt];
    }
  }

  lemma InstalledGrows(log: seq<Event>, e: Event, t: string, r: Request)
    requires HasInstalled(log, t, r)
    ensures HasInstalled(log + [e], t, r)
  {
    var k :| 0 <= k < |log| && InstalledAt(log, t, r, k);
    assert InstalledAt(log + [e], t, r, k);
  }

  /** A writer's standing survives any change that leaves its own temporary file alone, or removes it. */
  lemma OthersStayGood(hash: Data -> Revision, init: Option<Node>, sys: System, sys2: System, t: string, w: Writer)
    requires GoodWriter(hash, init, sys, t, w)
    requires t in sys2.dir ==> t in sys.dir && sys2.dir[t] == sys.dir[t]
    requires sys2.log == sys.log || (|sys2.log| == |sys.log| + 1 && sys2.log[..|sys.log|] == sys.log)
    ensures GoodWriter(hash, init, sys2, t, w)
  {
    if sys2.log != sys.log {
      var e := sys2.log[|sys.log|];
      assert sys2.log == sys.log + [e];
      if HasInstalled(sys.log, t, w.request) {
        InstalledGrows(sys.log, e, t, w.request);
      }
      if w.pc.Verified? && w.pc.seenAt <= |sys.log| {
        assert sys2.log[..w.pc.seenAt] == sys.log[..w.pc.seenAt];
      }
    }
  }

  lemma LogStaysGood(hash: Data -> Revision, init: Option<Node>, log: seq<Event>, e: Event)
    requires forall k :: 0 <= k < |log| ==> GoodEvent(hash, init, log, k)
    requires GoodEvent(hash, init, log + [e], |log|)
    ensures forall k :: 0 <= k < |log + [e]| ==> GoodEvent(hash, init, log + [e], k)
  {
    forall k | 0 <= k < |log + [e]| ensures GoodEvent(hash, init, log + [e], k) {
      if k < |log| {
        GoodEventGrows(hash, init, log, e, k);
      }
    }
  }

  lemma EnvKeepsInv(sys: System, hash: Data -> Revision, name: string, init: Option<Node>, dir: Dir)
    requires Inv(hash, name, init, sys) && Allowed(sys, dir)
    ensures Inv(hash, name, init, Next(sys, hash, name, Env(dir)))
  {
    var sys2 := Next(sys, hash, name, Env(dir));
    forall t | t in sys2.writers ensures GoodWriter(hash, init, sys2, t, sys2.writers[t]) {
      OthersStayGood(hash, init, sys, sys2, t, sys.writers[t]);
    }
    if sys2.log != sys.log {
      var e := sys2.log[|sys.log|];
      LogStaysGood(hash, init, sys.log, e);
    }
  }

  /** The acting writer's own next standing. */
  lemma ActorStaysGood(sys: System, hash: Data -> Revision, name: string, init: Option<Node>, t: string,
                       fault: Option<Error>)
    requires Inv(hash, name, init, sys) && t in sys.writers
    ensures var sys2 := ActStep(sys, hash, name, t, fault);
            GoodWriter(hash, init, sys2, t, sys2.writers[t])
  {
    var w, sys2 := sys.writers[t], ActStep(sys, hash, name, t, fault);
    assert GoodWriter(hash, init, sys, t, w);
    assert sys.log[..|sys.log|] == sys.log;
    if sys2.log != sys.log {
      assert InstalledAt(sys2.log, t, w.request, |sys.log|);
    }
  }

  /** What one step of writer `t` leaves: at most one more logged change, a sound one, and the others' files
      and standing as they were. */
  ghost predicate StepsSoundly(hash: Data -> Revision, name: string, init: Option<Node>, sys: System, sys2: System,
                               t: string) {
    && Lookup(sys2.dir, name) == Current(init, sys2.log)
    && (sys2.log == sys.log
        || (|sys2.log| == |sys.log| + 1 && sys2.log[..|sys.log|] == sys.log
            && GoodEvent(hash, init, sys2.log, |sys.log|)))
    && (forall u :: u in sys.writers && u != t && u in sys2.dir ==> u in sys.dir && sys2.dir[u] == sys.dir[u])
    && sys2.writers.Keys == sys.writers.Keys
    && (forall u :: u in sys.writers && u != t ==> sys2.writers[u] == sys.writers[u])
  }

  lemma InstallStepsSoundly(sys: System, hash: Data -> Revision, name: string, init: Option<Node>, t: string)
    requires Inv(hash, name, init, sys) && t in sys.writers && sys.writers[t].pc.Verified?
    ensures StepsSoundly(hash, name, init, sys, Install(sys, name, t, sys.writers[t].pc.seenAt), t)
  {
    var w := sys.writers[t];
    var sys2 := Install(sys, name, t, w.pc.seenAt);
    assert GoodWriter(hash, init, sys, t, w);
    if sys2.log != sys.log {
      assert sys2.log[..|sys.log|] == sys.log;
      assert sys2.log[..w.pc.seenAt] == sys.log[..w.pc.seenAt];
    }
  }

  /** Every other step concerns the writer's own temporary file only. */
  lemma ActIsQuiet(sys: System, hash: Data -> Revision, name: string, t: string, fault: Option<Error>)
    requires t in sys.writers && (sys.writers[t].pc.Verified? ==> fault.Some?)
    ensures Quiet(sys, ActStep(sys, hash, name, t, fault), t)
  {
  }

  ghost predicate Quiet(sys: System, sys2: System, t: string)
    requires t in sys.writers
  {
    && sys2.log == sys.log && sys2.writers.Keys == sys.writers.Keys
    && (forall u :: u in sys.writers && u != t ==> sys2.writers[u] == sys.writers[u])
    && forall u :: u != t ==> Lookup(sys2.dir, u) == Lookup(sys.dir, u)
  }

  lemma QuietStepsSoundly(sys: System, hash: Data -> Revision, name: string, init: Option<Node>, t: string,
                          sys2: System)
    requires name !in sys.writers && Lookup(sys.dir, name) == Current(init, sys.log) && t in sys.writers
    requires Quiet(sys, sys2, t)
    ensures StepsSoundly(hash, name, init, sys, sys2, t)
  {
    forall u | u in sys.writers && u != t && u in sys2.dir ensures u in sys.dir && sys2.dir[u] == sys.dir[u] {
      assert Lookup(sys2.dir, u) == Lookup(sys.dir, u);
    }
  }

  lemma ActStepsSoundly(sys: System, hash: Data -> Revision, name: string, init: Option<Node>, t: string,
                        fault: Option<Error>)
    requires Inv(hash, name, init, sys) && t in sys.writers
    ensures StepsSoundly(hash, name, init, sys, ActStep(sys, hash, name, t, fault), t)
  {
    if sys.writers[t].pc.Verified? && fault == None {
      InstallStepsSoundly(sys, hash, name, init, t);
    } else {
      ActIsQuiet(sys, hash, name, t, fault);
      QuietStepsSoundly(sys, hash, name, init, t, ActStep(sys, hash, name, t, fault));
    }
  }

  lemma ActKeepsInv(sys: System, hash: Data -> Revision, name: string, init: Option<Node>, t: string,
                    fault: Option<Error>)
    requires Inv(hash, name, init, sys) && t in sys.writers
    ensures Inv(hash, name, init, ActStep(sys, hash, name, t, fault))
  {
    var sys2 := ActStep(sys, hash, name, t, fault);
    ActStepsSoundly(sys, hash, name, init, t, fault);
    ActorStaysGood(sys, hash, name, init, t, fault);
    forall u | u in sys2.writers ensures GoodWriter(hash, init, sys2, u, sys2.writers[u]) {
      if u != t {
        OthersStayGood(hash, init, sys, sys2, u, sys.writers[u]);
      }
    }
    if sys2.log != sys.log {
      assert sys2.log == sys.log + [sys2.log[|sys.log|]];
      LogStaysGood(hash, init, sys.log, sys2.log[|sys.log|]);
    }
  }

  /** The invariant holds after every run, whatever the writers, the others and the faults do. */
  lemma {:induction false} RunKeepsInv(sys: System, hash: Data -> Revision, name: string, steps: seq<Step>)
    requires Initial(sys, name)
    ensures Inv(hash, name, Lookup(sys.dir, name), Run(sys, hash, name, steps))
  {
    if steps != [] {
      var front, step := steps[..|steps| - 1], steps[|steps| - 1];
      RunKeepsInv(sys, hash, name, front);
      var before := Run(sys, hash, name, front);
      match step {
        case Env(dir) =>
          if Allowed(before, dir) {
            EnvKeepsInv(before, hash, name, Lookup(sys.dir, name), dir);
          }
        case Act(t, fault) =>
          if t in before.writers {
            ActKeepsInv(before, hash, name, Lookup(sys.dir, name), t, fault);
          }
      }
    }
  }

  // ---- What every run guarantees ---------------------------------------------------------------

  /** A successful save installed the requested bytes, the way the request asks for, and returned
      their revision. When a writer returns, or raises anything but an error of the cleanup itself, its
      temporary file is gone. */
  lemma SavedMeansInstalled(sys: System, hash: Data -> Revision, name: string, steps: seq<Step>, t: string)
    requires Initial(sys, name)
    requires var now := Run(sys, hash, name, steps); t in now.writers && now.writers[t].pc.Done?
    ensures var now := Run(sys, hash, name, steps);
            var w := now.writers[t];
            && t !in now.dir
            && (w.pc.outcome.Saved? ==>
                  && w.pc.outcome == Saved(hash(w.request.data), |w.request.data|)
                  && exists k :: 0 <= k < |now.log| && InstalledAt(now.log, t, w.request, k))
  {
    RunKeepsInv(sys, hash, name, steps);
    var now := Run(sys, hash, name, steps);
    assert GoodWriter(hash, Lookup(sys.dir, name), now, t, now.writers[t]);
  }

  /** Creating never replaces anything, and a replacement's writer had read a file whose revision was
      the expected one; if nobody touched the name since, that file is the one it replaced. */
  lemma InstallsAreSafe(sys: System, hash: Data -> Revision, name: string, steps: seq<Step>, k: nat)
    requires Initial(sys, name) && k < |Run(sys, hash, name, steps).log|
    ensures var init, log := Lookup(sys.dir, name), Run(sys, hash, name, steps).log;
            && (log[k].Created? ==> Current(init, log[..k]) == None)
            && (log[k].Replaced? ==>
                  && log[k].seenAt <= k
                  && var seen := Current(init, log[..log[k].seenAt]);
                     seen.Some? && seen.value.File? && hash(seen.value.data) == log[k].expected)
  {
    RunKeepsInv(sys, hash, name, steps);
    assert GoodEvent(hash, Lookup(sys.dir, name), Run(sys, hash, name, steps).log, k);
  }

  predicate IsInstall(e: Event) { !e.External? }

  /** Undisturbed saves form a chain: each one expected the revision the previous one returned. */
  lemma SavesFormChain(sys: System, hash: Data -> Revision, name: string, steps: seq<Step>, k: nat)
    requires Initial(sys, name)
    requires var log := Run(sys, hash, name, steps).log;
             0 < k < |log| && IsInstall(log[k - 1]) && log[k].Replaced? && log[k].seenAt == k
    ensures var log := Run(sys, hash, name, steps).log; log[k].expected == hash(log[k - 1].data)
  {
    InstallsAreSafe(sys, hash, name, steps, k);
    var log := Run(sys, hash, name, steps).log;
    assert log[..k][|log[..k]| - 1] == log[k - 1];
  }

  predicate HasRevision(hash: Data -> Revision, node: Option<Node>, revision: Revision) {
    node.Some? && node.value.File? && hash(node.value.data) == revision
  }

  /** When a replacement overwrites what its request expects: exactly if nothing happened to the name since
      its second read, or the last thing that happened left a file of the expected revision again. */
  lemma ReplacedExpectedIff(sys: System, hash: Data -> Revision, name: string, steps: seq<Step>, k: nat)
    requires Initial(sys, name)
    requires var log := Run(sys, hash, name, steps).log; k < |log| && log[k].Replaced?
    ensures var log := Run(sys, hash, name, steps).log;
            HasRevision(hash, Current(Lookup(sys.dir, name), log[..k]), log[k].expected) <==>
            log[k].seenAt == k || (k > 0 && HasRevision(hash, LeftBy(log[k - 1]), log[k].expected))
  {
    InstallsAreSafe(sys, hash, name, steps, k);
    var log := Run(sys, hash, name, steps).log;
    if k > 0 {
      assert log[..k][|log[..k]| - 1] == log[k - 1];
    }
  }

  /** While the name stays bound, at most one of any number of racing creators succeeds, and none if
      it was bound to begin with. */
  lemma AtMostOneCreator(sys: System, hash: Data -> Revision, name: string, steps: seq<Step>, j: nat, k: nat)
    requires Initial(sys, name)
    requires var log := Run(sys, hash, name, steps).log;
             && j <= k < |log| && log[k].Created?
             && (Lookup(sys.dir, name).Some? || log[j].Created?)
             && forall i :: 0 <= i < |log| && log[i].External? ==> log[i].after.Some?
    ensures j == k && Lookup(sys.dir, name).None?
  {
    InstallsAreSafe(sys, hash, name, steps, k);
    var log := Run(sys, hash, name, steps).log;
    if k > 0 {
      CurrentIsLast(Lookup(sys.dir, name), log, k);
    }
  }

  lemma CurrentIsLast(init: Option<Node>, log: seq<Event>, k: nat)
    requires 0 < k <= |log| && Current(init, log[..k]) == None
    ensures log[k - 1] == External(None)
  {
  }

  // ---- One writer alone ------------------------------------------------------------------------

  datatype Ended = Ended(dir: Dir, outcome: Outcome)

  /** What a write comes to when nobody interferes. */
  function WriteAlone(hash: Data -> Revision, dir: Dir, name: string, r: Request, t: string): Ended {
    if !ValidRequest(r) then Ended(dir, Failed(Rejected))
    else if !Matches(hash, Lookup(dir, name), r.expected) then Ended(dir, Mismatch(Lookup(dir, name)))
    else if t in dir || t == name then Ended(dir, Failed(FileConflict))
    else Ended(dir[name := File(r.data)], Saved(hash(r.data), |r.data|))
  }

  /** A system with a single writer. */
  function Lone(dir: Dir, t: string, r: Request, pc: Pc, log: seq<Event>): System {
    System(dir, map[t := Writer(r, pc)], log)
  }

  /** The next `n` steps of the only writer, none of which fails. */
  function Alone(sys: System, hash: Data -> Revision, name: string, t: string, n: nat): System
    requires t in sys.writers
    decreases n
  {
    if n == 0 then sys
    else
      var next := ActStep(sys, hash, name, t, None);
      if t in next.writers then Alone(next, hash, name, t, n - 1) else next
  }

  class WorkspaceDirectory {
    var dir: Dir

    constructor (dir: Dir)
      ensures this.dir == dir
    {
      this.dir := dir;
    }

    /** The write request when nobody interferes. `temporary` is freshly drawn; should it be taken, or be
        the very name to write, nothing is saved. A request that fails changes nothing. */
    method Write(hash: Data -> Revision, name: string, request: Request, temporary: string) returns (r: Outcome)
      modifies this
      ensures r.Saved? <==>
                && ValidRequest(request) && Matches(hash, Lookup(old(dir), name), request.expected)
                && temporary !in old(dir) && temporary != name
      ensures r.Saved? ==> r == Saved(hash(request.data), |request.data|) && dir == old(dir)[name := File(request.data)]
      ensures r.Failed? ==> dir == old(dir)
      ensures Ended(dir, r) == WriteAlone(hash, old(dir), name, request, temporary)
    {
      if !ValidRequest(request) {
        return Failed(Rejected);
      }
      if !Matches(hash, Lookup(dir, name), request.expected) {
        return Mismatch(Lookup(dir, name));
      }
      if temporary in dir {
        return Failed(FileConflict);
      }
      dir := dir[temporary := File([])];
      dir := dir[temporary := File(request.data)];
      assert dir == old(dir)[temporary := File(request.data)];
      if !Matches(hash, Lookup(dir, name), request.expected) {
        r := Mismatch(Lookup(dir, name));
      } else if request.expected == None {
        if name in dir {
          r := Failed(FileConflict);
        } else {
          dir := dir[name := dir[temporary]];
          dir := dir - {temporary};
          r := Saved(hash(request.data), |request.data|);
        }
      } else {
        dir := dir[name := dir[temporary]] - {temporary};
        r := Saved(hash(request.data), |request.data|);
      }
      dir := dir - {temporary};
      TemporaryGone(old(dir), name, temporary, File(request.data));
    }
  }

  /** Without the temporary file, the directory is as before, or binds the name to what it held. */
  lemma TemporaryGone(dir: Dir, name: string, t: string, f: Node)
    requires t !in dir
    ensures dir[t := f] - {t} == dir
    ensures t != name ==> Lookup(dir[t := f], name) == Lookup(dir, name)
    ensures t != name ==> dir[t := f][name := f] - {t} == dir[name := f]
    ensures t != name ==> dir[name := f] - {t} == dir[name := f]
  {
  }

  lemma AloneStep(sys: System, hash: Data -> Revision, name: string, t: string, n: nat, next: System)
    requires t in sys.writers && n > 0 && ActStep(sys, hash, name, t, None) == next && t in next.writers
    ensures Alone(sys, hash, name, t, n) == Alone(next, hash, name, t, n - 1)
  {
  }

  lemma {:induction false} AloneDone(sys: System, hash: Data -> Revision, name: string, t: string, n: nat)
    requires t in sys.writers && sys.writers[t].pc.Done?
    ensures Alone(sys, hash, name, t, n) == sys
  {
    if n > 0 {
      AloneDone(sys, hash, name, t, n - 1);
    }
  }

  /** Up to its second read, an accepted writer has put its data into its temporary file. */
  lemma AloneStages(hash: Data -> Revision, dir: Dir, name: string, r: Request, t: string, n: nat)
    requires ValidRequest(r) && Matches(hash, Lookup(dir, name), r.expected) && t !in dir && n >= 3
    ensures Alone(Lone(dir, t, r, Start, []), hash, name, t, n)
         == Alone(Lone(dir[t := File(r.data)], t, r, Written, []), hash, name, t, n - 3)
  {
    var s0, s1 := Lone(dir, t, r, Start, []), Lone(dir, t, r, Compared, []);
    var s2 := Lone(dir[t := File([])], t, r, TempMade, []);
    var s3 := Lone(dir[t := File(r.data)], t, r, Written, []);
    AloneStep(s0, hash, name, t, n, s1);
    AloneStep(s1, hash, name, t, n - 1, s2);
    assert dir[t := File([])][t := File(r.data)] == dir[t := File(r.data)];
    AloneStep(s2, hash, name, t, n - 2, s3);
  }

  /** The cleanup, and then nothing more. */
  lemma AloneCleans(hash: Data -> Revision, dir: Dir, name: string, r: Request, t: string, o: Outcome,
                    log: seq<Event>, n: nat)
    requires n > 0
    ensures Alone(Lone(dir, t, r, Cleanup(o), log), hash, name, t, n) == Lone(dir - {t}, t, r, Done(o), log)
  {
    AloneStep(Lone(dir, t, r, Cleanup(o), log), hash, name, t, n, Lone(dir - {t}, t, r, Done(o), log));
    AloneDone(Lone(dir - {t}, t, r, Done(o), log), hash, name, t, n - 1);
  }

  /** A temporary file of the very name to write makes the second read fail. */
  lemma AloneCollides(hash: Data -> Revision, dir: Dir, name: string, r: Request)
    requires ValidRequest(r) && r.expected == None && name !in dir
    ensures var end := Alone(Lone(dir[name := File(r.data)], name, r, Written, []), hash, name, name, 5);
            end == Lone(dir, name, r, Done(Failed(FileConflict)), [])
  {
    var now := dir[name := File(r.data)];
    assert Lookup(now, name) == Some(File(r.data));
    AloneStep(Lone(now, name, r, Written, []), hash, name, name, 5,
              Lone(now, name, r, Cleanup(Failed(FileConflict)), []));
    AloneCleans(hash, now, name, r, name, Failed(FileConflict), [], 4);
    assert now - {name} == dir;
  }

  lemma AloneVerifies(hash: Data -> Revision, dir: Dir, name: string, r: Request, t: string, n: nat)
    requires Matches(hash, Lookup(dir, name), r.expected) && t != name && n >= 1
    ensures Alone(Lone(dir[t := File(r.data)], t, r, Written, []), hash, name, t, n)
         == Alone(Lone(dir[t := File(r.data)], t, r, Verified(0), []), hash, name, t, n - 1)
  {
    var now := dir[t := File(r.data)];
    assert Lookup(now, name) == Lookup(dir, name);
    AloneStep(Lone(now, t, r, Written, []), hash, name, t, n, Lone(now, t, r, Verified(0), []));
  }

  lemma AloneLinks(hash: Data -> Revision, dir: Dir, name: string, r: Request, t: string)
    requires r.expected == None && name !in dir && t !in dir && t != name
    ensures var saved := Saved(hash(r.data), |r.data|);
            Alone(Lone(dir[t := File(r.data)], t, r, Verified(0), []), hash, name, t, 4)
            == Lone(dir[name := File(r.data)], t, r, Done(saved), [Created(t, r.data)])
  {
    AloneLinked(hash, dir, name, r, t);
    AloneUnlinked(hash, dir, name, r, t, [Created(t, r.data)]);
    AloneFinishes(hash, dir[name := File(r.data)], name, r, t, [Created(t, r.data)], 2);
  }

  lemma AloneFinishes(hash: Data -> Revision, dir: Dir, name: string, r: Request, t: string, log: seq<Event>, n: nat)
    requires t !in dir && n > 1
    ensures Alone(Lone(dir, t, r, Installed, log), hash, name, t, n)
         == Lone(dir, t, r, Done(Saved(hash(r.data), |r.data|)), log)
  {
    var saved := Saved(hash(r.data), |r.data|);
    AloneStep(Lone(dir, t, r, Installed, log), hash, name, t, n, Lone(dir, t, r, Cleanup(saved), log));
    AloneCleans(hash, dir, name, r, t, saved, log, n - 1);
    assert dir - {t} == dir;
  }

  lemma AloneLinked(hash: Data -> Revision, dir: Dir, name: string, r: Request, t: string)
    requires r.expected == None && name !in dir && t !in dir && t != name
    ensures Alone(Lone(dir[t := File(r.data)], t, r, Verified(0), []), hash, name, t, 4)
         == Alone(Lone(dir[t := File(r.data)][name := File(r.data)], t, r, Linked, [Created(t, r.data)]),
                  hash, name, t, 3)
  {
    var now, both := dir[t := File(r.data)], dir[t := File(r.data)][name := File(r.data)];
    assert [] + [Created(t, r.data)] == [Created(t, r.data)];
    AloneStep(Lone(now, t, r, Verified(0), []), hash, name, t, 4, Lone(both, t, r, Linked, [Created(t, r.data)]));
  }

  lemma AloneUnlinked(hash: Data -> Revision, dir: Dir, name: string, r: Request, t: string, log: seq<Event>)
    requires t !in dir && t != name
    ensures Alone(Lone(dir[t := File(r.data)][name := File(r.data)], t, r, Linked, log), hash, name, t, 3)
         == Alone(Lone(dir[name := File(r.data)], t, r, Installed, log), hash, name, t, 2)
  {
    var both, end := dir[t := File(r.data)][name := File(r.data)], dir[name := File(r.data)];
    assert both - {t} == end;
    AloneStep(Lone(both, t, r, Linked, log), hash, name, t, 3, Lone(end, t, r, Installed, log));
  }

  /** The replace does not look again: whatever file the name is bound to by now is overwritten. */
  lemma AloneReplaces(hash: Data -> Revision, dir: Dir, name: string, r: Request, t: string, log: seq<Event>, n: nat)
    requires r.expected.Some? && Lookup(dir, name) != Some(Directory) && t !in dir && t != name && n >= 3
    ensures var saved := Saved(hash(r.data), |r.data|);
            Alone(Lone(dir[t := File(r.data)], t, r, Verified(0), log), hash, name, t, n)
            == Lone(dir[name := File(r.data)], t, r, Done(saved), log + [Replaced(t, r.expected.value, r.data, 0)])
  {
    var now, end := dir[t := File(r.data)], dir[name := File(r.data)];
    var more := log + [Replaced(t, r.expected.value, r.data, 0)];
    assert Lookup(now, name) != Some(Directory) && now[name := now[t]] - {t} == end;
    AloneStep(Lone(now, t, r, Verified(0), log), hash, name, t, n, Lone(end, t, r, Installed, more));
    AloneFinishes(hash, end, name, r, t, more, n - 1);
  }

  /** From the second read on, an accepted writer installs its data. */
  lemma AloneInstalls(hash: Data -> Revision, dir: Dir, name: string, r: Request, t: string) returns (log: seq<Event>)
    requires Matches(hash, Lookup(dir, name), r.expected) && t !in dir && t != name
    ensures Alone(Lone(dir[t := File(r.data)], t, r, Verified(0), []), hash, name, t, 4)
         == Lone(dir[name := File(r.data)], t, r, Done(Saved(hash(r.data), |r.data|)), log)
  {
    if r.expected == None {
      AloneLinks(hash, dir, name, r, t);
      log := [Created(t, r.data)];
    } else {
      AloneReplaces(hash, dir, name, r, t, [], 4);
      log := [] + [Replaced(t, r.expected.value, r.data, 0)];
    }
  }

  lemma AloneSaves(hash: Data -> Revision, dir: Dir, name: string, r: Request, t: string) returns (log: seq<Event>)
    requires ValidRequest(r) && Matches(hash, Lookup(dir, name), r.expected) && t !in dir && t != name
    ensures Alone(Lone(dir, t, r, Start, []), hash, name, t, 8)
         == Lone(dir[name := File(r.data)], t, r, Done(Saved(hash(r.data), |r.data|)), log)
  {
    AloneStages(hash, dir, name, r, t, 8);
    AloneVerifies(hash, dir, name, r, t, 5);
    log := AloneInstalls(hash, dir, name, r, t);
  }

  lemma AloneSelfCollides(hash: Data -> Revision, dir: Dir, name: string, r: Request)
    requires ValidRequest(r) && Matches(hash, Lookup(dir, name), r.expected) && name !in dir
    ensures Alone(Lone(dir, name, r, Start, []), hash, name, name, 8)
         == Lone(dir, name, r, Done(Failed(FileConflict)), [])
  {
    AloneStages(hash, dir, name, r, name, 8);
    AloneCollides(hash, dir, name, r);
  }

  /** The machine and the method are one and the same: a lone undisturbed writer ends where `Write` does. */
  lemma MachineIsWrite(hash: Data -> Revision, dir: Dir, name: string, r: Request, t: string)
    ensures var end := Alone(Lone(dir, t, r, Start, []), hash, name, t, 8);
            && t in end.writers && end.writers[t].pc.Done?
            && Ended(end.dir, end.writers[t].pc.outcome) == WriteAlone(hash, dir, name, r, t)
  {
    if ValidRequest(r) && Matches(hash, Lookup(dir, name), r.expected) && t !in dir {
      if t == name {
        AloneSelfCollides(hash, dir, name, r);
      } else {
        var log := AloneSaves(hash, dir, name, r, t);
      }
    } else {
      AloneRefused(hash, dir, name, r, t);
    }
  }

  lemma AloneRefused(hash: Data -> Revision, dir: Dir, name: string, r: Request, t: string)
    requires !ValidRequest(r) || !Matches(hash, Lookup(dir, name), r.expected) || t in dir
    ensures Alone(Lone(dir, t, r, Start, []), hash, name, t, 8)
         == Lone(dir, t, r, Done(WriteAlone(hash, dir, name, r, t).outcome), [])
    ensures WriteAlone(hash, dir, name, r, t).dir == dir
  {
    var s0, done := Lone(dir, t, r, Start, []), Lone(dir, t, r, Done(WriteAlone(hash, dir, name, r, t).outcome), []);
    if ValidRequest(r) && Matches(hash, Lookup(dir, name), r.expected) {
      AloneStep(s0, hash, name, t, 8, Lone(dir, t, r, Compared, []));
      AloneEndsAt(Lone(dir, t, r, Compared, []), hash, name, t, 7, done);
    } else {
      AloneEndsAt(s0, hash, name, t, 8, done);
    }
  }

  lemma AloneEndsAt(sys: System, hash: Data -> Revision, name: string, t: string, n: nat, end: System)
    requires t in sys.writers && n > 0 && ActStep(sys, hash, name, t, None) == end
    requires t in end.writers && end.writers[t].pc.Done?
    ensures Alone(sys, hash, name, t, n) == end
  {
    AloneStep(sys, hash, name, t, n, end);
    AloneDone(end, hash, name, t, n - 1);
  }

  // ---- A lost save ---------------------------------------------------------------------------

  function Acts(t: string, n: nat): seq<Step> {
    if n == 0 then [] else [Act(t, None)] + Acts(t, n - 1)
  }

  lemma RunStep(sys: System, hash: Data -> Revision, name: string, steps: seq<Step>, step: Step)
    ensures Run(sys, hash, name, steps + [step]) == Next(Run(sys, hash, name, steps), hash, name, step)
  {
    assert (steps + [step])[..|steps|] == steps;
  }

  /** The writer's next `n` steps, after any run, are its steps alone. */
  ghost predicate RunsOn(sys: System, hash: Data -> Revision, name: string, steps: seq<Step>, t: string, n: nat) {
    && t in Run(sys, hash, name, steps).writers
    && Run(sys, hash, name, steps + Acts(t, n)) == Alone(Run(sys, hash, name, steps), hash, name, t, n)
  }

  lemma NoActs(sys: System, hash: Data -> Revision, name: string, steps: seq<Step>, t: string)
    requires t in Run(sys, hash, name, steps).writers
    ensures RunsOn(sys, hash, name, steps, t, 0)
  {
    assert steps + Acts(t, 0) == steps;
  }

  lemma WriterStays(sys: System, hash: Data -> Revision, name: string, t: string)
    requires t in sys.writers
    ensures Next(sys, hash, name, Act(t, None)) == ActStep(sys, hash, name, t, None)
    ensures t in ActStep(sys, hash, name, t, None).writers
  {
  }

  lemma RunAct(sys: System, hash: Data -> Revision, name: string, steps: seq<Step>, t: string, n: nat)
    requires t in Run(sys, hash, name, steps).writers && n > 0
    ensures t in Run(sys, hash, name, steps + [Act(t, None)]).writers
    ensures Alone(Run(sys, hash, name, steps), hash, name, t, n)
         == Alone(Run(sys, hash, name, steps + [Act(t, None)]), hash, name, t, n - 1)
  {
    var now := Run(sys, hash, name, steps);
    RunStep(sys, hash, name, steps, Act(t, None));
    WriterStays(now, hash, name, t);
    AloneStep(now, hash, name, t, n, Run(sys, hash, name, steps + [Act(t, None)]));
  }

  lemma ActsFrom(steps: seq<Step>, t: string, n: nat)
    requires n > 0
    ensures steps + Acts(t, n) == (steps + [Act(t, None)]) + Acts(t, n - 1)
  {
  }

  lemma RunsOnMore(sys: System, hash: Data -> Revision, name: string, steps: seq<Step>, t: string, n: nat)
    requires t in Run(sys, hash, name, steps).writers && n > 0
    requires RunsOn(sys, hash, name, steps + [Act(t, None)], t, n - 1)
    requires Alone(Run(sys, hash, name, steps), hash, name, t, n)
          == Alone(Run(sys, hash, name, steps + [Act(t, None)]), hash, name, t, n - 1)
    ensures RunsOn(sys, hash, name, steps, t, n)
  {
    ActsFrom(steps, t, n);
  }

  /** Steps of one writer alone, after any run. */
  lemma {:induction false} RunActs(sys: System, hash: Data -> Revision, name: string, steps: seq<Step>, t: string,
                                   n: nat)
    requires t in Run(sys, hash, name, steps).writers
    ensures RunsOn(sys, hash, name, steps, t, n)
    decreases n
  {
    if n == 0 {
      NoActs(sys, hash, name, steps, t);
    } else {
      RunAct(sys, hash, name, steps, t, n);
      RunActs(sys, hash, name, steps + [Act(t, None)], t, n - 1);
      RunsOnMore(sys, hash, name, steps, t, n);
    }
  }

  /** A native save lands while the writer holds a verified temporary file. */
  lemma LoneDisturbed(hash: Data -> Revision, a: Data, b: Data, r: Request, name: string, t: string)
    requires a != b && name != t
    ensures var dir: Dir := map[name := File(a)];
            var native: Dir := map[name := File(b)];
            Next(Lone(dir[t := File(r.data)], t, r, Verified(0), []), hash, name, Env(native[t := File(r.data)]))
            == Lone(native[t := File(r.data)], t, r, Verified(0), [External(Some(File(b)))])
  {
    var dir: Dir := map[name := File(a), t := File(r.data)];
    var native: Dir := map[name := File(b), t := File(r.data)];
    assert Lookup(dir, name) == Some(File(a)) && Lookup(native, name) == Some(File(b));
    assert Allowed(Lone(dir, t, r, Verified(0), []), native);
  }

  /** A fresh writer, after four steps of its own. */
  lemma LoneVerified(hash: Data -> Revision, a: Data, r: Request, name: string, t: string)
    requires ValidRequest(r) && |a| <= MAX_BYTES && r.expected == Some(hash(a)) && name != t
    ensures var dir: Dir := map[name := File(a)];
            Run(Lone(dir, t, r, Start, []), hash, name, Acts(t, 4))
            == Lone(dir[t := File(r.data)], t, r, Verified(0), [])
  {
    var dir: Dir := map[name := File(a)];
    assert Lookup(dir, name) == Some(File(a));
    AloneStages(hash, dir, name, r, t, 4);
    AloneVerifies(hash, dir, name, r, t, 1);
    RunActs(Lone(dir, t, r, Start, []), hash, name, [], t, 4);
    assert [] + Acts(t, 4) == Acts(t, 4);
  }

  /** The guarantee needs the undisturbed window: a native save between the second read and the replace
      is overwritten unseen, and the writer still reports success. */
  lemma UnseenSaveCanBeLost(hash: Data -> Revision, a: Data, b: Data, c: Data, name: string, t: string)
    returns (sys: System, steps: seq<Step>)
    requires |a| <= MAX_BYTES && |c| <= MAX_BYTES && |hash(a)| == 64 && hash(b) != hash(a) && name != t
    ensures Initial(sys, name)
    ensures var now := Run(sys, hash, name, steps);
            && t in now.writers && now.writers[t].pc == Done(Saved(hash(c), |c|))
            && now.log == [External(Some(File(b))), Replaced(t, hash(a), c, 0)]
  {
    var r := Request(Some(hash(a)), c);
    var native: Dir := map[name := File(b)];
    sys := Lone(map[name := File(a)], t, r, Start, []);
    LoneVerified(hash, a, r, name, t);
    LoneDisturbed(hash, a, b, r, name, t);
    var save := Env(native[t := File(c)]);
    RunStep(sys, hash, name, Acts(t, 4), save);
    RunActs(sys, hash, name, Acts(t, 4) + [save], t, 3);
    AloneReplaces(hash, native, name, r, t, [External(Some(File(b)))], 3);
    steps := Acts(t, 4) + [save] + Acts(t, 3);
  }

  // ---- A save alone, by what is there ------------------------------------------------------------

  /** A bounded regular file. */
  predicate IsSmallFile(dir: Dir, name: string) {
    name in dir && dir[name].File? && |dir[name].data| <= 8388608
  }

  /** When a save alone succeeds, from the directory and the request: a creation if the name is free, a replacement if
      the name holds a small file with just the expected revision; and in both cases the data is small enough and
      the temporary name is free. Otherwise nothing changes, and the error tells a refused request or file from a
      conflict. */
  lemma SaveSpelled(hash: Data -> Revision, dir: Dir, name: string, r: Request, t: string)
    ensures var e := WriteAlone(hash, dir, name, r, t);
            var fits := |r.data| <= 8388608 && (r.expected.Some? ==> |r.expected.value| == 64);
            var asExpected := if r.expected.None? then name !in dir
                              else IsSmallFile(dir, name) && hash(dir[name].data) == r.expected.value;
            && (e.outcome.Saved? <==> fits && asExpected && t !in dir && t != name)
            && (e.outcome.Saved? ==>
                  e.outcome == Saved(hash(r.data), |r.data|) && e.dir == dir[name := File(r.data)])
            && (e.outcome.Failed? ==> e.dir == dir)
            && (e.outcome == Failed(Rejected) <==> !fits || (name in dir && !IsSmallFile(dir, name)))
            && (e.outcome.Failed? ==> e.outcome == Failed(Rejected) || e.outcome == Failed(FileConflict))
  {
  }

  // ---- The log against the directory -------------------------------------------------------------

  /** At every moment the name is bound to what the newest logged change left, or to what it held at first; and the log
      only grows. */
  lemma {:induction false} DirectoryIsLog(sys: System, hash: Data -> Revision, name: string, steps: seq<Step>, k: nat)
    requires Initial(sys, name) && k <= |steps|
    ensures var now := Run(sys, hash, name, steps);
            var held := if name in now.dir then Some(now.dir[name]) else None;
            && Run(sys, hash, name, steps[..k]).log <= now.log
            && held == (if now.log == [] then if name in sys.dir then Some(sys.dir[name]) else None
                        else match now.log[|now.log| - 1]
                             case External(after) => after
                             case Created(_, data) => Some(File(data))
                             case Replaced(_, _, data, _) => Some(File(data)))
  {
    RunKeepsInv(sys, hash, name, steps);
    LogOnlyGrows(sys, hash, name, steps, k);
  }

  lemma {:induction false} LogOnlyGrows(sys: System, hash: Data -> Revision, name: string, steps: seq<Step>, k: nat)
    requires k <= |steps|
    ensures Run(sys, hash, name, steps[..k]).log <= Run(sys, hash, name, steps).log
    decreases |steps|
  {
    if k < |steps| {
      LogOnlyGrows(sys, hash, name, steps[..|steps| - 1], k);
      assert steps[..|steps| - 1][..k] == steps[..k];
      StepLogGrows(Run(sys, hash, name, steps[..|steps| - 1]), hash, name, steps[|steps| - 1]);
    } else {
      assert steps[..k] == steps;
    }
  }

  lemma StepLogGrows(sys: System, hash: Data -> Revision, name: string, step: Step)
    ensures sys.log <= Next(sys, hash, name, step).log
  {
  }

  /** Behind every reported success stands one logged change by this writer, of the kind and with the bytes its request
      asks for. */
  lemma SavedSpelled(sys: System, hash: Data -> Revision, name: string, steps: seq<Step>, t: string) returns (k: nat)
    requires Initial(sys, name)
    requires var now := Run(sys, hash, name, steps);
             t in now.writers && now.writers[t].pc.Done? && now.writers[t].pc.outcome.Saved?
    ensures var now := Run(sys, hash, name, steps);
            var r := now.writers[t].request;
            && k < |now.log| && t !in now.dir
            && now.writers[t].pc.outcome == Saved(hash(r.data), |r.data|)
            && if r.expected.None? then now.log[k] == Created(t, r.data)
               else now.log[k].Replaced? && now.log[k].writer == t && now.log[k].data == r.data
                    && now.log[k].expected == r.expected.value
  {
    SavedMeansInstalled(sys, hash, name, steps, t);
    var now := Run(sys, hash, name, steps);
    k :| 0 <= k < |now.log| && InstalledAt(now.log, t, now.writers[t].request, k);
  }
}
