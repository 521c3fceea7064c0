/** Searching a whole replacement for a damaged folder: the missing-object walk and its two sources. */
module RecoverySearch {
  import opened Text
  import opened ObjectStore
  import opened DamagedFolders
  import opened VersionHistory

  /** The ids a walk found absent, or the exception raised by an object that cannot be fetched. */
  datatype Walk = Absent(ids: seq<Hash>) | Raised

  ghost function StackWeight(store: Store, rank: Hash -> nat, stack: seq<Hash>): nat
    requires Acyclic(store, rank)
  {
    if stack == [] then 0
    else StackWeight(store, rank, stack[..|stack| - 1]) + Weight(store, rank, stack[|stack| - 1])
  }

  /** What the walk has settled about a tree it visited. */
  ghost predicate Visited(store: Store, h: Hash, todo: set<Hash>) {
    h in store ==>
      && !store[h].Unreadable?
      && (store[h].Tree? ==> forall i :: 0 <= i < |store[h].entries| && store[h].entries[i].kind.Dir? ==>
            store[h].entries[i].hash in todo)
  }

  ghost predicate FilesStored(store: Store, h: Hash, seen: set<Hash>) {
    && h in store
    && (store[h].Tree? ==> forall i :: 0 <= i < |store[h].entries| && store[h].entries[i].kind.File? ==>
          store[h].entries[i].hash in store || store[h].entries[i].hash in seen)
  }

  lemma {:induction false} ClosedWalk(store: Store, rank: Hash -> nat, h: Hash, seen: set<Hash>)
    requires Acyclic(store, rank) && h in seen
    requires forall t :: t in seen ==> Visited(store, t, seen)
    ensures !HitsUnreadable(store, rank, h)
    ensures (forall t :: t in seen ==> FilesStored(store, t, seen)) ==> Whole(store, rank, h)
    decreases rank(h)
  {
    if IsTree(store, h) {
      forall i | 0 <= i < |store[h].entries|
        ensures !ChildHits(store, rank, h, i)
        ensures (forall t :: t in seen ==> FilesStored(store, t, seen)) ==> WholeEntry(store, rank, h, i)
      {
        if store[h].entries[i].kind.Dir? && store[h].entries[i].hash in store {
          ClosedWalk(store, rank, store[h].entries[i].hash, seen);
        }
      }
    }
  }

  /** File `x` of the tree is neither stored nor met before. */
  ghost predicate LostFile(store: Store, tree: Hash, seen: set<Hash>, n: nat, x: Hash) {
    && IsTree(store, tree) && x !in store && x !in seen
    && exists i :: 0 <= i < n && i < |store[tree].entries| && store[tree].entries[i].kind.File?
                   && store[tree].entries[i].hash == x
  }

  lemma LostFileMore(store: Store, tree: Hash, seen: set<Hash>, n: nat, x: Hash)
    requires IsTree(store, tree) && n < |store[tree].entries|
    ensures var e := store[tree].entries[n];
            LostFile(store, tree, seen, n + 1, x) <==>
            || LostFile(store, tree, seen, n, x)
            || (e.kind.File? && x == e.hash && x !in store && x !in seen)
  {
  }

  /** Existence-checks the blobs of one tree and returns its subtrees. */
  method VerifyTreeChildren(store: Store, ghost rank: Hash -> nat, tree: Hash, seen: set<Hash>,
                            ghost stack: seq<Hash>)
    returns (subtrees: seq<Hash>, absent: seq<Hash>)
    requires WellFormed(store, rank) && IsTree(store, tree)
    ensures forall s :: s in subtrees ==>
              exists i :: 0 <= i < |store[tree].entries| && store[tree].entries[i].kind.Dir?
                          && store[tree].entries[i].hash == s
    ensures forall i :: 0 <= i < |store[tree].entries| && store[tree].entries[i].kind.Dir? ==>
              store[tree].entries[i].hash in seen || store[tree].entries[i].hash in subtrees
    ensures forall x :: x in absent <==> LostFile(store, tree, seen, |store[tree].entries|, x)
    ensures StackWeight(store, rank, stack + subtrees)
            <= StackWeight(store, rank, stack) + ChildWeight(store, rank, tree, |store[tree].entries|)
  {
    subtrees, absent := [], [];
    var entries := store[tree].entries;
    assert stack + [] == stack;
    for n := 0 to |entries|
      invariant forall s :: s in subtrees ==>
                  exists i :: 0 <= i < n && entries[i].kind.Dir? && entries[i].hash == s
      invariant forall i :: 0 <= i < n && entries[i].kind.Dir? ==>
                  entries[i].hash in seen || entries[i].hash in subtrees
      invariant forall x :: x in absent <==> LostFile(store, tree, seen, n, x)
      invariant StackWeight(store, rank, stack + subtrees)
                <= StackWeight(store, rank, stack) + ChildWeight(store, rank, tree, n)
    {
      var e := entries[n];
      forall x
        ensures LostFile(store, tree, seen, n + 1, x) <==>
                LostFile(store, tree, seen, n, x) || (e.kind.File? && x == e.hash && x !in store && x !in seen)
      {
        LostFileMore(store, tree, seen, n, x);
      }
      if e.kind.GitLink? || e.hash == "" || e.hash in seen {
      } else if e.kind.Dir? {
        PushWeight(store, rank, stack, subtrees, e.hash);
        subtrees := subtrees + [e.hash];
      } else if e.hash !in store {
        absent := absent + [e.hash];
      }
    }
  }

  lemma PushWeight(store: Store, rank: Hash -> nat, stack: seq<Hash>, more: seq<Hash>, h: Hash)
    requires Acyclic(store, rank)
    ensures StackWeight(store, rank, stack + (more + [h]))
            == StackWeight(store, rank, stack + more) + Weight(store, rank, h)
  {
    assert (stack + (more + [h]))[..|stack + more|] == stack + more;
  }

  /** Between two turns of the walk: what was met lies below the root, what is listed is on record, and so is
      every object found missing. */
  ghost predicate Walking(store: Store, root: Hash, seen: set<Hash>, stack: seq<Hash>, absent: seq<Hash>) {
    && (root in seen || root in stack)
    && (forall t :: t in stack || t in seen ==> Reaches(store, root, t))
    && (forall t :: t in seen ==> Visited(store, t, seen + (set x | x in stack)))
    && (forall x :: x in absent ==> Loses(store, root, x))
    && (forall t :: t in seen ==> Accounted(store, t, seen, absent))
  }

  /** Whatever tree `t` itself lacks is on record. */
  ghost predicate Accounted(store: Store, t: Hash, seen: set<Hash>, absent: seq<Hash>) {
    && (t !in store ==> t in absent)
    && forall x :: x !in store && ListsFile(store, t, x) ==> x in absent || x in seen
  }

  /** Once nothing is left to visit, exactly the lost objects are on record. */
  lemma WalkEnds(store: Store, root: Hash, seen: set<Hash>, absent: seq<Hash>)
    requires Decoded(store) && Walking(store, root, seen, [], absent)
    ensures forall x :: x in absent <==> Loses(store, root, x)
    ensures !ReachesUnreadable(store, root)
  {
    forall c | Reaches(store, root, c) ensures c in seen {
      var p :| Resolve(store, root, p) == Some(c);
      forall t, i | t in seen && IsTree(store, t) && 0 <= i < |store[t].entries| && store[t].entries[i].kind.Dir?
        ensures store[t].entries[i].hash in seen
      {
        assert Visited(store, t, seen + (set x | x in []));
      }
      ClosedHolds(store, seen, root, p);
    }
    forall x | Loses(store, root, x) ensures x in absent {
      if !Reaches(store, root, x) {
        var c :| Reaches(store, root, c) && ListsFile(store, c, x);
        assert Accounted(store, c, seen, absent);
      }
      if x in seen {
        assert Accounted(store, x, seen, absent);
      }
    }
    forall c | Reaches(store, root, c) && c in store ensures !store[c].Unreadable? {
      assert Visited(store, c, seen + (set x | x in []));
    }
  }

  lemma WalkSkips(store: Store, root: Hash, seen: set<Hash>, rest: seq<Hash>, h: Hash, absent: seq<Hash>)
    requires Walking(store, root, seen, rest + [h], absent) && h in seen
    ensures Walking(store, root, seen, rest, absent)
  {
    assert forall x :: x in rest + [h] <==> x in rest || x == h;
    assert seen + (set x | x in rest + [h]) == seen + (set x | x in rest);
  }

  /** One visited object more: what it lists is added to the stack, what it lacks to the record. */
  lemma WalkVisits(store: Store, root: Hash, seen: set<Hash>, rest: seq<Hash>, h: Hash, subtrees: seq<Hash>,
                   absent: seq<Hash>, more: seq<Hash>)
    requires Decoded(store) && Walking(store, root, seen, rest + [h], absent)
    requires h in store ==> !store[h].Unreadable?
    requires IsTree(store, h) ==> forall i :: 0 <= i < |store[h].entries| && store[h].entries[i].kind.Dir? ==>
               store[h].entries[i].hash in seen + {h} || store[h].entries[i].hash in subtrees
    requires forall s :: s in subtrees ==> Reaches(store, root, s)
    requires h !in store ==> more == [h]
    requires h in store ==> forall x :: x in more <==> x !in store && x !in seen + {h} && ListsFile(store, h, x)
    ensures Walking(store, root, seen + {h}, rest + subtrees, absent + more)
  {
    var wider := seen + {h};
    var before, after := seen + (set x | x in rest + [h]), wider + (set x | x in rest + subtrees);
    assert h in rest + [h] && Reaches(store, root, h);
    forall x | x in before ensures x in after {
      assert x in rest + [h] ==> x in rest || x == h;
    }
    forall t | t in wider ensures Visited(store, t, after) && Accounted(store, t, wider, absent + more) {
      if t != h {
        assert Visited(store, t, before) && Accounted(store, t, seen, absent);
      }
    }
    forall x | x in more ensures Loses(store, root, x) {
      assert h in store ==> ListsFile(store, h, x);
    }
  }

  lemma SubtreesReached(store: Store, root: Hash, h: Hash, subtrees: seq<Hash>)
    requires Decoded(store) && Reaches(store, root, h) && IsTree(store, h)
    requires forall s :: s in subtrees ==>
               exists i :: 0 <= i < |store[h].entries| && store[h].entries[i].kind.Dir? && store[h].entries[i].hash == s
    ensures forall s :: s in subtrees ==> Reaches(store, root, s)
  {
    forall s | s in subtrees ensures Reaches(store, root, s) {
      var i :| 0 <= i < |store[h].entries| && store[h].entries[i].kind.Dir? && store[h].entries[i].hash == s;
      ReachesChild(store, root, h, i);
    }
  }

  /** `find_missing_tree_objects`: the answer lists exactly the lost folders and files, and the walk raises
      exactly if it meets an object that cannot be fetched. An empty answer means the whole closure is there. */
  method FindMissingTreeObjects(store: Store, root: Hash, ghost rank: Hash -> nat) returns (walk: Walk)
    requires WellFormed(store, rank)
    ensures root == "" ==> walk == Absent([])
    ensures root != "" && walk.Absent? ==> forall x :: x in walk.ids <==> Loses(store, root, x)
    ensures root != "" ==> (walk.Raised? <==> ReachesUnreadable(store, root))
    ensures root != "" ==> (walk == Absent([]) <==> Whole(store, rank, root))
    ensures root != "" ==> (walk.Raised? <==> HitsUnreadable(store, rank, root))
  {
    if root == "" {
      return Absent([]);
    }
    WholeIffNothingLost(store, rank, root);
    HitsUnreadableIff(store, rank, root);
    ReachesSelf(store, root);
    var absent: seq<Hash> := [];
    var seen: set<Hash> := {};
    var stack := [root];
    while stack != []
      invariant Walking(store, root, seen, stack, absent)
      decreases StackWeight(store, rank, stack)
    {
      var h := stack[|stack| - 1];
      var rest := stack[..|stack| - 1];
      assert stack == rest + [h];
      if h in seen {
        WalkSkips(store, root, seen, rest, h, absent);
        stack := rest;
        continue;
      }
      var raised;
      raised, stack, absent := VisitObject(store, rank, root, seen, rest, h, absent);
      if raised {
        return Raised;
      }
      seen := seen + {h};
    }
    WalkEnds(store, root, seen, absent);
    NothingAbsent(store, root, absent);
    return Absent(absent);
  }

  lemma NothingAbsent(store: Store, root: Hash, absent: seq<Hash>)
    requires forall x :: x in absent <==> Loses(store, root, x)
    ensures absent == [] <==> forall x :: !Loses(store, root, x)
  {
    if absent != [] {
      assert absent[0] in absent;
    }
  }

  /** What is done with an object that is met for the first time. */
  method VisitObject(store: Store, ghost rank: Hash -> nat, root: Hash, seen: set<Hash>, rest: seq<Hash>, h: Hash,
                     absent: seq<Hash>)
    returns (raised: bool, stack: seq<Hash>, lost: seq<Hash>)
    requires WellFormed(store, rank) && Walking(store, root, seen, rest + [h], absent)
    ensures raised ==> ReachesUnreadable(store, root)
    ensures !raised ==>
              && Walking(store, root, seen + {h}, stack, lost)
              && StackWeight(store, rank, stack) < StackWeight(store, rank, rest + [h])
  {
    assert h in rest + [h] && Reaches(store, root, h) && (rest + [h])[..|rest|] == rest;
    raised, stack, lost := false, rest, absent;
    if h !in store {
      WalkVisits(store, root, seen, rest, h, [], absent, [h]);
      assert rest + [] == rest;
      lost := absent + [h];
      return;
    }
    match store[h] {
      case Unreadable =>
        raised := true;
      case NonTree =>
        WalkVisits(store, root, seen, rest, h, [], absent, []);
        assert rest + [] == rest && absent + [] == absent;
      case Tree(entries) =>
        var subtrees, more := VerifyTreeChildren(store, rank, h, seen + {h}, rest);
        SubtreesReached(store, root, h, subtrees);
        WalkVisits(store, root, seen, rest, h, subtrees, absent, more);
        stack, lost := rest + subtrees, absent + more;
    }
  }

  // ---- find_recovery_subtree ---------------------------------------------------------------

  datatype Recovery = Found(sub: Hash) | NotFound | SearchRaised

  /** The scope hashes, in the order the scope table lists them. */
  type ScopeTable = seq<(string, Hash)>

  /** What each scope offers for the folder: its own tree, if it is exactly this folder. */
  function ScopeCandidates(scopes: ScopeTable, path: string): seq<Option<Hash>> {
    seq(|scopes|, i requires 0 <= i < |scopes| =>
      if StripSlashes(scopes[i].0) == StripSlashes(path) && scopes[i].1 != "" then Some(scopes[i].1) else None)
  }

  function RecordedRoots(log: seq<LogEntry>): seq<Hash> {
    if log == [] then [] else RecordedRoots(log[..|log| - 1]) + [log[|log| - 1].rootHash, log[|log| - 1].root]
  }

  /** What a recorded root offers: the subtree it holds at the path. */
  function RootCandidate(store: Store, root: Hash, path: string): Option<Hash> {
    if root == "" then None
    else match Resolve(store, root, Segments(path))
      case Some(sub) => if sub != "" then Some(sub) else None
      case None => None
  }

  /** What each recorded root offers, oldest first. */
  function HistoryCandidates(store: Store, log: seq<LogEntry>, path: string): seq<Option<Hash>> {
    var roots := RecordedRoots(log);
    seq(|roots|, i requires 0 <= i < |roots| => RootCandidate(store, roots[i], path))
  }

  /** A candidate ends the search: it is whole, or walking it raises. */
  ghost predicate Halts(store: Store, rank: Hash -> nat, candidate: Option<Hash>)
    requires Acyclic(store, rank)
  {
    candidate.Some? && (Whole(store, rank, candidate.value) || HitsUnreadable(store, rank, candidate.value))
  }

  /** Candidate `i` is the first that ends the search. */
  ghost predicate FirstHalt(store: Store, rank: Hash -> nat, candidates: seq<Option<Hash>>, i: nat)
    requires Acyclic(store, rank)
  {
    && i < |candidates| && Halts(store, rank, candidates[i])
    && forall j :: 0 <= j < i ==> !Halts(store, rank, candidates[j])
  }

  /** `found` is what searching the candidates in order comes to. */
  ghost predicate Answers(store: Store, rank: Hash -> nat, candidates: seq<Option<Hash>>, found: Recovery)
    requires Acyclic(store, rank)
  {
    match found
    case Found(sub) =>
      exists i: nat :: FirstHalt(store, rank, candidates, i) && candidates[i] == Some(sub) && Whole(store, rank, sub)
    case SearchRaised =>
      exists i: nat :: FirstHalt(store, rank, candidates, i) && !Whole(store, rank, candidates[i].value)
    case NotFound =>
      forall i :: 0 <= i < |candidates| ==> !Halts(store, rank, candidates[i])
  }

  /** A sequence of candidates has one answer only. */
  lemma AnswersUnique(store: Store, rank: Hash -> nat, candidates: seq<Option<Hash>>, a: Recovery, b: Recovery)
    requires Acyclic(store, rank)
    requires Answers(store, rank, candidates, a) && Answers(store, rank, candidates, b)
    ensures a == b
  {
    if !a.NotFound? && !b.NotFound? {
      var i: nat :| FirstHalt(store, rank, candidates, i)
        && if a.Found? then candidates[i] == Some(a.sub) && Whole(store, rank, a.sub)
           else !Whole(store, rank, candidates[i].value);
      var j: nat :| FirstHalt(store, rank, candidates, j)
        && if b.Found? then candidates[j] == Some(b.sub) && Whole(store, rank, b.sub)
           else !Whole(store, rank, candidates[j].value);
      assert i == j;
    }
  }

  /** What the two searches come to together: a whole scope tree wins, and a search of the scopes that
      finds none, or raises, falls back to the history. */
  ghost predicate Recovers(store: Store, rank: Hash -> nat, scopes: ScopeTable, log: seq<LogEntry>, path: string,
                           found: Recovery)
    requires Acyclic(store, rank)
  {
    if exists sub :: Answers(store, rank, ScopeCandidates(scopes, path), Found(sub))
    then found.Found? && Answers(store, rank, ScopeCandidates(scopes, path), found)
    else Answers(store, rank, HistoryCandidates(store, log, path), found)
  }

  lemma RecoversUnique(store: Store, rank: Hash -> nat, scopes: ScopeTable, log: seq<LogEntry>, path: string,
                       a: Recovery, b: Recovery)
    requires Acyclic(store, rank)
    requires Recovers(store, rank, scopes, log, path, a) && Recovers(store, rank, scopes, log, path, b)
    ensures a == b
  {
    if exists sub :: Answers(store, rank, ScopeCandidates(scopes, path), Found(sub)) {
      AnswersUnique(store, rank, ScopeCandidates(scopes, path), a, b);
    } else {
      AnswersUnique(store, rank, HistoryCandidates(store, log, path), a, b);
    }
  }

  method ScopeRecovery(store: Store, scopes: ScopeTable, path: string, ghost rank: Hash -> nat)
    returns (found: Recovery)
    requires WellFormed(store, rank)
    ensures Answers(store, rank, ScopeCandidates(scopes, path), found)
  {
    ghost var candidates := ScopeCandidates(scopes, path);
    for i := 0 to |scopes|
      invariant forall j :: 0 <= j < i ==> !Halts(store, rank, candidates[j])
    {
      var (scope, hash) := scopes[i];
      if StripSlashes(scope) == StripSlashes(path) && hash != "" && hash in store {
        var walk := FindMissingTreeObjects(store, hash, rank);
        if walk.Raised? {
          assert FirstHalt(store, rank, candidates, i);
          return SearchRaised;
        }
        if walk == Absent([]) {
          assert FirstHalt(store, rank, candidates, i);
          return Found(hash);
        }
      }
    }
    return NotFound;
  }

  ghost predicate NoneBefore(store: Store, rank: Hash -> nat, candidates: seq<Option<Hash>>, i: nat)
    requires Acyclic(store, rank)
  {
    i <= |candidates| && forall j :: 0 <= j < i ==> !Halts(store, rank, candidates[j])
  }

  /** What trying one candidate comes to. */
  ghost predicate Tried(store: Store, rank: Hash -> nat, candidate: Option<Hash>, found: Recovery)
    requires Acyclic(store, rank)
  {
    match found
    case Found(sub) => candidate == Some(sub) && Whole(store, rank, sub)
    case NotFound => !Halts(store, rank, candidate)
    case SearchRaised => Halts(store, rank, candidate) && !Whole(store, rank, candidate.value)
  }

  /** The first candidate that is tried with a result decides. */
  lemma FirstDecides(store: Store, rank: Hash -> nat, candidates: seq<Option<Hash>>, i: nat, found: Recovery)
    requires Acyclic(store, rank) && NoneBefore(store, rank, candidates, i) && i < |candidates|
    requires Tried(store, rank, candidates[i], found) && !found.NotFound?
    ensures Answers(store, rank, candidates, found)
  {
    assert FirstHalt(store, rank, candidates, i);
  }

  method HistoryRecovery(store: Store, log: seq<LogEntry>, path: string, ghost rank: Hash -> nat)
    returns (found: Recovery)
    requires WellFormed(store, rank)
    ensures Answers(store, rank, HistoryCandidates(store, log, path), found)
  {
    var roots := RecordedRoots(log);
    ghost var halts := HaltsAt(store, rank, path);
    var n;
    found, n := TryRoots(store, roots, path, halts, rank);
    RootsAnswer(store, rank, log, path, found, n);
  }

  /** The roots that hold something at the path which ends the search. */
  ghost function HaltsAt(store: Store, rank: Hash -> nat, path: string): Hash -> bool
    requires Acyclic(store, rank)
  {
    r => Acyclic(store, rank) && Halts(store, rank, RootCandidate(store, r, path))
  }

  /** None of the first `n` roots ends the search. */
  ghost predicate NoneOf(halts: Hash -> bool, roots: seq<Hash>, n: nat) {
    n <= |roots| && forall j :: 0 <= j < n ==> !halts(roots[j])
  }

  /** The loop over the recorded roots, each of them tried once; root `n` decides. */
  method TryRoots(store: Store, roots: seq<Hash>, path: string, ghost halts: Hash -> bool, ghost rank: Hash -> nat)
    returns (found: Recovery, n: nat)
    requires WellFormed(store, rank) && halts == HaltsAt(store, rank, path)
    ensures NoneOf(halts, roots, n)
    ensures found.NotFound? ==> n == |roots|
    ensures !found.NotFound? ==> n < |roots| && Tried(store, rank, RootCandidate(store, roots[n], path), found)
  {
    n := 0;
    var seen: set<Hash> := {};
    while n < |roots|
      invariant NoneOf(halts, roots, n) && forall r :: r in seen ==> !halts(r)
    {
      var root := roots[n];
      if root == "" {
        BlankNeverHalts(store, rank, path);
      } else if root !in seen {
        seen := seen + {root};
        found := TryRoot(store, root, path, rank);
        if !found.NotFound? {
          return;
        }
        TriedInVain(store, rank, root, path);
      }
      n := n + 1;
    }
    found := NotFound;
  }

  lemma BlankNeverHalts(store: Store, rank: Hash -> nat, path: string)
    requires Acyclic(store, rank)
    ensures !HaltsAt(store, rank, path)("")
  {
  }

  lemma TriedInVain(store: Store, rank: Hash -> nat, root: Hash, path: string)
    requires Acyclic(store, rank) && Tried(store, rank, RootCandidate(store, root, path), NotFound)
    ensures !HaltsAt(store, rank, path)(root)
  {
  }

  lemma RootsAnswer(store: Store, rank: Hash -> nat, log: seq<LogEntry>, path: string, found: Recovery, n: nat)
    requires Acyclic(store, rank) && NoneOf(HaltsAt(store, rank, path), RecordedRoots(log), n)
    requires found.NotFound? ==> n == |RecordedRoots(log)|
    requires !found.NotFound? ==>
               && n < |RecordedRoots(log)|
               && Tried(store, rank, RootCandidate(store, RecordedRoots(log)[n], path), found)
    ensures Answers(store, rank, HistoryCandidates(store, log, path), found)
  {
    var candidates := HistoryCandidates(store, log, path);
    forall j: nat | j < |RecordedRoots(log)|
      ensures |candidates| == |RecordedRoots(log)|
      ensures candidates[j] == RootCandidate(store, RecordedRoots(log)[j], path)
    {
      CandidatesAt(store, log, path, j);
    }
    forall j | 0 <= j < n ensures !Halts(store, rank, candidates[j]) {
      assert !HaltsAt(store, rank, path)(RecordedRoots(log)[j]);
    }
    if !found.NotFound? {
      FirstDecides(store, rank, candidates, n, found);
    }
  }

  /** What one recorded root offers, if anything. */
  method TryRoot(store: Store, root: Hash, path: string, ghost rank: Hash -> nat) returns (found: Recovery)
    requires WellFormed(store, rank) && root != ""
    ensures Tried(store, rank, RootCandidate(store, root, path), found)
  {
    var sub := Navigate(store, root, path);
    if sub.None? || sub.value == "" {
      return NotFound;
    }
    var walk := FindMissingTreeObjects(store, sub.value, rank);
    if walk.Raised? {
      RaisedIsNotWhole(store, rank, sub.value);
      return SearchRaised;
    }
    return if walk == Absent([]) then Found(sub.value) else NotFound;
  }

  lemma {:induction false} RaisedIsNotWhole(store: Store, rank: Hash -> nat, h: Hash)
    requires Acyclic(store, rank) && HitsUnreadable(store, rank, h)
    ensures !Whole(store, rank, h)
    decreases rank(h)
  {
    if store[h].Tree? {
      var i :| 0 <= i < |store[h].entries| && ChildHits(store, rank, h, i);
      RaisedIsNotWhole(store, rank, store[h].entries[i].hash);
      assert !WholeEntry(store, rank, h, i);
    }
  }

  /** The first whole scope tree if the search of the scopes gets there, else the oldest recorded root
      that resolves the path to a whole tree. */
  method FindRecoverySubtree(store: Store, scopes: ScopeTable, log: seq<LogEntry>, path: string,
                             ghost rank: Hash -> nat)
    returns (found: Recovery)
    requires WellFormed(store, rank)
    ensures Recovers(store, rank, scopes, log, path, found)
    ensures found.Found? ==> Whole(store, rank, found.sub)
  {
    found := ScopeRecovery(store, scopes, path, rank);
    if !found.Found? {
      forall sub ensures !Answers(store, rank, ScopeCandidates(scopes, path), Found(sub)) {
        if Answers(store, rank, ScopeCandidates(scopes, path), Found(sub)) {
          AnswersUnique(store, rank, ScopeCandidates(scopes, path), found, Found(sub));
        }
      }
      found := HistoryRecovery(store, log, path, rank);
    }
  }

  // ---- The answer by scopes and log entries ------------------------------------------------

  /** Every log entry records two roots, in the order of the log. */
  lemma {:induction false} RecordedRootsAt(log: seq<LogEntry>, i: nat)
    requires i < |log|
    ensures |RecordedRoots(log)| == 2 * |log|
    ensures RecordedRoots(log)[2 * i] == log[i].rootHash && RecordedRoots(log)[2 * i + 1] == log[i].root
  {
    var n := |log| - 1;
    if i < n {
      RecordedRootsAt(log[..n], i);
    } else if n > 0 {
      RecordedRootsAt(log[..n], 0);
    }
  }

  /** `sub` is what ends a search: all of it is there, or some of it cannot be fetched. */
  ghost predicate Ends(store: Store, sub: Hash) {
    Intact(store, sub) || ReachesUnreadable(store, sub)
  }

  /** Root `r` holds `sub` at the path. */
  ghost predicate Holds(store: Store, r: Hash, path: string, sub: Hash) {
    r != "" && Resolve(store, r, Segments(path)) == Some(sub)
  }

  /** Root `r` holds something at the path that ends the search. */
  ghost predicate RootEnds(store: Store, r: Hash, path: string) {
    exists sub :: Holds(store, r, path, sub) && Ends(store, sub)
  }

  ghost predicate EntryEnds(store: Store, e: LogEntry, path: string) {
    RootEnds(store, e.rootHash, path) || RootEnds(store, e.root, path)
  }

  /** Entry `i` is the first in the log that ends the search, and its first root to do so holds `sub`. */
  ghost predicate OldestHolds(store: Store, log: seq<LogEntry>, path: string, i: nat, sub: Hash) {
    && i < |log| && (forall j :: 0 <= j < i ==> !EntryEnds(store, log[j], path))
    && EntryEnds(store, log[i], path)
    && Holds(store, if RootEnds(store, log[i].rootHash, path) then log[i].rootHash else log[i].root, path, sub)
  }

  /** Scope `k` is for exactly this folder, and its tree is `sub`. */
  ghost predicate ScopeHolds(scopes: ScopeTable, path: string, k: nat, sub: Hash) {
    k < |scopes| && StripSlashes(scopes[k].0) == StripSlashes(path) && scopes[k].1 == sub != ""
  }

  ghost predicate ScopeEnds(store: Store, scopes: ScopeTable, path: string, k: nat) {
    k < |scopes| && ScopeHolds(scopes, path, k, scopes[k].1) && Ends(store, scopes[k].1)
  }

  /** The first scope that ends the search of the scopes has a tree with nothing lost, `sub`. */
  ghost predicate ScopeWins(store: Store, scopes: ScopeTable, path: string, sub: Hash) {
    exists k: nat ::
      && ScopeHolds(scopes, path, k, sub) && Intact(store, sub)
      && forall j: nat :: j < k ==> !ScopeEnds(store, scopes, path, j)
  }

  lemma EndsIsHalt(store: Store, rank: Hash -> nat, sub: Hash)
    requires WellFormed(store, rank)
    ensures Whole(store, rank, sub) <==> Intact(store, sub)
    ensures Halts(store, rank, Some(sub)) <==> Ends(store, sub)
    ensures ReachesUnreadable(store, sub) ==> !Intact(store, sub)
  {
    WholeIff(store, rank, sub);
    HitsUnreadableIff(store, rank, sub);
  }

  lemma {:induction false} NamedResolves(store: Store, r: Hash, p: Path)
    requires Decoded(store) && r != "" && Resolve(store, r, p).Some?
    ensures Resolve(store, r, p).value != ""
    decreases p
  {
    if p != [] {
      var i := ChildDirFrom(store[r].entries, p[0]);
      NamedResolves(store, store[r].entries[i].hash, p[1..]);
    }
  }

  /** What a recorded root offers. */
  lemma CandidateIs(store: Store, rank: Hash -> nat, r: Hash, path: string)
    requires WellFormed(store, rank)
    ensures forall sub :: RootCandidate(store, r, path) == Some(sub) <==> Holds(store, r, path, sub)
    ensures Halts(store, rank, RootCandidate(store, r, path)) <==> RootEnds(store, r, path)
  {
    if r != "" && Resolve(store, r, Segments(path)).Some? {
      NamedResolves(store, r, Segments(path));
    }
    var candidate := RootCandidate(store, r, path);
    if candidate.Some? {
      EndsIsHalt(store, rank, candidate.value);
      assert Holds(store, r, path, candidate.value);
    }
  }

  lemma HistoryCandidateAt(store: Store, rank: Hash -> nat, log: seq<LogEntry>, path: string, i: nat)
    requires WellFormed(store, rank) && i < |log|
    ensures |HistoryCandidates(store, log, path)| == 2 * |log|
    ensures HistoryCandidates(store, log, path)[2 * i] == RootCandidate(store, log[i].rootHash, path)
    ensures HistoryCandidates(store, log, path)[2 * i + 1] == RootCandidate(store, log[i].root, path)
  {
    RecordedRootsAt(log, i);
    CandidatesAt(store, log, path, 2 * i);
    CandidatesAt(store, log, path, 2 * i + 1);
  }

  lemma CandidatesAt(store: Store, log: seq<LogEntry>, path: string, m: nat)
    requires m < |RecordedRoots(log)|
    ensures |HistoryCandidates(store, log, path)| == |RecordedRoots(log)|
    ensures HistoryCandidates(store, log, path)[m] == RootCandidate(store, RecordedRoots(log)[m], path)
  {
  }

  ghost predicate NoEntryEnds(store: Store, log: seq<LogEntry>, path: string, i: nat) {
    i <= |log| && forall j :: 0 <= j < i ==> !EntryEnds(store, log[j], path)
  }

  /** Entry `j` of the log stands behind two candidates. */
  ghost predicate Paired(store: Store, rank: Hash -> nat, log: seq<LogEntry>, path: string,
                         candidates: seq<Option<Hash>>, j: nat)
    requires Acyclic(store, rank)
  {
    && j < |log| && |candidates| == 2 * |log|
    && (EntryEnds(store, log[j], path) <==>
        Halts(store, rank, candidates[2 * j]) || Halts(store, rank, candidates[2 * j + 1]))
  }

  lemma EntryCandidates(store: Store, rank: Hash -> nat, log: seq<LogEntry>, path: string, j: nat)
    requires WellFormed(store, rank) && j < |log|
    ensures Paired(store, rank, log, path, HistoryCandidates(store, log, path), j)
  {
    HistoryCandidateAt(store, rank, log, path, j);
    CandidateIs(store, rank, log[j].rootHash, path);
    CandidateIs(store, rank, log[j].root, path);
  }

  lemma {:induction false} PairsBefore(store: Store, rank: Hash -> nat, log: seq<LogEntry>, path: string,
                                       candidates: seq<Option<Hash>>, i: nat)
    requires Acyclic(store, rank) && i <= |log| && |candidates| == 2 * |log|
    requires forall j: nat :: j < |log| ==> Paired(store, rank, log, path, candidates, j)
    ensures NoEntryEnds(store, log, path, i) <==> NoneBefore(store, rank, candidates, 2 * i)
    decreases i
  {
    if i > 0 {
      PairsBefore(store, rank, log, path, candidates, i - 1);
      assert Paired(store, rank, log, path, candidates, i - 1);
      TwoMore(store, rank, candidates, 2 * (i - 1));
    }
  }

  /** No entry before `i` ends the search exactly if no candidate before its two does. */
  lemma EarlierEntries(store: Store, rank: Hash -> nat, log: seq<LogEntry>, path: string, i: nat)
    requires WellFormed(store, rank) && i <= |log|
    ensures |HistoryCandidates(store, log, path)| == 2 * |log|
    ensures NoEntryEnds(store, log, path, i) <==>
            NoneBefore(store, rank, HistoryCandidates(store, log, path), 2 * i)
  {
    CandidatesPaired(store, rank, log, path);
    PairsBefore(store, rank, log, path, HistoryCandidates(store, log, path), i);
  }

  lemma CandidatesPaired(store: Store, rank: Hash -> nat, log: seq<LogEntry>, path: string)
    requires WellFormed(store, rank)
    ensures |HistoryCandidates(store, log, path)| == 2 * |log|
    ensures forall j: nat :: j < |log| ==> Paired(store, rank, log, path, HistoryCandidates(store, log, path), j)
  {
    if log != [] {
      RecordedRootsAt(log, 0);
    }
    forall j: nat | j < |log| ensures Paired(store, rank, log, path, HistoryCandidates(store, log, path), j) {
      EntryCandidates(store, rank, log, path, j);
    }
  }

  lemma TwoMore(store: Store, rank: Hash -> nat, candidates: seq<Option<Hash>>, m: nat)
    requires Acyclic(store, rank) && m + 2 <= |candidates|
    ensures NoneBefore(store, rank, candidates, m + 2) <==>
            && NoneBefore(store, rank, candidates, m)
            && !Halts(store, rank, candidates[m]) && !Halts(store, rank, candidates[m + 1])
  {
  }

  /** Of the two roots of an entry the first to end the search decides. */
  lemma EntryDecides(store: Store, rank: Hash -> nat, e: LogEntry, path: string, second: bool, sub: Hash)
    requires WellFormed(store, rank)
    requires Halts(store, rank, Some(sub))
    requires !second ==> RootCandidate(store, e.rootHash, path) == Some(sub)
    requires second ==>
               && !Halts(store, rank, RootCandidate(store, e.rootHash, path))
               && RootCandidate(store, e.root, path) == Some(sub)
    ensures EntryEnds(store, e, path)
    ensures Holds(store, if RootEnds(store, e.rootHash, path) then e.rootHash else e.root, path, sub)
  {
    CandidateIs(store, rank, e.rootHash, path);
    CandidateIs(store, rank, e.root, path);
  }

  /** The first candidate that ends the search of the history comes from the oldest entry that has one. */
  lemma FirstIsOldest(store: Store, rank: Hash -> nat, log: seq<LogEntry>, path: string, m: nat)
    requires WellFormed(store, rank) && FirstHalt(store, rank, HistoryCandidates(store, log, path), m)
    ensures OldestHolds(store, log, path, m / 2, HistoryCandidates(store, log, path)[m].value)
  {
    var i, second := m / 2, m % 2 == 1;
    CandidatesPaired(store, rank, log, path);
    EarlierEntries(store, rank, log, path, i);
    HistoryCandidateAt(store, rank, log, path, i);
    EntryDecides(store, rank, log[i], path, second, HistoryCandidates(store, log, path)[m].value);
  }

  /** The answer of a search in terms of the scope table and of log positions: the first scope for exactly
      this folder that ends the search of the scopes wins if its tree is intact; otherwise the oldest entry
      with a root that holds something at the path which ends the search decides. */
  lemma RecoversFrom(store: Store, rank: Hash -> nat, scopes: ScopeTable, log: seq<LogEntry>, path: string,
                     found: Recovery)
    requires WellFormed(store, rank) && Recovers(store, rank, scopes, log, path, found)
    ensures match found
            case Found(sub) =>
              && Intact(store, sub)
              && (ScopeWins(store, scopes, path, sub)
                  || ((forall s :: !ScopeWins(store, scopes, path, s))
                      && exists i: nat :: OldestHolds(store, log, path, i, sub)))
            case SearchRaised =>
              && (forall s :: !ScopeWins(store, scopes, path, s))
              && exists i: nat, sub :: OldestHolds(store, log, path, i, sub) && ReachesUnreadable(store, sub)
            case NotFound =>
              && (forall s :: !ScopeWins(store, scopes, path, s))
              && forall i :: 0 <= i < |log| ==> !EntryEnds(store, log[i], path)
  {
    ScopeSearchIs(store, rank, scopes, path);
    if !exists sub :: Answers(store, rank, ScopeCandidates(scopes, path), Found(sub)) {
      HistorySearchIs(store, rank, log, path, found);
    } else {
      EndsIsHalt(store, rank, found.sub);
    }
  }

  lemma ScopeCandidateIs(store: Store, rank: Hash -> nat, scopes: ScopeTable, path: string, k: nat)
    requires WellFormed(store, rank) && k < |scopes|
    ensures forall sub :: ScopeCandidates(scopes, path)[k] == Some(sub) <==> ScopeHolds(scopes, path, k, sub)
    ensures Halts(store, rank, ScopeCandidates(scopes, path)[k]) <==> ScopeEnds(store, scopes, path, k)
  {
    EndsIsHalt(store, rank, scopes[k].1);
  }

  lemma ScopeSearchIs(store: Store, rank: Hash -> nat, scopes: ScopeTable, path: string)
    requires WellFormed(store, rank)
    ensures forall sub ::
              Answers(store, rank, ScopeCandidates(scopes, path), Found(sub)) <==> ScopeWins(store, scopes, path, sub)
  {
    var candidates := ScopeCandidates(scopes, path);
    forall k: nat | k < |scopes|
      ensures forall sub :: candidates[k] == Some(sub) <==> ScopeHolds(scopes, path, k, sub)
      ensures Halts(store, rank, candidates[k]) <==> ScopeEnds(store, scopes, path, k)
    {
      ScopeCandidateIs(store, rank, scopes, path, k);
    }
    forall sub
      ensures Answers(store, rank, candidates, Found(sub)) <==> ScopeWins(store, scopes, path, sub)
    {
      EndsIsHalt(store, rank, sub);
      if k: nat :|
        && ScopeHolds(scopes, path, k, sub) && Intact(store, sub)
        && forall j: nat :: j < k ==> !ScopeEnds(store, scopes, path, j)
      {
        assert FirstHalt(store, rank, candidates, k);
      }
    }
  }

  lemma HistorySearchIs(store: Store, rank: Hash -> nat, log: seq<LogEntry>, path: string, found: Recovery)
    requires WellFormed(store, rank) && Answers(store, rank, HistoryCandidates(store, log, path), found)
    ensures match found
            case Found(sub) => Intact(store, sub) && exists i: nat :: OldestHolds(store, log, path, i, sub)
            case SearchRaised =>
              exists i: nat, sub :: OldestHolds(store, log, path, i, sub) && ReachesUnreadable(store, sub)
            case NotFound => forall i :: 0 <= i < |log| ==> !EntryEnds(store, log[i], path)
  {
    var candidates := HistoryCandidates(store, log, path);
    if found.NotFound? {
      EarlierEntries(store, rank, log, path, |log|);
    } else {
      var m: nat :| FirstHalt(store, rank, candidates, m)
        && if found.Found? then candidates[m] == Some(found.sub) && Whole(store, rank, found.sub)
           else !Whole(store, rank, candidates[m].value);
      FirstIsOldest(store, rank, log, path, m);
      EndsIsHalt(store, rank, candidates[m].value);
      assert OldestHolds(store, log, path, m / 2, candidates[m].value);
    }
  }
}
