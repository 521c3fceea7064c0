/** Finding damaged folders: `_navigate` and `scan_damaged_dirs`. */
module DamagedFolders {
  import opened Text
  import opened ObjectStore
  import opened Positions

  const ROOT_SENTINEL := "<project root>"

  // ---- Paths as text -------------------------------------------------------------------

  function ChildPath(path: string, name: Name): string {
    if path == "" then name else path + "/" + name
  }

  function PathString(p: Path): string {
    if p == [] then "" else ChildPath(PathString(p[..|p| - 1]), p[|p| - 1])
  }

  function PathStrings(ps: seq<Path>): (ss: seq<string>)
    ensures |ss| == |ps|
    ensures forall i :: 0 <= i < |ps| ==> ss[i] == PathString(ps[i])
  {
    seq(|ps|, i requires 0 <= i < |ps| => PathString(ps[i]))
  }

  function NonEmpty(parts: seq<string>): seq<string> {
    if parts == [] then [] else (if parts[0] == "" then [] else [parts[0]]) + NonEmpty(parts[1..])
  }

  /** The segments `_navigate` walks: empty ones are dropped. */
  function Segments(path: string): Path {
    NonEmpty(Split(path, '/'))
  }

  ghost predicate Names(p: Path) {
    forall i :: 0 <= i < |p| ==> IsName(p[i])
  }

  lemma NonEmptyCons(part: string, parts: seq<string>)
    ensures NonEmpty([part] + parts) == (if part == "" then [] else [part]) + NonEmpty(parts)
  {
    assert ([part] + parts)[1..] == parts;
  }

  lemma {:induction false} NonEmptyConcat(a: seq<string>, b: seq<string>)
    ensures NonEmpty(a + b) == NonEmpty(a) + NonEmpty(b)
  {
    if a == [] {
      assert a + b == b;
    } else {
      NonEmptyConcat(a[1..], b);
      NonEmptyCons(a[0], a[1..] + b);
      NonEmptyCons(a[0], a[1..]);
      assert a == [a[0]] + a[1..] && a + b == [a[0]] + (a[1..] + b);
    }
  }

  lemma NameIsSegment(n: Name)
    requires IsName(n)
    ensures Split(n, '/') == [n] && NonEmpty([n]) == [n]
  {
    SplitWhole(n, '/');
  }

  /** A name appended to a path text is one more segment. */
  lemma SegmentsOfChild(s: string, n: Name)
    requires IsName(n)
    ensures Segments(ChildPath(s, n)) == Segments(s) + [n]
  {
    NameIsSegment(n);
    if s == "" {
      assert Split(s, '/') == [""] && NonEmpty([""]) == [];
    } else {
      SplitConcat(s, n, '/');
      NonEmptyConcat(Split(s, '/'), [n]);
    }
  }

  /** A reported path reads back as the names it was built from. */
  lemma {:induction false} SegmentsOfPathString(p: Path)
    requires Names(p)
    ensures Segments(PathString(p)) == p
    ensures p != [] ==> PathString(p) != ""
  {
    if p != [] {
      var front, n := p[..|p| - 1], p[|p| - 1];
      SegmentsOfPathString(front);
      SegmentsOfChild(PathString(front), n);
      assert p == front + [n];
    }
  }

  /** Every path that resolves consists of names. */
  lemma {:induction false} ResolvedNames(store: Store, h: Hash, p: Path)
    requires Decoded(store) && Resolve(store, h, p).Some?
    ensures Names(p)
    decreases p
  {
    if p != [] {
      var i := ChildDirFrom(store[h].entries, p[0]);
      ResolvedNames(store, store[h].entries[i].hash, p[1..]);
      forall k | 0 <= k < |p| ensures IsName(p[k]) {
        assert k > 0 ==> p[k] == p[1..][k - 1];
      }
    }
  }

  // ---- _navigate -----------------------------------------------------------------------

  method Navigate(store: Store, root: Hash, path: string) returns (found: Option<Hash>)
    requires "" !in store
    ensures found == Resolve(store, root, Segments(path))
  {
    var parts := Segments(path);
    var current := root;
    for k := 0 to |parts|
      invariant Resolve(store, root, parts) == Resolve(store, current, parts[k..])
    {
      if current == "" || current !in store {
        return None;
      }
      match store[current] {
        case Unreadable => return None;
        case NonTree => return None;
        case Tree(entries) =>
          var next := "";
          for i := 0 to |entries|
            invariant next == ""
            invariant ChildDir(entries, parts[k]) == ChildDir(entries[i..], parts[k])
          {
            if entries[i].name == parts[k] {
              next := if entries[i].kind.Dir? then entries[i].hash else "";
              break;
            }
          }
          if next == "" {
            return None;
          }
          assert ChildDir(entries, parts[k]) == Some(next);
          assert parts[k..][1..] == parts[k + 1..];
          current := next;
      }
    }
    return Some(current);
  }

  // ---- What a scan should report -------------------------------------------------------

  /** Children of one tree whose object is missing, as paths below `at`, in entry order. */
  function MissingChildren(store: Store, es: seq<Entry>, at: Path): seq<Path> {
    if es == [] then []
    else
      var e := es[|es| - 1];
      MissingChildren(store, es[..|es| - 1], at)
      + if e.kind.Dir? && e.hash !in store then [at + [e.name]] else []
  }

  /** Children of one tree that can be descended into. */
  function PresentChildren(store: Store, es: seq<Entry>, at: Path): seq<(Path, Hash)> {
    if es == [] then []
    else
      var e := es[|es| - 1];
      PresentChildren(store, es[..|es| - 1], at)
      + if e.kind.Dir? && e.hash in store then [(at + [e.name], e.hash)] else []
  }

  /** All damaged paths below `h`, in the order a depth-first worklist finds them. */
  ghost function Findings(store: Store, rank: Hash -> nat, h: Hash, at: Path): seq<Path>
    requires Acyclic(store, rank)
    decreases rank(h), 1, 0
  {
    if IsTree(store, h)
    then MissingChildren(store, store[h].entries, at)
         + Below(store, rank, h, |store[h].entries|, at)
    else []
  }

  /** Findings below the first `k` entries of tree `h`, last child first. */
  ghost function Below(store: Store, rank: Hash -> nat, h: Hash, k: nat, at: Path): seq<Path>
    requires Acyclic(store, rank)
    requires IsTree(store, h) && k <= |store[h].entries|
    decreases rank(h), 0, k
  {
    if k == 0 then []
    else
      var e := store[h].entries[k - 1];
      (if e.kind.Dir? && e.hash in store
       then Findings(store, rank, e.hash, at + [e.name]) else [])
      + Below(store, rank, h, k - 1, at)
  }

  ghost function Pending(store: Store, rank: Hash -> nat, trail: seq<(Path, Hash)>): seq<Path>
    requires Acyclic(store, rank)
  {
    if trail == [] then []
    else
      var (at, h) := trail[|trail| - 1];
      Findings(store, rank, h, at) + Pending(store, rank, trail[..|trail| - 1])
  }

  /** The number of nodes of the tree at `h` once shared subtrees are unfolded. */
  ghost function Weight(store: Store, rank: Hash -> nat, h: Hash): (w: nat)
    requires Acyclic(store, rank)
    ensures w > 0
    decreases rank(h), 1, 0
  {
    if IsTree(store, h) then 1 + ChildWeight(store, rank, h, |store[h].entries|) else 1
  }

  ghost function ChildWeight(store: Store, rank: Hash -> nat, h: Hash, k: nat): nat
    requires Acyclic(store, rank)
    requires IsTree(store, h) && k <= |store[h].entries|
    decreases rank(h), 0, k
  {
    if k == 0 then 0
    else
      var e := store[h].entries[k - 1];
      ChildWeight(store, rank, h, k - 1)
      + if !e.kind.Dir? then 0 else if e.hash in store then Weight(store, rank, e.hash) else 1
  }

  ghost function TrailWeight(store: Store, rank: Hash -> nat, trail: seq<(Path, Hash)>): nat
    requires Acyclic(store, rank)
  {
    if trail == [] then 0
    else TrailWeight(store, rank, trail[..|trail| - 1])
         + Weight(store, rank, trail[|trail| - 1].1)
  }

  /** What pushing one more present child does to the worklist. */
  lemma PushedChild(store: Store, es: seq<Entry>, k: nat, at: Path, base: seq<(Path, Hash)>)
    requires 0 < k <= |es|
    ensures var before := base + PresentChildren(store, es[..k - 1], at);
            base + PresentChildren(store, es[..k], at) ==
            if es[k - 1].kind.Dir? && es[k - 1].hash in store
            then before + [(at + [es[k - 1].name], es[k - 1].hash)] else before
  {
    assert es[..k][..k - 1] == es[..k - 1];
  }

  lemma PendingPush(store: Store, rank: Hash -> nat, base: seq<(Path, Hash)>, at: Path, h: Hash)
    requires Acyclic(store, rank)
    ensures Pending(store, rank, base + [(at, h)]) == Findings(store, rank, h, at) + Pending(store, rank, base)
  {
    assert (base + [(at, h)])[..|base|] == base;
  }

  /** What entry `k - 1` of tree `h` contributes below `at`. */
  ghost function FindingsAt(store: Store, rank: Hash -> nat, h: Hash, k: nat, at: Path): seq<Path>
    requires Acyclic(store, rank) && IsTree(store, h) && 0 < k <= |store[h].entries|
  {
    var e := store[h].entries[k - 1];
    if e.kind.Dir? && e.hash in store then Findings(store, rank, e.hash, at + [e.name]) else []
  }

  lemma BelowUnfolds(store: Store, rank: Hash -> nat, h: Hash, k: nat, at: Path)
    requires Acyclic(store, rank) && IsTree(store, h) && 0 < k <= |store[h].entries|
    ensures Below(store, rank, h, k, at) == FindingsAt(store, rank, h, k, at) + Below(store, rank, h, k - 1, at)
  {
  }

  /** Entry `k - 1`, on top of the entries before it. */
  lemma PushedOne(store: Store, rank: Hash -> nat, h: Hash, k: nat, at: Path, base: seq<(Path, Hash)>)
    requires Acyclic(store, rank) && IsTree(store, h) && 0 < k <= |store[h].entries|
    ensures Pending(store, rank, base + PresentChildren(store, store[h].entries[..k], at))
         == FindingsAt(store, rank, h, k, at)
            + Pending(store, rank, base + PresentChildren(store, store[h].entries[..k - 1], at))
  {
    var e := store[h].entries[k - 1];
    var before := base + PresentChildren(store, store[h].entries[..k - 1], at);
    PushedChild(store, store[h].entries, k, at, base);
    if e.kind.Dir? && e.hash in store {
      PendingPush(store, rank, before, at + [e.name], e.hash);
    } else {
      assert [] + Pending(store, rank, before) == Pending(store, rank, before);
    }
  }

  lemma {:induction false} PushedPending(store: Store, rank: Hash -> nat, h: Hash, k: nat, at: Path,
                                         base: seq<(Path, Hash)>)
    requires Acyclic(store, rank) && IsTree(store, h) && k <= |store[h].entries|
    ensures Pending(store, rank, base + PresentChildren(store, store[h].entries[..k], at))
            == Below(store, rank, h, k, at) + Pending(store, rank, base)
    decreases k
  {
    if k == 0 {
      assert base + PresentChildren(store, store[h].entries[..0], at) == base;
      assert [] + Pending(store, rank, base) == Pending(store, rank, base);
    } else {
      var mine, below := FindingsAt(store, rank, h, k, at), Below(store, rank, h, k - 1, at);
      var rest := Pending(store, rank, base);
      calc {
        Pending(store, rank, base + PresentChildren(store, store[h].entries[..k], at));
        { PushedOne(store, rank, h, k, at, base); }
        mine + Pending(store, rank, base + PresentChildren(store, store[h].entries[..k - 1], at));
        { PushedPending(store, rank, h, k - 1, at, base); }
        mine + (below + rest);
        { ConcatAssociates(mine, below, rest); }
        mine + below + rest;
        { BelowUnfolds(store, rank, h, k, at); }
        Below(store, rank, h, k, at) + rest;
      }
    }
  }

  lemma {:induction false} PushedWeight(store: Store, rank: Hash -> nat, h: Hash, k: nat, at: Path,
                                        base: seq<(Path, Hash)>)
    requires Acyclic(store, rank) && IsTree(store, h) && k <= |store[h].entries|
    ensures TrailWeight(store, rank, base + PresentChildren(store, store[h].entries[..k], at))
            <= TrailWeight(store, rank, base) + ChildWeight(store, rank, h, k)
    decreases k
  {
    var es := store[h].entries;
    if k == 0 {
      assert base + PresentChildren(store, es[..0], at) == base;
    } else {
      PushedWeight(store, rank, h, k - 1, at, base);
      PushedChild(store, es, k, at, base);
      var before := base + PresentChildren(store, es[..k - 1], at);
      var pushed := base + PresentChildren(store, es[..k], at);
      if es[k - 1].kind.Dir? && es[k - 1].hash in store {
        assert pushed[..|pushed| - 1] == before;
      }
    }
  }

  // ---- scan_damaged_dirs ---------------------------------------------------------------

  /** Exactly the damaged folders, each once, each under the text that navigates to it. */
  ghost predicate ReportsExactly(store: Store, root: Hash, damaged: seq<string>) {
    && (forall i, j :: 0 <= i < j < |damaged| ==> damaged[i] != damaged[j])
    && (forall s :: s in damaged ==>
          Missing(store, root, Segments(s)) && PathString(Segments(s)) == s)
    && (forall p :: Missing(store, root, p) ==> PathString(p) in damaged)
  }

  /** The stack the source keeps: path texts instead of name lists. */
  function Stack(trail: seq<(Path, Hash)>): (stack: seq<(string, Hash)>)
    ensures |stack| == |trail|
    ensures forall i :: 0 <= i < |trail| ==> stack[i] == (PathString(trail[i].0), trail[i].1)
  {
    seq(|trail|, i requires 0 <= i < |trail| => (PathString(trail[i].0), trail[i].1))
  }

  /** What one more entry adds to the report and to the stack. */
  lemma EntryStep(store: Store, es: seq<Entry>, i: nat, at: Path)
    requires i < |es|
    ensures var e, path := es[i], ChildPath(PathString(at), es[i].name);
            && PathStrings(MissingChildren(store, es[..i + 1], at))
               == PathStrings(MissingChildren(store, es[..i], at))
                  + (if e.kind.Dir? && e.hash !in store then [path] else [])
            && Stack(PresentChildren(store, es[..i + 1], at))
               == Stack(PresentChildren(store, es[..i], at))
                  + (if e.kind.Dir? && e.hash in store then [(path, e.hash)] else [])
  {
    assert es[..i + 1][..i] == es[..i];
    assert (at + [es[i].name])[..|at|] == at;
  }

  /** Visiting the top of the worklist keeps what will be reported and makes the worklist lighter. */
  lemma Visit(store: Store, rank: Hash -> nat, h: Hash, es: seq<Entry>, at: Path,
              base: seq<(Path, Hash)>)
    requires Acyclic(store, rank) && h in store
    requires es == if IsTree(store, h) then store[h].entries else []
    ensures var before, after := base + [(at, h)], base + PresentChildren(store, es, at);
            && MissingChildren(store, es, at) + Pending(store, rank, after) == Pending(store, rank, before)
            && TrailWeight(store, rank, after) < TrailWeight(store, rank, before)
  {
    assert (base + [(at, h)])[..|base|] == base;
    if IsTree(store, h) {
      assert es[..|es|] == es;
      PushedPending(store, rank, h, |es|, at, base);
      PushedWeight(store, rank, h, |es|, at, base);
      ConcatAssociates(MissingChildren(store, es, at), Below(store, rank, h, |es|, at), Pending(store, rank, base));
    } else {
      assert base + PresentChildren(store, es, at) == base;
    }
  }

  lemma StackConcat(a: seq<(Path, Hash)>, b: seq<(Path, Hash)>)
    ensures Stack(a + b) == Stack(a) + Stack(b)
  {
  }

  lemma VisitTop(store: Store, rank: Hash -> nat, trail: seq<(Path, Hash)>, found: seq<Path>, es: seq<Entry>)
    requires Acyclic(store, rank) && trail != []
    requires forall t :: t in trail ==> t.1 in store
    requires var h := trail[|trail| - 1].1; es == if IsTree(store, h) then store[h].entries else []
    ensures var at, base := trail[|trail| - 1].0, trail[..|trail| - 1];
            var after, reported := base + PresentChildren(store, es, at), found + MissingChildren(store, es, at);
            && reported + Pending(store, rank, after) == found + Pending(store, rank, trail)
            && TrailWeight(store, rank, after) < TrailWeight(store, rank, trail)
            && PathStrings(reported) == PathStrings(found) + PathStrings(MissingChildren(store, es, at))
            && Stack(after) == Stack(trail)[..|base|] + Stack(PresentChildren(store, es, at))
            && forall t :: t in after ==> t.1 in store
  {
    var (at, h) := trail[|trail| - 1];
    var base := trail[..|trail| - 1];
    var missing, present := MissingChildren(store, es, at), PresentChildren(store, es, at);
    assert trail == base + [(at, h)] && (at, h) in trail;
    Visit(store, rank, h, es, at, base);
    ConcatAssociates(found, missing, Pending(store, rank, base + present));
    PathStringsConcat(found, missing);
    VisitStack(store, trail, at, es);
  }

  lemma VisitStack(store: Store, trail: seq<(Path, Hash)>, at: Path, es: seq<Entry>)
    requires trail != [] && forall t :: t in trail ==> t.1 in store
    ensures var base, present := trail[..|trail| - 1], PresentChildren(store, es, at);
            && Stack(base + present) == Stack(trail)[..|base|] + Stack(present)
            && forall t :: t in base + present ==> t.1 in store
  {
    var base, present := trail[..|trail| - 1], PresentChildren(store, es, at);
    StackConcat(base, present);
    assert Stack(base) == Stack(trail)[..|base|];
    PresentChildrenStored(store, es, at);
    assert forall t :: t in base ==> t in trail;
  }

  /** The inner loop: missing folders join the report, present ones the stack. */
  method ScanEntries(store: Store, entries: seq<Entry>, path: string, ghost at: Path,
                     damagedBefore: seq<string>, stackBefore: seq<(string, Hash)>)
    returns (damaged: seq<string>, stack: seq<(string, Hash)>)
    requires path == PathString(at)
    ensures damaged == damagedBefore + PathStrings(MissingChildren(store, entries, at))
    ensures stack == stackBefore + Stack(PresentChildren(store, entries, at))
  {
    damaged, stack := damagedBefore, stackBefore;
    for i := 0 to |entries|
      invariant damaged == damagedBefore + PathStrings(MissingChildren(store, entries[..i], at))
      invariant stack == stackBefore + Stack(PresentChildren(store, entries[..i], at))
    {
      EntryStep(store, entries, i, at);
      var e := entries[i];
      ghost var text := ChildPath(PathString(at), e.name);
      ConcatAssociates(damagedBefore, PathStrings(MissingChildren(store, entries[..i], at)),
                       if e.kind.Dir? && e.hash !in store then [text] else []);
      ConcatAssociates(stackBefore, Stack(PresentChildren(store, entries[..i], at)),
                       if e.kind.Dir? && e.hash in store then [(text, e.hash)] else []);
      if e.kind.Dir? {
        var childPath := ChildPath(path, e.name);
        if e.hash !in store {
          damaged := damaged + [childPath];
        } else {
          stack := stack + [(childPath, e.hash)];
        }
      }
    }
    assert entries[..|entries|] == entries;
  }

  /** The worklist loop: everything the depth-first order lists, in that order. */
  method ScanWorklist(store: Store, root: Hash, ghost rank: Hash -> nat)
    returns (damaged: seq<string>, ghost found: seq<Path>)
    requires Acyclic(store, rank) && root in store
    ensures found == Findings(store, rank, root, []) && damaged == PathStrings(found)
  {
    damaged, found := [], [];
    var stack := [("", root)];
    ghost var trail: seq<(Path, Hash)> := [([], root)];
    while stack != []
      invariant stack == Stack(trail) && damaged == PathStrings(found)
      invariant forall t :: t in trail ==> t.1 in store
      invariant found + Pending(store, rank, trail) == Findings(store, rank, root, [])
      decreases TrailWeight(store, rank, trail)
    {
      var (path, treeHash) := stack[|stack| - 1];
      stack := stack[..|stack| - 1];
      ghost var at := trail[|trail| - 1].0;
      assert trail[|trail| - 1] in trail;
      var entries := if store[treeHash].Tree? then store[treeHash].entries else [];
      damaged, stack := ScanEntries(store, entries, path, at, damaged, stack);
      VisitTop(store, rank, trail, found, entries);
      trail, found := trail[..|trail| - 1] + PresentChildren(store, entries, at),
                      found + MissingChildren(store, entries, at);
    }
    assert trail == [] && Pending(store, rank, trail) == [];
  }

  method ScanDamagedDirs(store: Store, root: Hash, ghost rank: Hash -> nat)
    returns (damaged: seq<string>)
    requires WellFormed(store, rank)
    ensures root == "" ==> damaged == []
    ensures root != "" && root !in store ==> damaged == [ROOT_SENTINEL]
    ensures root in store ==> ReportsExactly(store, root, damaged)
  {
    if root == "" {
      return [];
    }
    if root !in store {
      return [ROOT_SENTINEL];
    }
    ghost var found: seq<Path>;
    damaged, found := ScanWorklist(store, root, rank);
    FindingsExact(store, rank, root);
    ReportedStrings(store, root, found);
  }

  lemma {:induction false} PresentChildrenStored(store: Store, es: seq<Entry>, at: Path)
    ensures forall c :: c in PresentChildren(store, es, at) ==> c.1 in store
  {
    if es != [] {
      PresentChildrenStored(store, es[..|es| - 1], at);
    }
  }

  lemma PathStringsConcat(a: seq<Path>, b: seq<Path>)
    ensures PathStrings(a + b) == PathStrings(a) + PathStrings(b)
  {
  }

  // ---- The findings are exactly the damaged folders --------------------------------------

  lemma {:induction false} MissingChildrenFrom(store: Store, es: seq<Entry>, at: Path, p: Path) returns (i: nat)
    requires p in MissingChildren(store, es, at)
    ensures i < |es| && p == at + [es[i].name] && es[i].kind.Dir? && es[i].hash !in store
  {
    var n := |es| - 1;
    if p in MissingChildren(store, es[..n], at) {
      i := MissingChildrenFrom(store, es[..n], at, p);
    } else {
      i := n;
    }
  }

  lemma {:induction false} MissingChildrenHas(store: Store, es: seq<Entry>, at: Path, i: nat)
    requires i < |es| && es[i].kind.Dir? && es[i].hash !in store
    ensures at + [es[i].name] in MissingChildren(store, es, at)
  {
    if i < |es| - 1 {
      MissingChildrenHas(store, es[..|es| - 1], at, i);
    }
  }

  lemma InBelow(store: Store, rank: Hash -> nat, h: Hash, k: nat, at: Path, p: Path)
    requires Acyclic(store, rank) && IsTree(store, h) && 0 < k <= |store[h].entries|
    ensures p in Below(store, rank, h, k, at) <==>
            p in FindingsAt(store, rank, h, k, at) || p in Below(store, rank, h, k - 1, at)
  {
    BelowUnfolds(store, rank, h, k, at);
    InConcat(FindingsAt(store, rank, h, k, at), Below(store, rank, h, k - 1, at), p);
  }

  lemma InConcat<T>(a: seq<T>, b: seq<T>, x: T)
    ensures x in a + b <==> x in a || x in b
  {
  }

  /** Something grown by one contribution at a time comes from one of them. */
  lemma {:induction false} Grown(grown: int -> bool, mine: int -> bool, k: nat)
    requires !grown(0)
    requires forall j {:trigger mine(j)} :: 0 < j <= k ==> (grown(j) <==> mine(j) || grown(j - 1))
    ensures grown(k) <==> exists i :: 0 < i <= k && mine(i)
  {
    if k > 0 {
      Grown(grown, mine, k - 1);
      assert mine(k) ==> grown(k);
      assert grown(k) ==> mine(k) || grown(k - 1);
    }
  }

  /** A path is found below the first `k` entries exactly if one of them contributes it. */
  lemma BelowIff(store: Store, rank: Hash -> nat, h: Hash, k: nat, at: Path, p: Path)
    requires Acyclic(store, rank) && IsTree(store, h) && k <= |store[h].entries|
    ensures p in Below(store, rank, h, k, at) <==> exists i :: 0 < i <= k && p in FindingsAt(store, rank, h, i, at)
  {
    var below := (j: int) => 0 <= j <= k && p in Below(store, rank, h, j, at);
    var mine := (j: int) => 0 < j <= k && p in FindingsAt(store, rank, h, j, at);
    forall j | 0 < j <= k ensures below(j) <==> mine(j) || below(j - 1) {
      InBelow(store, rank, h, j, at, p);
    }
    Grown(below, mine, k);
    if i :| 0 < i <= k && mine(i) {
      assert p in FindingsAt(store, rank, h, i, at);
    }
    if i :| 0 < i <= k && p in FindingsAt(store, rank, h, i, at) {
      assert mine(i);
    }
  }

  lemma BelowFrom(store: Store, rank: Hash -> nat, h: Hash, k: nat, at: Path, p: Path) returns (i: nat)
    requires Acyclic(store, rank) && IsTree(store, h) && k <= |store[h].entries|
    requires p in Below(store, rank, h, k, at)
    ensures i < k && store[h].entries[i].kind.Dir? && store[h].entries[i].hash in store
    ensures p in Findings(store, rank, store[h].entries[i].hash, at + [store[h].entries[i].name])
  {
    BelowIff(store, rank, h, k, at, p);
    var m :| 0 < m <= k && p in FindingsAt(store, rank, h, m, at);
    i := m - 1;
  }

  lemma {:induction false} FindingsSound(store: Store, rank: Hash -> nat, h: Hash, at: Path, p: Path)
    requires WellFormed(store, rank) && p in Findings(store, rank, h, at)
    ensures at < p && Missing(store, h, p[|at|..])
    decreases rank(h)
  {
    var es := store[h].entries;
    var i: nat;
    if p in MissingChildren(store, es, at) {
      i := MissingChildrenFrom(store, es, at, p);
      assert p[|at|..][1..] == [];
    } else {
      i := BelowFrom(store, rank, h, |es|, at, p);
      var inner := at + [es[i].name];
      FindingsSound(store, rank, es[i].hash, inner, p);
      assert p[|at|..][1..] == p[|inner|..];
      assert p[|at|] == inner[|at|];
    }
    assert p[|at|..][0] == es[i].name;
    ChildDirIs(es, i);
  }

  lemma FindingsUnderName(store: Store, rank: Hash -> nat, h: Hash, at: Path, n: Name, p: Path)
    requires WellFormed(store, rank) && p in Findings(store, rank, h, at + [n])
    ensures at < p && p[|at|] == n
  {
    FindingsSound(store, rank, h, at + [n], p);
    assert p[..|at| + 1] == at + [n];
  }

  lemma {:induction false} FindingsComplete(store: Store, rank: Hash -> nat, h: Hash, at: Path, q: Path)
    requires WellFormed(store, rank) && Missing(store, h, q)
    ensures at + q in Findings(store, rank, h, at)
    decreases q
  {
    var es := store[h].entries;
    var i := ChildDirFrom(es, q[0]);
    assert Resolve(store, h, q) == Resolve(store, es[i].hash, q[1..]);
    if |q| > 1 {
      FindingsComplete(store, rank, es[i].hash, at + [q[0]], q[1..]);
      assert at + [q[0]] + q[1..] == at + q;
      assert at + q in FindingsAt(store, rank, h, i + 1, at);
      BelowIff(store, rank, h, |es|, at, at + q);
    } else {
      assert q[1..] == [] && q == [q[0]];
      MissingChildrenHas(store, es, at, i);
    }
  }

  ghost predicate Distinct<T(!new)>(s: seq<T>) {
    forall i, j :: 0 <= i < j < |s| ==> s[i] != s[j]
  }

  lemma DistinctConcat<T(!new)>(a: seq<T>, b: seq<T>)
    requires Distinct(a) && Distinct(b)
    requires forall x :: x in a ==> x !in b
    ensures Distinct(a + b)
  {
    forall i, j | 0 <= i < j < |a + b| ensures (a + b)[i] != (a + b)[j] {
      if i < |a| <= j {
        assert a[i] in a;
      }
    }
  }

  lemma {:induction false} MissingChildrenDistinct(store: Store, es: seq<Entry>, at: Path)
    requires DecodedEntries(es)
    ensures Distinct(MissingChildren(store, es, at))
  {
    if es != [] {
      var n := |es| - 1;
      MissingChildrenDistinct(store, es[..n], at);
      var a := MissingChildren(store, es[..n], at);
      var last := if es[n].kind.Dir? && es[n].hash !in store then [at + [es[n].name]] else [];
      forall x | x in a ensures x !in last {
        var i := MissingChildrenFrom(store, es[..n], at, x);
        assert x[|at|] == es[i].name;
      }
      DistinctConcat(a, last);
    }
  }

  /** Two entries of one tree have different names, so no path is found below both. */
  lemma FoundBelowOne(store: Store, rank: Hash -> nat, h: Hash, k: nat, at: Path, x: Path)
    requires WellFormed(store, rank) && IsTree(store, h) && 0 < k <= |store[h].entries|
    requires x in FindingsAt(store, rank, h, k, at)
    ensures x !in Below(store, rank, h, k - 1, at)
  {
    FoundUnderName(store, rank, h, k, at, x);
    if x in Below(store, rank, h, k - 1, at) {
      BelowIff(store, rank, h, k - 1, at, x);
      var i :| 0 < i <= k - 1 && x in FindingsAt(store, rank, h, i, at);
      FoundUnderName(store, rank, h, i, at, x);
    }
  }

  lemma FoundUnderName(store: Store, rank: Hash -> nat, h: Hash, k: nat, at: Path, x: Path)
    requires WellFormed(store, rank) && IsTree(store, h) && 0 < k <= |store[h].entries|
    requires x in FindingsAt(store, rank, h, k, at)
    ensures at < x && x[|at|] == store[h].entries[k - 1].name
  {
    var e := store[h].entries[k - 1];
    FindingsUnderName(store, rank, e.hash, at, e.name, x);
  }

  lemma {:induction false} BelowDistinct(store: Store, rank: Hash -> nat, h: Hash, k: nat, at: Path)
    requires WellFormed(store, rank) && IsTree(store, h) && k <= |store[h].entries|
    ensures Distinct(Below(store, rank, h, k, at))
    decreases rank(h), 0, k
  {
    if k > 0 {
      var e := store[h].entries[k - 1];
      BelowDistinct(store, rank, h, k - 1, at);
      if e.kind.Dir? && e.hash in store {
        FindingsDistinct(store, rank, e.hash, at + [e.name]);
      }
      forall x | x in FindingsAt(store, rank, h, k, at) ensures x !in Below(store, rank, h, k - 1, at) {
        FoundBelowOne(store, rank, h, k, at, x);
      }
      DistinctConcat(FindingsAt(store, rank, h, k, at), Below(store, rank, h, k - 1, at));
      BelowUnfolds(store, rank, h, k, at);
    }
  }

  lemma {:induction false} FindingsDistinct(store: Store, rank: Hash -> nat, h: Hash, at: Path)
    requires WellFormed(store, rank)
    ensures Distinct(Findings(store, rank, h, at))
    decreases rank(h), 1, 0
  {
    if IsTree(store, h) {
      var es := store[h].entries;
      MissingChildrenDistinct(store, es, at);
      BelowDistinct(store, rank, h, |es|, at);
      forall x | x in MissingChildren(store, es, at) ensures x !in Below(store, rank, h, |es|, at) {
        var i := MissingChildrenFrom(store, es, at, x);
        if x in Below(store, rank, h, |es|, at) {
          var j := BelowFrom(store, rank, h, |es|, at, x);
          FindingsSound(store, rank, es[j].hash, at + [es[j].name], x);
        }
      }
      DistinctConcat(MissingChildren(store, es, at), Below(store, rank, h, |es|, at));
    }
  }

  /** The worklist order lists every damaged folder, nothing else, and nothing twice. */
  lemma FindingsExact(store: Store, rank: Hash -> nat, root: Hash)
    requires WellFormed(store, rank)
    ensures Distinct(Findings(store, rank, root, []))
    ensures forall p :: p in Findings(store, rank, root, []) <==> Missing(store, root, p)
  {
    FindingsDistinct(store, rank, root, []);
    forall p ensures p in Findings(store, rank, root, []) <==> Missing(store, root, p) {
      if p in Findings(store, rank, root, []) {
        FindingsSound(store, rank, root, [], p);
      }
      if Missing(store, root, p) {
        FindingsComplete(store, rank, root, [], p);
        assert [] + p == p;
      }
    }
  }

  lemma ReportedStrings(store: Store, root: Hash, found: seq<Path>)
    requires Decoded(store) && Distinct(found)
    requires forall p :: p in found <==> Missing(store, root, p)
    ensures ReportsExactly(store, root, PathStrings(found))
  {
    forall p | Missing(store, root, p)
      ensures Segments(PathString(p)) == p
    {
      ResolvedNames(store, root, p);
      SegmentsOfPathString(p);
    }
    var damaged := PathStrings(found);
    forall i | 0 <= i < |damaged|
      ensures Missing(store, root, Segments(damaged[i])) && PathString(Segments(damaged[i])) == damaged[i]
    {
      assert found[i] in found;
    }
    forall i, j | 0 <= i < j < |damaged| ensures damaged[i] != damaged[j] {
      assert found[i] in found && found[j] in found;
      assert Segments(damaged[i]) == found[i] && Segments(damaged[j]) == found[j];
    }
    forall p | Missing(store, root, p) ensures PathString(p) in damaged {
      var i :| 0 <= i < |found| && found[i] == p;
      assert damaged[i] == PathString(p);
    }
  }

  // ---- Path texts spelled out ------------------------------------------------------------

  /** A path is reported as its names with single slashes between them. */
  lemma {:induction false} PathStringIs(p: Path)
    requires Names(p)
    ensures PathString(p) == Join(p, '/')
    ensures ROOT_SENTINEL == "<project root>"
  {
    if |p| == 1 {
      assert p[..0] == [] && PathString([]) == "";
    } else if p != [] {
      var front, n := p[..|p| - 1], p[|p| - 1];
      PathStringIs(front);
      SegmentsOfPathString(front);
      assert p == front + [n];
      JoinConcat(front, [n], '/');
      assert Join(front, '/') + ['/'] + n == Join(front, '/') + "/" + n;
    }
  }

  lemma {:induction false} NonEmptyExactly(parts: seq<string>)
    ensures Exactly(parts, NonEmpty(parts), (x: nat) => x < |parts| && parts[x] != "")
  {
    var keep: nat -> bool := (x: nat) => x < |parts| && parts[x] != "";
    if parts == [] {
      ExactlyEmpty<string>(keep);
    } else {
      var first, rest := parts[0], parts[1..];
      NonEmptyExactly(rest);
      var less: nat -> bool := (x: nat) => x < |rest| && rest[x] != "";
      assert parts == [first] + rest;
      ExactlyCons(first, rest, NonEmpty(rest), less, keep);
    }
  }

  /** Navigation goes by the parts between slashes, but for the empty ones. */
  lemma SegmentsExactly(path: string)
    ensures Exactly(Split(path, '/'), Segments(path), (x: nat) => x < |Split(path, '/')| && Split(path, '/')[x] != "")
  {
    NonEmptyExactly(Split(path, '/'));
  }
}
