/** `repair_repo`: scan, search, graft, publish by one CAS; and why the repaired root is exact. */
module FolderRepair {
  import opened Text
  import opened ObjectStore
  import opened DamagedFolders
  import opened VersionHistory
  import opened RecoverySearch
  import opened FolderGraft

  /** The grafts as a map, for lists that name no path twice. */
  function AsMap(list: seq<(Path, Hash)>): Replacements {
    if list == [] then map[]
    else AsMap(list[..|list| - 1])[list[|list| - 1].0 := list[|list| - 1].1]
  }

  ghost predicate DistinctPaths(list: seq<(Path, Hash)>) {
    forall i, j :: 0 <= i < j < |list| ==> list[i].0 != list[j].0
  }

  /** Every listed path is a damaged folder of `root`, and its replacement is stored in full. */
  ghost predicate Recoverables(store: Store, rank: Hash -> nat, root: Hash, list: seq<(Path, Hash)>)
    requires Acyclic(store, rank)
  {
    && DistinctPaths(list)
    && forall i :: 0 <= i < |list| ==> Missing(store, root, list[i].0) && Whole(store, rank, list[i].1)
  }

  lemma {:induction false} AsMapHas(list: seq<(Path, Hash)>)
    ensures forall p :: p in AsMap(list) <==> exists i :: 0 <= i < |list| && list[i].0 == p
    ensures DistinctPaths(list) ==> forall i :: 0 <= i < |list| ==> AsMap(list)[list[i].0] == list[i].1
  {
    if list != [] {
      AsMapHas(list[..|list| - 1]);
    }
  }

  // ---- What the grafts write, known beforehand ---------------------------------------------------

  /** The first `n + 1` recovered folders as one replacement. */
  function Upto(list: seq<(Path, Hash)>, n: nat): Replacements
    requires n < |list|
  {
    AsMap(list[..n + 1])
  }

  /** The id written for the tree at the first `k` names of the path of graft `n`: a function of the store
      as it was before the repair. */
  ghost function WrittenAt(hash: seq<Entry> -> Hash, store: Store, rank: Hash -> nat, root: Hash,
                           list: seq<(Path, Hash)>, n: nat, k: nat): Hash
    requires Acyclic(store, rank) && n < |list| && k < |list[n].0|
  {
    var at := list[n].0[..k];
    match Resolve(store, root, at)
    case Some(c) => Rehash(hash, store, rank, c, Upto(list, n), at)
    case None => root
  }

  ghost predicate Writes(hash: seq<Entry> -> Hash, store: Store, rank: Hash -> nat, root: Hash,
                         list: seq<(Path, Hash)>, h: Hash)
    requires Acyclic(store, rank)
  {
    exists n: nat, k: nat ::
      n < |list| && k < |list[n].0| && WrittenAt(hash, store, rank, root, list, n, k) == h
  }

  ghost predicate WritesNth(hash: seq<Entry> -> Hash, store: Store, rank: Hash -> nat, root: Hash,
                            list: seq<(Path, Hash)>, n: nat, h: Hash)
    requires Acyclic(store, rank) && n < |list|
  {
    exists k: nat :: k < |list[n].0| && WrittenAt(hash, store, rank, root, list, n, k) == h
  }

  /** None of those ids belongs to a stored object that cannot be fetched. */
  ghost predicate Writables(hash: seq<Entry> -> Hash, store: Store, rank: Hash -> nat, root: Hash,
                            list: seq<(Path, Hash)>)
    requires Acyclic(store, rank)
  {
    forall h :: Writes(hash, store, rank, root, list, h) ==> Writable(store, h)
  }

  /** What a list writes is what its front writes and what its last graft writes. */
  lemma WritesOneMore(hash: seq<Entry> -> Hash, rank: Hash -> nat, store: Store, root: Hash, list: seq<(Path, Hash)>,
                      h: Hash)
    requires Acyclic(store, rank) && list != []
    ensures Writes(hash, store, rank, root, list, h) <==>
            || Writes(hash, store, rank, root, list[..|list| - 1], h)
            || WritesNth(hash, store, rank, root, list, |list| - 1, h)
  {
    var n := |list| - 1;
    var front := list[..n];
    forall m: nat, k: nat | m < n && k < |list[m].0|
      ensures WrittenAt(hash, store, rank, root, front, m, k) == WrittenAt(hash, store, rank, root, list, m, k)
    {
      assert front[..m + 1] == list[..m + 1] && front[m] == list[m];
    }
    if Writes(hash, store, rank, root, front, h) {
      var m: nat, k: nat :| m < n && k < |front[m].0| && WrittenAt(hash, store, rank, root, front, m, k) == h;
      assert WrittenAt(hash, store, rank, root, list, m, k) == h;
    }
    if Writes(hash, store, rank, root, list, h) {
      var m: nat, k: nat :| m < |list| && k < |list[m].0| && WrittenAt(hash, store, rank, root, list, m, k) == h;
      assert m < n ==> front[m] == list[m] && WrittenAt(hash, store, rank, root, front, m, k) == h;
    }
  }

  // ---- The graft loop ------------------------------------------------------------------------

  lemma {:induction false} GraftAllGrows(hash: seq<Entry> -> Hash, store: Store, root: Hash, list: seq<(Path, Hash)>)
    requires IdealHash(hash) && Decoded(store) && ContentAddressed(store, hash)
    requires root != "" && forall i :: 0 <= i < |list| ==> list[i].1 != ""
    ensures var (grown, r) := GraftAll(hash, store, root, list);
            Adds(store, grown) && Decoded(grown) && ContentAddressed(grown, hash) && r != ""
  {
    if list != [] {
      var front := list[..|list| - 1];
      var (p, sub) := list[|list| - 1];
      GraftAllGrows(hash, store, root, front);
      var (before, r1) := GraftAll(hash, store, root, front);
      GraftGrows(hash, before, r1, p, sub);
      AddsMore(store, before, Graft(hash, before, r1, p, sub).0);
    }
  }

  /** Everything the graft theorems need to know about the store and the hash. */
  ghost predicate Addressed(hash: seq<Entry> -> Hash, rank: Hash -> nat, store: Store, root: Hash) {
    && IdealHash(hash) && RankedHash(hash, rank)
    && WellFormed(store, rank) && ContentAddressed(store, hash) && root in store
  }

  /** Grafting keeps all that, in particular it never makes the store circular. */
  lemma GraftAllAddressed(hash: seq<Entry> -> Hash, rank: Hash -> nat, store: Store, root: Hash, list: seq<(Path,
                          Hash)>)
    requires Addressed(hash, rank, store, root) && Recoverables(store, rank, root, list)
    ensures var (grown, r) := GraftAll(hash, store, root, list);
            Adds(store, grown) && Addressed(hash, rank, grown, root) && r != ""
  {
    forall i | 0 <= i < |list| ensures list[i].1 != "" {
      assert Whole(store, rank, list[i].1);
    }
    GraftAllGrows(hash, store, root, list);
    RankedIsAcyclic(GraftAll(hash, store, root, list).0, hash, rank);
  }

  lemma FrontRecoverables(store: Store, rank: Hash -> nat, root: Hash, list: seq<(Path, Hash)>, n: nat)
    requires Acyclic(store, rank) && Recoverables(store, rank, root, list) && n <= |list|
    ensures Recoverables(store, rank, root, list[..n])
  {
  }

  lemma ReplacementsRecorded(store: Store, rank: Hash -> nat, root: Hash, list: seq<(Path, Hash)>, at: Path, c: Hash)
    requires Acyclic(store, rank) && Recoverables(store, rank, root, list) && Resolve(store, root, at) == Some(c)
    ensures Recorded(store, c, AsMap(list), at)
  {
    AsMapHas(list);
    forall p | p in AsMap(list) && at <= p ensures Resolve(store, c, p[|at|..]).Some? {
      assert Missing(store, root, p);
      ResolveAppend(store, root, at, p[|at|..]);
      assert at + p[|at|..] == p;
    }
  }

  lemma NotComparable(store: Store, rank: Hash -> nat, root: Hash, list: seq<(Path, Hash)>)
    requires Acyclic(store, rank) && Recoverables(store, rank, root, list) && list != []
    ensures NoneComparable(AsMap(list[..|list| - 1]), list[|list| - 1].0)
  {
    var p := list[|list| - 1].0;
    AsMapHas(list[..|list| - 1]);
    forall q | q in AsMap(list[..|list| - 1]) ensures !Comparable(q, p) {
      if q <= p {
        MissingAntichain(store, root, q, p);
      } else if p <= q {
        MissingAntichain(store, root, p, q);
      }
    }
  }

  lemma LastPathResolves(store: Store, root: Hash, before: Store, rank: Hash -> nat, r1: Hash, reps: Replacements,
                         p: Path)
    requires WellFormed(before, rank) && Extends(store, before)
    requires Missing(store, root, p) && NoneComparable(reps, p)
    requires Spliced(before, rank, root, r1, reps, [])
    ensures Resolve(before, r1, p).Some?
  {
    assert [] + p == p;
    ResolveExtends(store, before, root, p);
    SplicedClear(before, rank, root, r1, reps, [], p);
  }

  /** The earlier grafts have come to what replacing their paths at once comes to. */
  ghost predicate Loops(hash: seq<Entry> -> Hash, rank: Hash -> nat, store: Store, root: Hash, list: seq<(Path,
                        Hash)>) {
    var (grown, r) := GraftAll(hash, store, root, list);
    Acyclic(grown, rank) && Spliced(grown, rank, root, r, AsMap(list), [])
  }

  /** Just before the last graft, at the first `k` names of its path. */
  lemma SpineStart(hash: seq<Entry> -> Hash, rank: Hash -> nat, store: Store, root: Hash, list: seq<(Path, Hash)>,
                   k: nat)
    requires Addressed(hash, rank, store, root) && Recoverables(store, rank, root, list) && list != []
    requires Loops(hash, rank, store, root, list[..|list| - 1]) && k < |list[|list| - 1].0|
    ensures var p := list[|list| - 1].0;
            var (before, r1) := GraftAll(hash, store, root, list[..|list| - 1]);
            && Resolve(before, r1, p).Some?
            && Resolve(store, root, p[..k]).Some? && Resolve(before, r1, p[..k]).Some?
            && InStep(hash, store, before, rank, Resolve(store, root, p[..k]).value, Resolve(before, r1, p[..k]).value,
                      AsMap(list[..|list| - 1]), p[..k], p[k..])
  {
    var front, p := list[..|list| - 1], list[|list| - 1].0;
    var (before, r1) := GraftAll(hash, store, root, front);
    var at := p[..k];
    assert Missing(store, root, p) && at + p[k..] == p && [] + at == at;
    FrontRecoverables(store, rank, root, list, |list| - 1);
    GraftAllAddressed(hash, rank, store, root, front);
    NotComparable(store, rank, root, list);
    LastPathResolves(store, root, before, rank, r1, AsMap(front), p);
    ResolveAppend(before, r1, at, p[k..]);
    ResolveAppend(store, root, at, p[k..]);
    ResolveExtends(store, before, root, at);
    ReplacementsRecorded(store, rank, root, front, at, Resolve(store, root, at).value);
    forall q | q in AsMap(front) && [] <= q ensures !(q < [] + at) {
      PrefixOfPrefix(q, p, k);
    }
    SplicedDescend(before, rank, root, r1, AsMap(front), [], at);
  }

  lemma PrefixOfPrefix(q: Path, p: Path, k: nat)
    requires k <= |p|
    ensures q < p[..k] ==> q <= p
  {
  }

  lemma WrittenLast(hash: seq<Entry> -> Hash, store: Store, rank: Hash -> nat, root: Hash, list: seq<(Path, Hash)>,
                    k: nat, c: Hash)
    requires Acyclic(store, rank) && list != [] && k < |list[|list| - 1].0|
    requires Resolve(store, root, list[|list| - 1].0[..k]) == Some(c)
    ensures var (p, sub) := list[|list| - 1];
            WrittenAt(hash, store, rank, root, list, |list| - 1, k)
            == Rehash(hash, store, rank, c, AsMap(list[..|list| - 1])[p := sub], p[..k])
  {
    assert list[..|list|] == list;
  }

  /** The tree that the last graft writes at the first `k` names of its path is the one computed beforehand. */
  lemma SpineKnown(hash: seq<Entry> -> Hash, rank: Hash -> nat, store: Store, root: Hash, list: seq<(Path, Hash)>,
                   k: nat)
    requires Addressed(hash, rank, store, root) && Recoverables(store, rank, root, list) && list != []
    requires Loops(hash, rank, store, root, list[..|list| - 1]) && k < |list[|list| - 1].0|
    ensures var (p, sub) := list[|list| - 1];
            var (before, r1) := GraftAll(hash, store, root, list[..|list| - 1]);
            SpineHash(hash, before, r1, p, sub, k) == Some(WrittenAt(hash, store, rank, root, list, |list| - 1, k))
  {
    var front := list[..|list| - 1];
    var (p, sub) := list[|list| - 1];
    var (before, r1) := GraftAll(hash, store, root, front);
    SpineStart(hash, rank, store, root, list, k);
    var c, c1 := Resolve(store, root, p[..k]).value, Resolve(before, r1, p[..k]).value;
    WrittenLast(hash, store, rank, root, list, k, c);
    SpineRehash(hash, store, before, rank, c, c1, AsMap(front), p, sub, k);
  }

  lemma SpineRehash(hash: seq<Entry> -> Hash, store: Store, before: Store, rank: Hash -> nat, c: Hash, c1: Hash,
                    reps: Replacements, p: Path, sub: Hash, k: nat)
    requires k < |p| && InStep(hash, store, before, rank, c, c1, reps, p[..k], p[k..])
    ensures Graft(hash, before, c1, p[k..], sub).1 == Rehash(hash, store, rank, c, reps[p := sub], p[..k])
  {
    assert p[..k] + p[k..] == p;
    GraftRehash(hash, store, before, rank, c, c1, reps, p[..k], p[k..], sub);
  }

  lemma LastWrites(hash: seq<Entry> -> Hash, rank: Hash -> nat, store: Store, root: Hash, list: seq<(Path, Hash)>,
                   h: Hash)
    requires Addressed(hash, rank, store, root) && Recoverables(store, rank, root, list) && list != []
    requires Loops(hash, rank, store, root, list[..|list| - 1])
    ensures var (p, sub) := list[|list| - 1];
            var (before, r1) := GraftAll(hash, store, root, list[..|list| - 1]);
            OnSpine(hash, before, r1, p, sub, h) <==> WritesNth(hash, store, rank, root, list, |list| - 1, h)
  {
    var n := |list| - 1;
    var (p, sub) := list[n];
    var (before, r1) := GraftAll(hash, store, root, list[..n]);
    forall k: nat | k < |p|
      ensures SpineHash(hash, before, r1, p, sub, k) == Some(WrittenAt(hash, store, rank, root, list, n, k))
    {
      SpineKnown(hash, rank, store, root, list, k);
    }
  }

  lemma FrontWritables(hash: seq<Entry> -> Hash, rank: Hash -> nat, store: Store, root: Hash, list: seq<(Path, Hash)>)
    requires Acyclic(store, rank) && list != []
    ensures Writables(hash, store, rank, root, list) <==>
            && Writables(hash, store, rank, root, list[..|list| - 1])
            && forall h :: WritesNth(hash, store, rank, root, list, |list| - 1, h) ==> Writable(store, h)
  {
    forall h {
      WritesOneMore(hash, rank, store, root, list, h);
    }
  }

  /** What could be written before can be written still, and the other way round. */
  lemma WritableAdds(store: Store, more: Store, h: Hash)
    requires Adds(store, more)
    ensures Writable(more, h) <==> Writable(store, h)
  {
  }

  /** The last graft can write all its trees exactly if all its ids are writable now. */
  lemma LastWritable(hash: seq<Entry> -> Hash, rank: Hash -> nat, store: Store, root: Hash, list: seq<(Path, Hash)>)
    requires Addressed(hash, rank, store, root) && Recoverables(store, rank, root, list) && list != []
    requires Loops(hash, rank, store, root, list[..|list| - 1])
    ensures var (p, sub) := list[|list| - 1];
            var (before, r1) := GraftAll(hash, store, root, list[..|list| - 1]);
            SpineWritable(hash, before, r1, p, sub) <==>
            forall h :: WritesNth(hash, store, rank, root, list, |list| - 1, h) ==> Writable(store, h)
  {
    var n := |list| - 1;
    var (p, sub) := list[n];
    var (before, r1) := GraftAll(hash, store, root, list[..n]);
    FrontRecoverables(store, rank, root, list, n);
    GraftAllAddressed(hash, rank, store, root, list[..n]);
    forall h
      ensures OnSpine(hash, before, r1, p, sub, h) <==> WritesNth(hash, store, rank, root, list, n, h)
      ensures Writable(before, h) <==> Writable(store, h)
    {
      LastWrites(hash, rank, store, root, list, h);
      WritableAdds(store, before, h);
    }
  }

  /** One round of the loop. */
  lemma OneMoreGraft(hash: seq<Entry> -> Hash, rank: Hash -> nat, before: Store, root: Hash, r1: Hash, p: Path,
                     sub: Hash, reps: Replacements)
    requires Addressed(hash, rank, before, root) && r1 != "" && sub != ""
    requires Resolve(before, r1, p).Some? && SpineWritable(hash, before, r1, p, sub) && NoneComparable(reps, p)
    requires Spliced(before, rank, root, r1, reps, [])
    ensures var (grown, r2) := Graft(hash, before, r1, p, sub);
            Acyclic(grown, rank) && Spliced(grown, rank, root, r2, reps[p := sub], [])
  {
    var (grown, r2) := Graft(hash, before, r1, p, sub);
    GraftWrites(hash, before, r1, p, sub);
    RankedIsAcyclic(grown, hash, rank);
    SplicedExtends(before, grown, rank, root, r1, reps, []);
    assert [] + p == p;
    SplicedStep(grown, rank, root, r1, r2, reps, [], p, sub);
  }

  /** Grafting a list is replacing all its paths at once, if all its trees can be written. */
  lemma {:induction false} GraftAllSplices(hash: seq<Entry> -> Hash, rank: Hash -> nat, store: Store, root: Hash,
                                           list: seq<(Path, Hash)>)
    requires Addressed(hash, rank, store, root) && Recoverables(store, rank, root, list)
    requires Writables(hash, store, rank, root, list)
    ensures Loops(hash, rank, store, root, list)
    decreases |list|
  {
    if list == [] {
      assert !Touches(map[], []);
    } else {
      var front := list[..|list| - 1];
      var (p, sub) := list[|list| - 1];
      var (before, r1) := GraftAll(hash, store, root, front);
      FrontRecoverables(store, rank, root, list, |list| - 1);
      FrontWritables(hash, rank, store, root, list);
      GraftAllSplices(hash, rank, store, root, front);
      GraftAllAddressed(hash, rank, store, root, front);
      NotComparable(store, rank, root, list);
      LastPathResolves(store, root, before, rank, r1, AsMap(front), p);
      LastWritable(hash, rank, store, root, list);
      OneMoreGraft(hash, rank, before, root, r1, p, sub, AsMap(front));
    }
  }

  /** If some tree cannot be written, the path of some recovered folder ends in an object that cannot be
      fetched, and stays so whatever is grafted after it. */
  lemma {:induction false} SomeStuck(hash: seq<Entry> -> Hash, rank: Hash -> nat, store: Store, root: Hash,
                                     list: seq<(Path, Hash)>)
    returns (i: nat)
    requires Addressed(hash, rank, store, root) && Recoverables(store, rank, root, list)
    requires !Writables(hash, store, rank, root, list)
    ensures i < |list| && Stuck(GraftAll(hash, store, root, list).0, GraftAll(hash, store, root, list).1, list[i].0)
    decreases |list|
  {
    var n := |list| - 1;
    assert list != [];
    var front := list[..n];
    var (p, sub) := list[n];
    var (before, r1) := GraftAll(hash, store, root, front);
    FrontRecoverables(store, rank, root, list, n);
    FrontWritables(hash, rank, store, root, list);
    GraftAllAddressed(hash, rank, store, root, front);
    if Writables(hash, store, rank, root, front) {
      GraftAllSplices(hash, rank, store, root, front);
      NotComparable(store, rank, root, list);
      LastPathResolves(store, root, before, rank, r1, AsMap(front), p);
      LastWritable(hash, rank, store, root, list);
      GraftWrites(hash, before, r1, p, sub);
      i := n;
    } else {
      i := SomeStuck(hash, rank, store, root, front);
      OthersIncomparable(store, rank, root, list, i);
      StaysStuck(hash, before, r1, list[i].0, p, sub);
    }
  }

  lemma OthersIncomparable(store: Store, rank: Hash -> nat, root: Hash, list: seq<(Path, Hash)>, i: nat)
    requires Acyclic(store, rank) && Recoverables(store, rank, root, list) && i < |list| - 1
    ensures !Comparable(list[i].0, list[|list| - 1].0)
  {
    var p, q := list[i].0, list[|list| - 1].0;
    if p <= q {
      MissingAntichain(store, root, p, q);
    } else if q <= p {
      MissingAntichain(store, root, q, p);
    }
  }

  // ---- Exactness -----------------------------------------------------------------------------

  /** Every replaced path is a damaged folder of the old root and its replacement is whole. */
  ghost predicate Repairs(store: Store, rank: Hash -> nat, root: Hash, reps: Replacements)
    requires Acyclic(store, rank)
  {
    forall p :: p in reps ==> Missing(store, root, p) && Whole(store, rank, reps[p])
  }

  /** The grafts wrote no object that another damaged folder was missing. */
  ghost predicate NoneHealed(store: Store, grown: Store, root: Hash, reps: Replacements) {
    forall q :: Missing(store, root, q) && q !in reps ==> Resolve(store, root, q).value !in grown
  }

  /** Each recovered folder now is its replacement, and is whole. */
  lemma RecoveredResolve(store: Store, rank: Hash -> nat, grown: Store, last: Hash -> nat,
                         root: Hash, root2: Hash, reps: Replacements, p: Path)
    requires WellFormed(store, rank) && WellFormed(grown, last) && Extends(store, grown)
    requires Repairs(store, rank, root, reps) && Spliced(grown, last, root, root2, reps, []) && p in reps
    ensures Resolve(grown, root2, p) == Some(reps[p]) && Whole(grown, last, reps[p])
  {
    ResolveExtends(store, grown, root, p);
    forall q | q in reps && [] <= q ensures !(q < [] + p) {
      if q < [] + p {
        MissingAntichain(store, root, q, p);
      }
    }
    SplicedDescend(grown, last, root, root2, reps, [], p);
    assert [] + p == p;
    WholeExtends(store, rank, grown, last, reps[p]);
  }

  /** In the repaired root exactly the folders that stay damaged in the grown store are damaged. */
  lemma DamagedAfter(store: Store, rank: Hash -> nat, grown: Store, last: Hash -> nat,
                     root: Hash, root2: Hash, reps: Replacements, q: Path)
    requires WellFormed(store, rank) && WellFormed(grown, last) && Extends(store, grown)
    requires Repairs(store, rank, root, reps) && Spliced(grown, last, root, root2, reps, [])
    ensures Missing(grown, root2, q) <==> Missing(grown, root, q) && forall p :: p in reps ==> !(p <= q)
  {
    assert [] + q == q;
    if p :| p in reps && p <= q {
      RecoveredResolve(store, rank, grown, last, root, root2, reps, p);
      ResolveAppend(grown, root2, p, q[|p|..]);
      assert p + q[|p|..] == q;
      if Resolve(grown, root2, q).Some? {
        WholeResolves(grown, last, reps[p], q[|p|..]);
      }
    } else if p :| p in reps && q <= p {
      // q lies strictly above a recovered folder: a present tree, before and after
      assert q < p;
      ResolveExtends(store, grown, root, p);
      ResolveAppend(store, root, q, p[|q|..]);
      ResolveExtends(store, grown, root, q);
      assert q + p[|q|..] == p;
      SplicedDescend(grown, last, root, root2, reps, [], q);
      assert Touches(reps, q);
    } else {
      SplicedClear(grown, last, root, root2, reps, [], q);
    }
  }

  lemma HealedOnTheWay(store: Store, grown: Store, root: Hash, reps: Replacements, q: Path)
    requires Extends(store, grown) && root in store && NoneHealed(store, grown, root, reps)
    requires Resolve(store, root, q).None? && Resolve(grown, root, q).Some?
    ensures exists p :: p in reps && p <= q
  {
    var k := MissingOnTheWay(store, grown, root, q);
    var d := q[..k];
    assert d + q[k..] == q;
    if d !in reps {
      ResolveExtends(store, grown, root, d);
      ResolveAppend(grown, root, d, q[k..]);
    }
  }

  /** A rescan of the repaired root reports the old damage minus the recovered folders, exactly if
      the grafts happened to write no object that another damaged folder was missing. */
  lemma RescanExactIff(store: Store, rank: Hash -> nat, grown: Store, last: Hash -> nat,
                       root: Hash, root2: Hash, reps: Replacements)
    requires WellFormed(store, rank) && WellFormed(grown, last) && Extends(store, grown) && root in store
    requires Repairs(store, rank, root, reps) && Spliced(grown, last, root, root2, reps, [])
    ensures (forall q :: Missing(grown, root2, q) <==> Missing(store, root, q) && q !in reps)
            <==> NoneHealed(store, grown, root, reps)
  {
    forall q ensures Missing(grown, root2, q) <==> Missing(grown, root, q) && forall p :: p in reps ==> !(p <= q) {
      DamagedAfter(store, rank, grown, last, root, root2, reps, q);
    }
    forall q ensures Resolve(store, root, q).Some? ==> Resolve(grown, root, q) == Resolve(store, root, q) {
      ResolveExtends(store, grown, root, q);
    }
    if NoneHealed(store, grown, root, reps) {
      forall q ensures Missing(grown, root2, q) <==> Missing(store, root, q) && q !in reps {
        if Missing(store, root, q) && q !in reps {
          forall p | p in reps ensures !(p <= q) {
            if p <= q {
              MissingAntichain(store, root, p, q);
            }
          }
        }
        if Missing(grown, root2, q) && Resolve(store, root, q).None? {
          HealedOnTheWay(store, grown, root, reps, q);
        }
        assert q <= q;
      }
    }
  }

  /** Paths neither above nor below a recovered folder resolve as before. */
  lemma OtherPathsKeep(store: Store, grown: Store, last: Hash -> nat,
                       root: Hash, root2: Hash, reps: Replacements, q: Path)
    requires WellFormed(grown, last) && Extends(store, grown) && root in store
    requires Spliced(grown, last, root, root2, reps, [])
    requires forall p :: p in reps ==> !Comparable(p, q)
    ensures Resolve(store, root, q).Some? || NoneHealed(store, grown, root, reps) ==>
              Resolve(grown, root2, q) == Resolve(store, root, q)
  {
    assert [] + q == q;
    SplicedClear(grown, last, root, root2, reps, [], q);
    ResolveExtends(store, grown, root, q);
    if Resolve(store, root, q).None? && NoneHealed(store, grown, root, reps) && Resolve(grown, root, q).Some? {
      HealedOnTheWay(store, grown, root, reps, q);
    }
  }

  lemma SameMap(a: seq<(Path, Hash)>, b: seq<(Path, Hash)>)
    requires DistinctPaths(a) && DistinctPaths(b) && multiset(a) == multiset(b)
    ensures AsMap(a) == AsMap(b)
  {
    AsMapHas(a);
    AsMapHas(b);
    forall x | x in a ensures x in b {
      assert x in multiset(b);
    }
    forall x | x in b ensures x in a {
      assert x in multiset(a);
    }
    assert AsMap(a) == AsMap(b) by {
      forall p ensures p in AsMap(a) <==> p in AsMap(b) {
        if i :| 0 <= i < |a| && a[i].0 == p {
          assert a[i] in b;
        }
        if i :| 0 <= i < |b| && b[i].0 == p {
          assert b[i] in a;
        }
      }
      forall p | p in AsMap(a) ensures AsMap(a)[p] == AsMap(b)[p] {
        var i :| 0 <= i < |a| && a[i].0 == p;
        assert a[i] in b;
      }
    }
  }

  /** Entry `i` is unchanged, but for the hash of a child on the way to a recovered folder. */
  ghost predicate KeepsEntry(e: Entry, f: Entry, reps: Replacements, at: Path) {
    && f == e.(hash := f.hash)
    && (f.hash == e.hash || (e.kind.Dir? && Touches(reps, at + [e.name])))
  }

  lemma SplicedKeepsEntry(store: Store, rank: Hash -> nat, r: Hash, r2: Hash, reps: Replacements, at: Path, i: nat)
    requires Acyclic(store, rank) && IsTree(store, r) && IsTree(store, r2)
    requires i < |store[r].entries| == |store[r2].entries| && SplicedEntry(store, rank, r, r2, reps, at, i)
    ensures KeepsEntry(store[r].entries[i], store[r2].entries[i], reps, at)
  {
    var child := at + [store[r].entries[i].name];
    if child in reps {
      assert child <= child && Touches(reps, child);
    }
  }

  /** A folder above a recovered one keeps every entry; only the hashes on the way down change. */
  lemma AncestorsKeepEntries(store: Store, rank: Hash -> nat, grown: Store, last: Hash -> nat,
                             root: Hash, root2: Hash, reps: Replacements, q: Path)
    requires WellFormed(store, rank) && WellFormed(grown, last) && Extends(store, grown) && root in store
    requires Repairs(store, rank, root, reps) && Spliced(grown, last, root, root2, reps, [])
    requires Resolve(store, root, q).Some? && Touches(reps, q) && q !in reps
    ensures Resolve(grown, root2, q).Some?
    ensures var h, h2 := Resolve(store, root, q).value, Resolve(grown, root2, q).value;
            && IsTree(grown, h) && IsTree(grown, h2) && |grown[h].entries| == |grown[h2].entries|
            && forall i :: 0 <= i < |grown[h].entries| ==>
                 KeepsEntry(grown[h].entries[i], grown[h2].entries[i], reps, q)
  {
    var above :| above in reps && q <= above;
    assert [] + q == q;
    forall p | p in reps && [] <= p ensures !(p < [] + q) {
      if p < q {
        MissingAntichain(store, root, p, above);
      }
    }
    ResolveExtends(store, grown, root, q);
    SplicedDescend(grown, last, root, root2, reps, [], q);
    var h, h2 := Resolve(store, root, q).value, Resolve(grown, root2, q).value;
    assert Spliced(grown, last, h, h2, reps, q);
    forall i | 0 <= i < |grown[h].entries|
      ensures KeepsEntry(grown[h].entries[i], grown[h2].entries[i], reps, q)
    {
      SplicedKeepsEntry(grown, last, h, h2, reps, q, i);
    }
  }

  // ---- Compared with what was known beforehand --------------------------------------------------

  /** No folder that stays damaged misses an object that the grafts are going to write. */
  ghost predicate NoneAwaited(hash: seq<Entry> -> Hash, store: Store, rank: Hash -> nat, root: Hash,
                              list: seq<(Path, Hash)>)
    requires Acyclic(store, rank)
  {
    forall q :: Missing(store, root, q) && q !in AsMap(list) ==>
      !Writes(hash, store, rank, root, list, Resolve(store, root, q).value)
  }

  /** The repaired root is the one computed from the old store. */
  lemma NewRootKnown(hash: seq<Entry> -> Hash, rank: Hash -> nat, store: Store, root: Hash, list: seq<(Path, Hash)>)
    requires Addressed(hash, rank, store, root) && Recoverables(store, rank, root, list)
    requires Writables(hash, store, rank, root, list)
    ensures GraftAll(hash, store, root, list).1 == Rehash(hash, store, rank, root, AsMap(list), [])
  {
    var (grown, r) := GraftAll(hash, store, root, list);
    GraftAllAddressed(hash, rank, store, root, list);
    GraftAllSplices(hash, rank, store, root, list);
    ReplacementsRecorded(store, rank, root, list, [], root);
    SplicedIsRehash(hash, store, grown, rank, root, r, AsMap(list), []);
  }

  /** The order in which the recovered folders are grafted does not change the new root. */
  lemma GraftOrderIrrelevant(hash: seq<Entry> -> Hash, rank: Hash -> nat, store: Store, root: Hash,
                             a: seq<(Path, Hash)>, b: seq<(Path, Hash)>)
    requires Addressed(hash, rank, store, root)
    requires Recoverables(store, rank, root, a) && Recoverables(store, rank, root, b)
    requires Writables(hash, store, rank, root, a) && Writables(hash, store, rank, root, b)
    requires multiset(a) == multiset(b)
    ensures GraftAll(hash, store, root, a).1 == GraftAll(hash, store, root, b).1
  {
    NewRootKnown(hash, rank, store, root, a);
    NewRootKnown(hash, rank, store, root, b);
    SameMap(a, b);
  }

  /** The grafts write exactly the trees computed beforehand. */
  lemma {:induction false} WrittenExactly(hash: seq<Entry> -> Hash, rank: Hash -> nat, store: Store, root: Hash,
                                          list: seq<(Path, Hash)>, h: Hash)
    requires Addressed(hash, rank, store, root) && Recoverables(store, rank, root, list)
    requires Writables(hash, store, rank, root, list)
    ensures h in GraftAll(hash, store, root, list).0 <==> h in store || Writes(hash, store, rank, root, list, h)
    decreases |list|
  {
    if list != [] {
      FrontRecoverables(store, rank, root, list, |list| - 1);
      FrontWritables(hash, rank, store, root, list);
      WrittenExactly(hash, rank, store, root, list[..|list| - 1], h);
      WritesOneMore(hash, rank, store, root, list, h);
      LastGraftWrites(hash, rank, store, root, list, h);
    }
  }

  lemma LastGraftWrites(hash: seq<Entry> -> Hash, rank: Hash -> nat, store: Store, root: Hash, list: seq<(Path, Hash)>,
                        h: Hash)
    requires Addressed(hash, rank, store, root) && Recoverables(store, rank, root, list) && list != []
    requires Writables(hash, store, rank, root, list[..|list| - 1])
    ensures h in GraftAll(hash, store, root, list).0 <==>
            || h in GraftAll(hash, store, root, list[..|list| - 1]).0
            || WritesNth(hash, store, rank, root, list, |list| - 1, h)
  {
    var n := |list| - 1;
    var front := list[..n];
    var (p, sub) := list[n];
    var (before, r1) := GraftAll(hash, store, root, front);
    FrontRecoverables(store, rank, root, list, n);
    GraftAllAddressed(hash, rank, store, root, front);
    NotComparable(store, rank, root, list);
    GraftAllSplices(hash, rank, store, root, front);
    LastPathResolves(store, root, before, rank, r1, AsMap(front), p);
    GraftKeys(hash, before, r1, p, sub, h);
    LastWrites(hash, rank, store, root, list, h);
  }

  // ---- The whole result --------------------------------------------------------------------------

  /** Each recovered folder reads as its replacement. */
  ghost predicate Recovered(grown: Store, root2: Hash, list: seq<(Path, Hash)>) {
    forall i :: 0 <= i < |list| ==> Resolve(grown, root2, list[i].0) == Some(list[i].1)
  }

  /** The recovered folders read as their replacements exactly if every tree computed beforehand can be
      written. */
  lemma RecoveredIff(hash: seq<Entry> -> Hash, rank: Hash -> nat, store: Store, root: Hash, list: seq<(Path, Hash)>)
    requires Addressed(hash, rank, store, root) && Recoverables(store, rank, root, list)
    ensures Recovered(GraftAll(hash, store, root, list).0, GraftAll(hash, store, root, list).1, list) <==>
            Writables(hash, store, rank, root, list)
  {
    var (grown, root2) := GraftAll(hash, store, root, list);
    GraftAllAddressed(hash, rank, store, root, list);
    if Writables(hash, store, rank, root, list) {
      GraftAllSplices(hash, rank, store, root, list);
      AsMapHas(list);
      forall i | 0 <= i < |list| ensures Resolve(grown, root2, list[i].0) == Some(list[i].1) {
        RecoveredResolve(store, rank, grown, rank, root, root2, AsMap(list), list[i].0);
      }
    } else {
      var i := SomeStuck(hash, rank, store, root, list);
      StuckExtends(grown, grown, root2, list[i].0);
      assert Resolve(grown, root2, list[i].0) != Some(list[i].1);
    }
  }

  /** A repair as a whole. The recovered folders read as their replacements exactly if every tree the grafts
      are going to write can be written. Then a rescan reports the old damage minus the recovered folders
      exactly if no folder that stays damaged misses one of those trees. Both conditions are known before
      the repair. */
  lemma AppliedRepairExact(hash: seq<Entry> -> Hash, rank: Hash -> nat, store: Store, root: Hash,
                           recovered: seq<(Path, Hash)>)
    requires Addressed(hash, rank, store, root) && Recoverables(store, rank, root, recovered)
    ensures var (grown, root2) := GraftAll(hash, store, root, recovered);
            && Adds(store, grown) && Addressed(hash, rank, grown, root)
            && (forall i :: 0 <= i < |recovered| ==> Whole(grown, rank, recovered[i].1))
            && (Recovered(grown, root2, recovered) <==> Writables(hash, store, rank, root, recovered))
            && (Writables(hash, store, rank, root, recovered) ==>
                  ((forall q :: Missing(grown, root2, q) <==> Missing(store, root, q) && q !in AsMap(recovered))
                   <==> NoneAwaited(hash, store, rank, root, recovered)))
  {
    var (grown, root2) := GraftAll(hash, store, root, recovered);
    GraftAllAddressed(hash, rank, store, root, recovered);
    RecoveredIff(hash, rank, store, root, recovered);
    forall i | 0 <= i < |recovered| ensures Whole(grown, rank, recovered[i].1) {
      WholeExtends(store, rank, grown, rank, recovered[i].1);
    }
    if Writables(hash, store, rank, root, recovered) {
      GraftAllSplices(hash, rank, store, root, recovered);
      AsMapHas(recovered);
      RescanExactIff(store, rank, grown, rank, root, root2, AsMap(recovered));
      HealedIsWritten(hash, rank, store, root, recovered);
    }
  }

  /** Some recovered path is at `at` or below it. */
  ghost predicate Leads(list: seq<(Path, Hash)>, at: Path) {
    exists i :: 0 <= i < |list| && at <= list[i].0
  }

  /** `h2` has the entries of `h`, with the same names, kinds and ids, but for the ids of folders on the way to a
      recovered path. */
  ghost predicate SameEntries(store: Store, h: Hash, h2: Hash, list: seq<(Path, Hash)>, at: Path) {
    && IsTree(store, h) && IsTree(store, h2) && |store[h].entries| == |store[h2].entries|
    && forall k :: 0 <= k < |store[h].entries| ==>
         var e, f := store[h].entries[k], store[h2].entries[k];
         && f.name == e.name && f.kind == e.kind
         && (f.hash == e.hash || (e.kind.Dir? && Leads(list, at + [e.name])))
  }

  /** What a repair leaves alone: a folder that is not below a recovered path is still there; it is the very same
      object if no recovered path leads through it, and otherwise a tree with the same entries, of which only the
      folders on the way have new ids. */
  lemma RepairKeepsRest(hash: seq<Entry> -> Hash, rank: Hash -> nat, store: Store, root: Hash,
                        list: seq<(Path, Hash)>, q: Path)
    requires Addressed(hash, rank, store, root) && Recoverables(store, rank, root, list)
    requires Writables(hash, store, rank, root, list)
    requires Resolve(store, root, q).Some? && forall i :: 0 <= i < |list| ==> !(list[i].0 <= q)
    ensures var (grown, root2) := GraftAll(hash, store, root, list);
            && Resolve(grown, root2, q).Some?
            && var h, h2 := Resolve(store, root, q).value, Resolve(grown, root2, q).value;
               if Leads(list, q) then SameEntries(grown, h, h2, list, q) else h2 == h
  {
    var (grown, root2) := GraftAll(hash, store, root, list);
    var reps := AsMap(list);
    GraftAllAddressed(hash, rank, store, root, list);
    GraftAllSplices(hash, rank, store, root, list);
    LeadsIsTouches(list, q);
    AsMapHas(list);
    if Leads(list, q) {
      AncestorsKeepEntries(store, rank, grown, rank, root, root2, reps, q);
      var h, h2 := Resolve(store, root, q).value, Resolve(grown, root2, q).value;
      forall k | 0 <= k < |grown[h].entries|
        ensures var e, f := grown[h].entries[k], grown[h2].entries[k];
                f.name == e.name && f.kind == e.kind && (f.hash == e.hash || (e.kind.Dir? && Leads(list, q + [e.name])))
      {
        assert KeepsEntry(grown[h].entries[k], grown[h2].entries[k], reps, q);
        LeadsIsTouches(list, q + [grown[h].entries[k].name]);
      }
    } else {
      OtherPathsKeep(store, grown, rank, root, root2, reps, q);
    }
  }

  lemma LeadsIsTouches(list: seq<(Path, Hash)>, at: Path)
    ensures Leads(list, at) <==> Touches(AsMap(list), at)
  {
    AsMapHas(list);
    if i :| 0 <= i < |list| && at <= list[i].0 {
      assert list[i].0 in AsMap(list);
    }
    if p :| p in AsMap(list) && at <= p {
      var i :| 0 <= i < |list| && list[i].0 == p;
    }
  }

  lemma HealedIsWritten(hash: seq<Entry> -> Hash, rank: Hash -> nat, store: Store, root: Hash, list: seq<(Path, Hash)>)
    requires Addressed(hash, rank, store, root) && Recoverables(store, rank, root, list)
    requires Writables(hash, store, rank, root, list)
    ensures NoneHealed(store, GraftAll(hash, store, root, list).0, root, AsMap(list))
       <==> NoneAwaited(hash, store, rank, root, list)
  {
    forall q | Missing(store, root, q)
      ensures Resolve(store, root, q).value in GraftAll(hash, store, root, list).0
         <==> Writes(hash, store, rank, root, list, Resolve(store, root, q).value)
    {
      WrittenExactly(hash, rank, store, root, list, Resolve(store, root, q).value);
    }
  }

  /** Grafting a recovered folder always changes the root. */
  lemma GraftChangesRoot(hash: seq<Entry> -> Hash, rank: Hash -> nat, store: Store, root: Hash, list: seq<(Path, Hash)>)
    requires Addressed(hash, rank, store, root) && Recoverables(store, rank, root, list) && list != []
    ensures GraftAll(hash, store, root, list).1 != root
  {
    var (grown, root2) := GraftAll(hash, store, root, list);
    GraftAllAddressed(hash, rank, store, root, list);
    if Writables(hash, store, rank, root, list) {
      RecoveredIff(hash, rank, store, root, list);
      assert Missing(store, root, list[0].0) && Whole(store, rank, list[0].1);
      ResolveExtends(store, grown, root, list[0].0);
    } else {
      var i := SomeStuck(hash, rank, store, root, list);
      assert Missing(store, root, list[i].0);
      StuckExtends(grown, grown, root2, list[i].0);
      ResolveExtends(store, grown, root, list[i].0);
    }
  }

  /** More can be healed than was recovered. Folder `b` is missing, and folder `a` lost its folder `x`. If `b`
      is recorded with just the content that `a` has once `x` is grafted back, rebuilding `a` writes `b`. */
  lemma GraftCanHeal(hash: seq<Entry> -> Hash, rank: Hash -> nat)
    returns (store: Store, root: Hash, recovered: seq<(Path, Hash)>, healed: Path)
    requires IdealHash(hash) && RankedHash(hash, rank)
    ensures Addressed(hash, rank, store, root) && Recoverables(store, rank, root, recovered)
    ensures Missing(store, root, healed) && healed !in AsMap(recovered)
    ensures Writables(hash, store, rank, root, recovered) && !NoneAwaited(hash, store, rank, root, recovered)
    ensures var (grown, root2) := GraftAll(hash, store, root, recovered); !Missing(grown, root2, healed)
  {
    var sub, gone := hash([]), hash([Entry("gone", File, "gone")]);
    var whole, broken := [Entry("x", Dir, sub)], [Entry("x", Dir, gone)];
    var top := [Entry("a", Dir, hash(broken)), Entry("b", Dir, hash(whole))];
    root := hash(top);
    store := map[sub := Tree([]), hash(broken) := Tree(broken), root := Tree(top)];
    recovered, healed := [(["a", "x"], sub)], ["b"];
    HealSetting(hash, rank, sub, gone, whole, broken, top, store);
    HealDamage(hash, sub, gone, whole, broken, top, store);
    HealGrafts(hash, store, root, sub, whole, broken, top);
    HealWritable(store, sub, [], hash(broken), broken, root, top);
    HealOutcome(hash, rank, store, root, ["a", "x"], sub, healed);
  }

  lemma HealSetting(hash: seq<Entry> -> Hash, rank: Hash -> nat, sub: Hash, gone: Hash, whole: seq<Entry>,
                    broken: seq<Entry>, top: seq<Entry>, store: Store)
    requires IdealHash(hash) && RankedHash(hash, rank)
    requires sub == hash([]) && gone == hash([Entry("gone", File, "gone")])
    requires whole == [Entry("x", Dir, sub)] && broken == [Entry("x", Dir, gone)]
    requires top == [Entry("a", Dir, hash(broken)), Entry("b", Dir, hash(whole))]
    requires store == map[sub := Tree([]), hash(broken) := Tree(broken), hash(top) := Tree(top)]
    ensures Addressed(hash, rank, store, hash(top))
  {
    HealDecodes(sub, gone, hash(broken), hash(whole), broken, top);
    HealStore(hash, store, sub, broken, top);
    RankedIsAcyclic(store, hash, rank);
  }

  lemma HealDamage(hash: seq<Entry> -> Hash, sub: Hash, gone: Hash, whole: seq<Entry>, broken: seq<Entry>,
                   top: seq<Entry>, store: Store)
    requires IdealHash(hash)
    requires sub == hash([]) && gone == hash([Entry("gone", File, "gone")])
    requires whole == [Entry("x", Dir, sub)] && broken == [Entry("x", Dir, gone)]
    requires top == [Entry("a", Dir, hash(broken)), Entry("b", Dir, hash(whole))]
    requires store == map[sub := Tree([]), hash(broken) := Tree(broken), hash(top) := Tree(top)]
    ensures sub in store && store[sub] == Tree([]) && hash(broken) in store && store[hash(broken)] == Tree(broken)
    ensures store[hash(top)] == Tree(top)
    ensures Missing(store, hash(top), ["a", "x"]) && Missing(store, hash(top), ["b"])
    ensures Resolve(store, hash(top), ["b"]) == Some(hash(whole))
  {
    HealIds(hash);
    HealPaths(store, hash(top), broken, top, gone, hash(whole));
  }

  lemma HealWritable(store: Store, a: Hash, es: seq<Entry>, b: Hash, fs: seq<Entry>, c: Hash, gs: seq<Entry>)
    requires store == map[a := Tree(es), b := Tree(fs), c := Tree(gs)]
    ensures forall h :: Writable(store, h)
  {
  }

  lemma HealDecodes(sub: Hash, gone: Hash, a: Hash, b: Hash, broken: seq<Entry>, top: seq<Entry>)
    requires gone != "" && a != "" && b != ""
    requires broken == [Entry("x", Dir, gone)] && top == [Entry("a", Dir, a), Entry("b", Dir, b)]
    ensures DecodedEntries(broken) && DecodedEntries(top)
  {
  }

  lemma HealOutcome(hash: seq<Entry> -> Hash, rank: Hash -> nat, store: Store, root: Hash, p: Path, sub: Hash,
                    healed: Path)
    requires Addressed(hash, rank, store, root) && p != healed && forall h :: Writable(store, h)
    requires Missing(store, root, p) && Missing(store, root, healed) && sub in store && store[sub] == Tree([])
    requires Resolve(store, root, healed).value in GraftAll(hash, store, root, [(p, sub)]).0
    ensures var recovered := [(p, sub)];
            && Recoverables(store, rank, root, recovered) && healed !in AsMap(recovered)
            && Writables(hash, store, rank, root, recovered) && !NoneAwaited(hash, store, rank, root, recovered)
            && !Missing(GraftAll(hash, store, root, recovered).0, GraftAll(hash, store, root, recovered).1, healed)
  {
    AsMapOfOne(p, sub);
    assert Whole(store, rank, sub);
    HealedAfterwards(hash, rank, store, root, [(p, sub)], healed);
  }

  /** Neither the lost folder nor the folder `b` is one of the stored trees. */
  lemma HealIds(hash: seq<Entry> -> Hash)
    requires IdealHash(hash)
    ensures var sub, gone := hash([]), hash([Entry("gone", File, "gone")]);
            var whole, broken := [Entry("x", Dir, sub)], [Entry("x", Dir, gone)];
            var top := [Entry("a", Dir, hash(broken)), Entry("b", Dir, hash(whole))];
            gone !in {sub, hash(broken), hash(top)} && hash(whole) !in {sub, hash(broken), hash(top)}
  {
    var sub, gone := hash([]), hash([Entry("gone", File, "gone")]);
    var whole, broken := [Entry("x", Dir, sub)], [Entry("x", Dir, gone)];
    var top := [Entry("a", Dir, hash(broken)), Entry("b", Dir, hash(whole))];
    var lost := [Entry("gone", File, "gone")];
    assert |lost| == |whole| == |broken| == 1 && |top| == 2;
    assert lost[0] != broken[0] && whole[0].hash != broken[0].hash;
  }

  lemma AsMapOfOne(p: Path, sub: Hash)
    ensures AsMap([(p, sub)]) == map[p := sub]
  {
    assert [(p, sub)][..0] == [];
  }

  lemma HealStore(hash: seq<Entry> -> Hash, store: Store, sub: Hash, broken: seq<Entry>, top: seq<Entry>)
    requires IdealHash(hash) && sub == hash([]) && DecodedEntries(broken) && DecodedEntries(top)
    requires store == map[sub := Tree([]), hash(broken) := Tree(broken), hash(top) := Tree(top)]
    ensures Decoded(store) && ContentAddressed(store, hash)
  {
  }

  lemma HealPaths(store: Store, root: Hash, broken: seq<Entry>, top: seq<Entry>, gone: Hash, b: Hash)
    requires |top| == 2 && top[0].name == "a" && top[0].kind.Dir? && top[1] == Entry("b", Dir, b)
    requires broken == [Entry("x", Dir, gone)] && gone != "" && b != ""  && top[0].hash != ""
    requires root in store && store[root] == Tree(top) && top[0].hash in store && store[top[0].hash] == Tree(broken)
    requires gone !in store && b !in store
    ensures Resolve(store, root, ["a", "x"]) == Some(gone) && Resolve(store, root, ["b"]) == Some(b)
  {
    assert ["a", "x"][1..] == ["x"] && ["x"][1..] == [] && ["b"][1..] == [];
    assert top[1..][0] == top[1];
    assert ChildDir(top, "a") == Some(top[0].hash) && ChildDir(broken, "x") == Some(gone);
    assert ChildDir(top, "b") == ChildDir(top[1..], "b") == Some(b);
    assert Resolve(store, gone, []) == Some(gone) && Resolve(store, b, []) == Some(b);
    assert Resolve(store, top[0].hash, ["x"]) == Some(gone);
  }

  lemma HealGrafts(hash: seq<Entry> -> Hash, store: Store, root: Hash, sub: Hash, whole: seq<Entry>, broken: seq<Entry>,
                   top: seq<Entry>)
    requires Decoded(store) && root in store && store[root] == Tree(top)
    requires |top| == 2 && top[0] == Entry("a", Dir, hash(broken)) && top[0].hash != ""
    requires hash(broken) in store && store[hash(broken)] == Tree(broken)
    requires |broken| == 1 && broken[0].name == "x" && broken[0].kind.Dir? && broken[0].hash != ""
    requires whole == [Entry("x", Dir, sub)]
    ensures hash(whole) in GraftAll(hash, store, root, [(["a", "x"], sub)]).0
  {
    var list := [(["a", "x"], sub)];
    assert list[..0] == [] && GraftAll(hash, store, root, list) == Graft(hash, store, root, ["a", "x"], sub);
    assert ["a", "x"][1..] == ["x"] && ["x"][1..] == [];
    GraftUnfolds(hash, store, root, ["a", "x"], sub);
    GraftUnfolds(hash, store, hash(broken), ["x"], sub);
    assert EntryIndex(top, "a") == 0 && EntryIndex(broken, "x") == 0;
    assert broken[0 := broken[0].(hash := sub)] == whole;
    assert Graft(hash, store, broken[0].hash, [], sub) == (store, sub);
    assert hash(whole) in Graft(hash, store, hash(broken), ["x"], sub).0;
  }

  /** Not everything recovered can be read. Folder `a` lost its folder `x`, and what `a` is with `x` grafted back
      is listed but cannot be fetched: storing it again writes nothing. */
  lemma GraftCanStick(hash: seq<Entry> -> Hash, rank: Hash -> nat)
    returns (store: Store, root: Hash, recovered: seq<(Path, Hash)>)
    requires IdealHash(hash) && RankedHash(hash, rank)
    ensures Addressed(hash, rank, store, root) && Recoverables(store, rank, root, recovered)
    ensures !Writables(hash, store, rank, root, recovered)
    ensures !Recovered(GraftAll(hash, store, root, recovered).0, GraftAll(hash, store, root, recovered).1, recovered)
  {
    var sub, gone := hash([]), hash([Entry("gone", File, "gone")]);
    var whole, broken := [Entry("x", Dir, sub)], [Entry("x", Dir, gone)];
    var top := [Entry("a", Dir, hash(broken))];
    root := hash(top);
    store := map[sub := Tree([]), hash(broken) := Tree(broken), root := Tree(top), hash(whole) := Unreadable];
    recovered := [(["a", "x"], sub)];
    StickIds(hash, sub, gone, whole, broken, top);
    StickSetting(hash, rank, store, sub, gone, whole, broken, top);
    StickPaths(store, root, broken, top, gone);
    assert Whole(store, rank, sub);
    StickWrites(hash, rank, store, root, sub, whole, broken, top);
    RecoveredIff(hash, rank, store, root, recovered);
  }

  lemma StickIds(hash: seq<Entry> -> Hash, sub: Hash, gone: Hash, whole: seq<Entry>, broken: seq<Entry>,
                 top: seq<Entry>)
    requires IdealHash(hash) && sub == hash([]) && gone == hash([Entry("gone", File, "gone")])
    requires whole == [Entry("x", Dir, sub)] && broken == [Entry("x", Dir, gone)]
    requires top == [Entry("a", Dir, hash(broken))]
    ensures gone !in {sub, hash(broken), hash(top), hash(whole)} && hash(whole) !in {sub, hash(broken), hash(top)}
    ensures hash(top) !in {sub, hash(broken)} && sub != hash(broken)
  {
    var lost := [Entry("gone", File, "gone")];
    assert |lost| == |whole| == |broken| == |top| == 1;
    assert lost[0].name != "x" && lost[0].name != "a";
    assert whole[0].hash != broken[0].hash && top[0].name != "x";
  }

  lemma StickSetting(hash: seq<Entry> -> Hash, rank: Hash -> nat, store: Store, sub: Hash, gone: Hash,
                     whole: seq<Entry>, broken: seq<Entry>, top: seq<Entry>)
    requires IdealHash(hash) && RankedHash(hash, rank) && sub == hash([]) && gone != ""
    requires broken == [Entry("x", Dir, gone)] && top == [Entry("a", Dir, hash(broken))]
    requires hash(whole) !in {sub, hash(broken), hash(top)} && hash(top) !in {sub, hash(broken)} && sub != hash(broken)
    requires store == map[sub := Tree([]), hash(broken) := Tree(broken), hash(top) := Tree(top),
                          hash(whole) := Unreadable]
    ensures Addressed(hash, rank, store, hash(top))
  {
    StickStore(hash, store, [], broken, top, hash(whole));
    RankedIsAcyclic(store, hash, rank);
  }

  /** Three trees under their ids, and an object that cannot be fetched. */
  lemma StickStore(hash: seq<Entry> -> Hash, store: Store, es: seq<Entry>, fs: seq<Entry>, gs: seq<Entry>, lost: Hash)
    requires IdealHash(hash) && DecodedEntries(es) && DecodedEntries(fs) && DecodedEntries(gs)
    requires es != fs && es != gs && fs != gs && lost !in {"", hash(es), hash(fs), hash(gs)}
    requires store == map[hash(es) := Tree(es), hash(fs) := Tree(fs), hash(gs) := Tree(gs), lost := Unreadable]
    ensures Decoded(store) && ContentAddressed(store, hash)
  {
  }

  lemma StickPaths(store: Store, root: Hash, broken: seq<Entry>, top: seq<Entry>, gone: Hash)
    requires |top| == 1 && top[0].name == "a" && top[0].kind.Dir? && top[0].hash != ""
    requires broken == [Entry("x", Dir, gone)] && gone != "" && gone !in store
    requires root in store && store[root] == Tree(top) && top[0].hash in store && store[top[0].hash] == Tree(broken)
    ensures Missing(store, root, ["a", "x"])
  {
    assert ["a", "x"][1..] == ["x"] && ["x"][1..] == [];
    assert ChildDir(top, "a") == Some(top[0].hash) && ChildDir(broken, "x") == Some(gone);
    assert Resolve(store, gone, []) == Some(gone);
    assert Resolve(store, top[0].hash, ["x"]) == Some(gone);
  }

  lemma StickWrites(hash: seq<Entry> -> Hash, rank: Hash -> nat, store: Store, root: Hash, sub: Hash,
                    whole: seq<Entry>, broken: seq<Entry>, top: seq<Entry>)
    requires Addressed(hash, rank, store, root) && Recoverables(store, rank, root, [(["a", "x"], sub)])
    requires store[root] == Tree(top) && |top| == 1 && top[0] == Entry("a", Dir, hash(broken)) && top[0].hash != ""
    requires hash(broken) in store && store[hash(broken)] == Tree(broken)
    requires |broken| == 1 && broken[0].name == "x" && broken[0].kind.Dir? && broken[0].hash != ""
    requires whole == [Entry("x", Dir, sub)] && hash(whole) in store && store[hash(whole)].Unreadable?
    ensures !Writables(hash, store, rank, root, [(["a", "x"], sub)])
  {
    var list := [(["a", "x"], sub)];
    assert list[..0] == [] && GraftAll(hash, store, root, []) == (store, root) && ["a", "x"][1..] == ["x"];
    GraftAllSplices(hash, rank, store, root, []);
    GraftUnfolds(hash, store, hash(broken), ["x"], sub);
    assert EntryIndex(broken, "x") == 0 && broken[0 := broken[0].(hash := sub)] == whole && ["x"][1..] == [];
    SpineUnfolds(hash, store, root, ["a", "x"], sub, hash(whole));
    SpineUnfolds(hash, store, hash(broken), ["x"], sub, hash(whole));
    LastWrites(hash, rank, store, root, list, hash(whole));
    WritesOneMore(hash, rank, store, root, list, hash(whole));
  }

  /** A folder whose object has been written is no longer damaged. */
  lemma HealedAfterwards(hash: seq<Entry> -> Hash, rank: Hash -> nat, store: Store, root: Hash,
                         list: seq<(Path, Hash)>, q: Path)
    requires Addressed(hash, rank, store, root) && Recoverables(store, rank, root, list)
    requires Writables(hash, store, rank, root, list) && Missing(store, root, q) && q !in AsMap(list)
    requires Resolve(store, root, q).value in GraftAll(hash, store, root, list).0
    ensures !Missing(GraftAll(hash, store, root, list).0, GraftAll(hash, store, root, list).1, q)
    ensures !NoneAwaited(hash, store, rank, root, list)
  {
    var (grown, root2) := GraftAll(hash, store, root, list);
    GraftAllAddressed(hash, rank, store, root, list);
    GraftAllSplices(hash, rank, store, root, list);
    AsMapHas(list);
    DamagedAfter(store, rank, grown, rank, root, root2, AsMap(list), q);
    ResolveExtends(store, grown, root, q);
    HealedIsWritten(hash, rank, store, root, list);
  }

  // ---- repair_repo -----------------------------------------------------------------------------

  datatype Outcome = NothingDamaged | DryRun | NothingRecoverable | Unchanged | Applied | CasLost | SearchFailed

  /** What one search gets to see. */
  datatype Sight = Sight(scopes: ScopeTable, log: seq<LogEntry>)

  /** After the publishes that land before each of the first `n` searches. */
  function After(s: State, others: nat -> seq<Publish>, n: nat): State {
    if n == 0 then s else Run(After(s, others, n - 1), others(n - 1))
  }

  /** Every search reads the scope table and the log anew. */
  function SightAt(s: State, scopes: nat -> ScopeTable, others: nat -> seq<Publish>, n: nat): Sight {
    Sight(scopes(n), After(s, others, n + 1).log)
  }

  ghost predicate Finds(store: Store, rank: Hash -> nat, sight: Sight, path: string, found: Recovery)
    requires Acyclic(store, rank)
  {
    Recovers(store, rank, sight.scopes, sight.log, path, found)
  }

  /** The search for `path` did not raise, and `recovered` lists exactly what it found. */
  ghost predicate Settled(store: Store, rank: Hash -> nat, path: string, sight: Sight, recovered: seq<(Path, Hash)>)
    requires Acyclic(store, rank)
  {
    || ((forall sub :: (Segments(path), sub) !in recovered) && Finds(store, rank, sight, path, NotFound))
    || exists sub :: (Segments(path), sub) in recovered && Finds(store, rank, sight, path, Found(sub))
  }

  /** The outcome of all the searches: for every damaged folder of `root`, and for nothing else. */
  ghost predicate Searched(store: Store, rank: Hash -> nat, root: Hash, damaged: seq<string>, s: State,
                           scopes: nat -> ScopeTable, others: nat -> seq<Publish>, recovered: seq<(Path, Hash)>)
    requires Acyclic(store, rank)
  {
    && Recoverables(store, rank, root, recovered)
    && forall n :: 0 <= n < |damaged| ==>
         Settled(store, rank, damaged[n], SightAt(s, scopes, others, n), recovered)
  }

  /** The last of the first `n` searches raised. */
  ghost predicate Raised(store: Store, rank: Hash -> nat, damaged: seq<string>, s: State, scopes: nat -> ScopeTable,
                         others: nat -> seq<Publish>, n: nat)
    requires Acyclic(store, rank)
  {
    0 < n <= |damaged| && Finds(store, rank, SightAt(s, scopes, others, n - 1), damaged[n - 1], SearchRaised)
  }

  /** What the searches for a list of scanned paths have recovered. */
  function Collect(damaged: seq<string>, answers: seq<Recovery>): seq<(Path, Hash)>
    requires |answers| == |damaged|
  {
    if damaged == [] then []
    else
      var n := |damaged| - 1;
      Collect(damaged[..n], answers[..n])
      + if answers[n].Found? then [(Segments(damaged[n]), answers[n].sub)] else []
  }

  lemma CollectSnoc(damaged: seq<string>, answers: seq<Recovery>, path: string, found: Recovery)
    requires |answers| == |damaged|
    ensures Collect(damaged + [path], answers + [found])
         == Collect(damaged, answers) + if found.Found? then [(Segments(path), found.sub)] else []
  {
    assert (damaged + [path])[..|damaged|] == damaged && (answers + [found])[..|damaged|] == answers;
  }

  /** Where a recovered folder comes from. */
  lemma {:induction false} CollectFrom(damaged: seq<string>, answers: seq<Recovery>, i: nat) returns (k: nat)
    requires |answers| == |damaged| && i < |Collect(damaged, answers)|
    ensures k < |damaged| && answers[k].Found?
    ensures Collect(damaged, answers)[i] == (Segments(damaged[k]), answers[k].sub)
  {
    var n := |damaged| - 1;
    if i < |Collect(damaged[..n], answers[..n])| {
      k := CollectFrom(damaged[..n], answers[..n], i);
    } else {
      k := n;
    }
  }

  lemma {:induction false} CollectHas(damaged: seq<string>, answers: seq<Recovery>, k: nat)
    requires |answers| == |damaged| && k < |damaged| && answers[k].Found?
    ensures (Segments(damaged[k]), answers[k].sub) in Collect(damaged, answers)
    decreases |damaged|
  {
    var n := |damaged| - 1;
    if k < n {
      CollectHas(damaged[..n], answers[..n], k);
    }
  }

  /** No two scanned texts stand for the same path. */
  ghost predicate DistinctSegments(damaged: seq<string>) {
    forall j, k :: 0 <= j < k < |damaged| ==> Segments(damaged[j]) != Segments(damaged[k])
  }

  lemma {:induction false} CollectDistinct(damaged: seq<string>, answers: seq<Recovery>)
    requires |answers| == |damaged| && DistinctSegments(damaged)
    ensures DistinctPaths(Collect(damaged, answers))
  {
    if damaged != [] {
      var n := |damaged| - 1;
      var front := Collect(damaged[..n], answers[..n]);
      CollectDistinct(damaged[..n], answers[..n]);
      forall i | 0 <= i < |front| ensures front[i].0 != Segments(damaged[n]) {
        var k := CollectFrom(damaged[..n], answers[..n], i);
      }
    }
  }

  lemma ScanDistinct(store: Store, root: Hash, damaged: seq<string>)
    requires ReportsExactly(store, root, damaged)
    ensures DistinctSegments(damaged)
    ensures forall k :: 0 <= k < |damaged| ==> Missing(store, root, Segments(damaged[k]))
  {
    forall k | 0 <= k < |damaged| ensures PathString(Segments(damaged[k])) == damaged[k] {
      assert damaged[k] in damaged;
    }
    forall k | 0 <= k < |damaged| ensures Missing(store, root, Segments(damaged[k])) {
      assert damaged[k] in damaged;
    }
  }

  /** The search for a scanned path came to an answer. */
  ghost predicate Answered(store: Store, rank: Hash -> nat, sight: Sight, path: string, found: Recovery)
    requires Acyclic(store, rank)
  {
    Finds(store, rank, sight, path, found) && !found.SearchRaised? && (found.Found? ==> Whole(store, rank, found.sub))
  }

  ghost predicate AllAnswered(store: Store, rank: Hash -> nat, damaged: seq<string>, s: State,
                              scopes: nat -> ScopeTable, others: nat -> seq<Publish>, answers: seq<Recovery>)
    requires Acyclic(store, rank) && |answers| <= |damaged|
  {
    forall k :: 0 <= k < |answers| ==>
      Answered(store, rank, SightAt(s, scopes, others, k), damaged[k], answers[k])
  }

  lemma CollectRecoverables(store: Store, rank: Hash -> nat, root: Hash, damaged: seq<string>, s: State,
                            scopes: nat -> ScopeTable, others: nat -> seq<Publish>, answers: seq<Recovery>)
    requires Acyclic(store, rank) && ReportsExactly(store, root, damaged) && |answers| == |damaged|
    requires AllAnswered(store, rank, damaged, s, scopes, others, answers)
    ensures Recoverables(store, rank, root, Collect(damaged, answers))
  {
    ScanDistinct(store, root, damaged);
    CollectDistinct(damaged, answers);
    forall i | 0 <= i < |Collect(damaged, answers)|
      ensures Missing(store, root, Collect(damaged, answers)[i].0) && Whole(store, rank, Collect(damaged, answers)[i].1)
    {
      var k := CollectFrom(damaged, answers, i);
      assert Answered(store, rank, SightAt(s, scopes, others, k), damaged[k], answers[k]);
    }
  }

  lemma CollectSettles(store: Store, rank: Hash -> nat, damaged: seq<string>, sight: Sight, answers: seq<Recovery>,
                       k: nat)
    requires Acyclic(store, rank) && DistinctSegments(damaged) && |answers| == |damaged| && k < |damaged|
    requires Answered(store, rank, sight, damaged[k], answers[k])
    ensures Settled(store, rank, damaged[k], sight, Collect(damaged, answers))
  {
    if answers[k].Found? {
      CollectHas(damaged, answers, k);
    } else {
      forall sub ensures (Segments(damaged[k]), sub) !in Collect(damaged, answers) {
        NotCollected(damaged, answers, k, (Segments(damaged[k]), sub));
      }
    }
  }

  lemma NotCollected(damaged: seq<string>, answers: seq<Recovery>, k: nat, x: (Path, Hash))
    requires DistinctSegments(damaged) && |answers| == |damaged| && k < |damaged| && !answers[k].Found?
    requires Segments(damaged[k]) == x.0
    ensures x !in Collect(damaged, answers)
  {
    forall i | 0 <= i < |Collect(damaged, answers)| ensures Collect(damaged, answers)[i] != x {
      var m := CollectFrom(damaged, answers, i);
      assert m != k;
    }
  }

  lemma AllSettled(store: Store, rank: Hash -> nat, root: Hash, damaged: seq<string>, s: State,
                   scopes: nat -> ScopeTable, others: nat -> seq<Publish>, answers: seq<Recovery>)
    requires WellFormed(store, rank) && ReportsExactly(store, root, damaged) && |answers| == |damaged|
    requires AllAnswered(store, rank, damaged, s, scopes, others, answers)
    ensures Searched(store, rank, root, damaged, s, scopes, others, Collect(damaged, answers))
  {
    CollectRecoverables(store, rank, root, damaged, s, scopes, others, answers);
    ScanDistinct(store, root, damaged);
    forall n | 0 <= n < |damaged|
      ensures Settled(store, rank, damaged[n], SightAt(s, scopes, others, n), Collect(damaged, answers))
    {
      CollectSettles(store, rank, damaged, SightAt(s, scopes, others, n), answers, n);
    }
  }

  /** User publishes land. */
  method Land(repo: HistoryManager, others: seq<Publish>)
    modifies repo
    ensures repo.View() == Run(old(repo.View()), others)
  {
    for i := 0 to |others|
      invariant repo.View() == Run(old(repo.View()), others[..i])
    {
      var _ := repo.PublishProjectUpdate(others[i]);
      assert others[..i + 1][..i] == others[..i];
    }
    assert others[..|others|] == others;
  }

  lemma OneMoreAnswer(store: Store, rank: Hash -> nat, damaged: seq<string>, s: State, scopes: nat -> ScopeTable,
                      others: nat -> seq<Publish>, answers: seq<Recovery>, found: Recovery)
    requires Acyclic(store, rank) && |answers| < |damaged|
    requires AllAnswered(store, rank, damaged, s, scopes, others, answers)
    requires Answered(store, rank, SightAt(s, scopes, others, |answers|), damaged[|answers|], found)
    ensures AllAnswered(store, rank, damaged, s, scopes, others, answers + [found])
  {
    var more := answers + [found];
    forall k | 0 <= k < |more| ensures Answered(store, rank, SightAt(s, scopes, others, k), damaged[k], more[k]) {
      assert k < |answers| ==> more[k] == answers[k];
    }
  }

  lemma OneMoreCollected(damaged: seq<string>, answers: seq<Recovery>, n: nat, found: Recovery)
    requires n == |answers| < |damaged|
    ensures Collect(damaged[..n + 1], answers + [found])
         == Collect(damaged[..n], answers) + if found.Found? then [(Segments(damaged[n]), found.sub)] else []
  {
    assert damaged[..n + 1] == damaged[..n] + [damaged[n]];
    CollectSnoc(damaged[..n], answers, damaged[n], found);
  }

  /** Search `n`, just after its publishes have landed. */
  method SearchOne(repo: HistoryManager, store: Store, ghost rank: Hash -> nat, path: string, ghost s: State, n: nat,
                   scopes: nat -> ScopeTable, others: nat -> seq<Publish>)
    returns (found: Recovery)
    requires WellFormed(store, rank) && repo.View() == After(s, others, n)
    modifies repo
    ensures repo.View() == After(s, others, n + 1)
    ensures Finds(store, rank, SightAt(s, scopes, others, n), path, found)
    ensures found.Found? ==> Whole(store, rank, found.sub)
  {
    Land(repo, others(n));
    found := FindRecoverySubtree(store, scopes(n), repo.entries, path, rank);
  }

  /** Searches for the scanned folders one by one; if `ok` is false, the last search raised. */
  method SearchAll(repo: HistoryManager, store: Store, ghost rank: Hash -> nat, root: Hash, damaged: seq<string>,
                   scopes: nat -> ScopeTable, others: nat -> seq<Publish>)
    returns (ok: bool, recovered: seq<(Path, Hash)>, searches: nat)
    requires WellFormed(store, rank) && ReportsExactly(store, root, damaged)
    modifies repo
    ensures searches <= |damaged| && repo.View() == After(old(repo.View()), others, searches)
    ensures ok ==>
              searches == |damaged| && Searched(store, rank, root, damaged, old(repo.View()), scopes, others, recovered)
    ensures !ok ==> Raised(store, rank, damaged, old(repo.View()), scopes, others, searches)
  {
    recovered, searches := [], 0;
    ghost var s := repo.View();
    ghost var answers: seq<Recovery> := [];
    while searches < |damaged|
      invariant searches == |answers| <= |damaged|
      invariant AllAnswered(store, rank, damaged, s, scopes, others, answers)
      invariant recovered == Collect(damaged[..searches], answers)
      invariant repo.View() == After(s, others, searches)
    {
      var path := damaged[searches];
      var found := SearchOne(repo, store, rank, path, s, searches, scopes, others);
      searches := searches + 1;
      if found.SearchRaised? {
        return false, [], searches;
      }
      OneMoreAnswer(store, rank, damaged, s, scopes, others, answers, found);
      OneMoreCollected(damaged, answers, searches - 1, found);
      answers := answers + [found];
      if found.Found? {
        recovered := recovered + [(Segments(path), found.sub)];
      }
    }
    assert damaged[..|damaged|] == damaged;
    AllSettled(store, rank, root, damaged, s, scopes, others, answers);
    return true, recovered, searches;
  }

  /** Grafts what was found and publishes the new root by one CAS; `last` land before it. */
  method ApplyGrafts(repo: HistoryManager, store: Store, ghost rank: Hash -> nat, hash: seq<Entry> -> Hash, root: Hash,
                     recovered: seq<(Path, Hash)>, last: seq<Publish>)
    returns (outcome: Outcome, exitCode: nat, grown: Store, newRoot: Hash)
    requires Addressed(hash, rank, store, root) && Recoverables(store, rank, root, recovered) && recovered != []
    modifies repo
    ensures outcome.Applied? || outcome.CasLost?
    ensures newRoot != root && (grown, newRoot) == GraftAll(hash, store, root, recovered)
    ensures repo.View() == CasRoot(Run(old(repo.View()), last), root, newRoot)
    ensures outcome.Applied? ==> repo.rootHash == newRoot && exitCode == 0
    ensures outcome.CasLost? ==> repo.rootHash == Run(old(repo.View()), last).root != root && exitCode == 1
  {
    exitCode := 0;
    grown, newRoot := GraftLoop(hash, store, root, recovered);
    if newRoot != root {
      Land(repo, last);
      var swapped := repo.CasUpdateRootHash(root, newRoot);
      outcome, exitCode := if swapped then Applied else CasLost, if swapped then 0 else 1;
    } else {
      outcome := Unchanged;
    }
    GraftChangesRoot(hash, rank, store, root, recovered);
  }

  /** Scans, searches and, if asked, grafts and publishes by one CAS. Users publish all the while: `others(n)`
      before search `n`, and `last` before the CAS. */
  method RepairRepo(repo: HistoryManager, store: Store, ghost rank: Hash -> nat, hash: seq<Entry> -> Hash,
                    scopes: nat -> ScopeTable, apply: bool, others: nat -> seq<Publish>, last: seq<Publish>)
    returns (outcome: Outcome, exitCode: nat, grown: Store, newRoot: Hash, damaged: seq<string>,
             recovered: seq<(Path, Hash)>, searches: nat)
    requires IdealHash(hash) && RankedHash(hash, rank) && WellFormed(store, rank) && ContentAddressed(store, hash)
    requires repo.rootHash == "" || repo.rootHash in store
    modifies repo
    ensures if old(repo.rootHash) == "" then damaged == [] else ReportsExactly(store, old(repo.rootHash), damaged)
    ensures outcome.NothingDamaged? <==> forall p :: !Missing(store, old(repo.rootHash), p)
    ensures searches <= |damaged| && (!outcome.SearchFailed? ==> searches == |damaged|)
    ensures outcome.SearchFailed? ==> Raised(store, rank, damaged, old(repo.View()), scopes, others, searches)
    ensures !outcome.SearchFailed? ==>
              Searched(store, rank, old(repo.rootHash), damaged, old(repo.View()), scopes, others, recovered)
    ensures !outcome.NothingDamaged? && !outcome.SearchFailed? ==>
              && (outcome.DryRun? <==> !apply)
              && (outcome.NothingRecoverable? <==> apply && recovered == [])
    ensures !outcome.Unchanged?
    ensures outcome.Applied? || outcome.CasLost? <==> newRoot != old(repo.rootHash)
    ensures !outcome.Applied? && !outcome.CasLost? ==>
              grown == store && repo.View() == After(old(repo.View()), others, searches)
    ensures outcome.Applied? || outcome.CasLost? ==>
              && (grown, newRoot) == GraftAll(hash, store, old(repo.rootHash), recovered)
              && repo.View() == CasRoot(Run(After(old(repo.View()), others, searches), last), old(repo.rootHash),
                                        newRoot)
    ensures outcome.Applied? ==> repo.rootHash == newRoot
    ensures outcome.CasLost? ==>
              repo.rootHash == Run(After(old(repo.View()), others, searches), last).root != old(repo.rootHash)
    ensures !outcome.SearchFailed? ==> (exitCode == 1 <==> outcome.CasLost?) && (exitCode == 0 <==> !outcome.CasLost?)
  {
    var root := repo.rootHash;
    exitCode, grown, newRoot, recovered, searches := 0, store, root, [], 0;
    damaged := ScanDamagedDirs(store, root, rank);
    NothingReported(store, root, damaged);
    if damaged == [] {
      outcome := NothingDamaged;
      return;
    }
    var ok, list, n := SearchAll(repo, store, rank, root, damaged, scopes, others);
    searches := n;
    if !ok {
      outcome := SearchFailed;
      return;
    }
    recovered := list;
    if !apply {
      outcome := DryRun;
      return;
    }
    if recovered == [] {
      outcome := NothingRecoverable;
      return;
    }
    outcome, exitCode, grown, newRoot := ApplyGrafts(repo, store, rank, hash, root, recovered, last);
  }

  method GraftLoop(hash: seq<Entry> -> Hash, store: Store, root: Hash, recovered: seq<(Path, Hash)>)
    returns (grown: Store, newRoot: Hash)
    ensures (grown, newRoot) == GraftAll(hash, store, root, recovered)
  {
    grown, newRoot := store, root;
    for i := 0 to |recovered|
      invariant (grown, newRoot) == GraftAll(hash, store, root, recovered[..i])
    {
      assert recovered[..i + 1][..i] == recovered[..i];
      var (g, r) := Graft(hash, grown, newRoot, recovered[i].0, recovered[i].1);
      grown, newRoot := g, r;
    }
    assert recovered[..|recovered|] == recovered;
  }

  lemma NothingReported(store: Store, root: Hash, damaged: seq<string>)
    requires Decoded(store)
    requires root == "" ==> damaged == []
    requires root in store ==> ReportsExactly(store, root, damaged)
    requires root == "" || root in store
    ensures damaged == [] <==> forall p :: !Missing(store, root, p)
  {
    if root == "" {
      forall p ensures !Missing(store, root, p) {
      }
    } else if damaged != [] {
      assert damaged[0] in damaged;
      assert Missing(store, root, Segments(damaged[0]));
    }
  }
}
