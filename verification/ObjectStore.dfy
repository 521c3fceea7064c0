/** The content-addressed tree store, and what a path means in it. */
module ObjectStore {
  import opened Text

  /** An object id; "" stands for "no object". */
  type Hash = string
  type Name = string
  type Path = seq<Name>

  datatype Kind = Dir | File | GitLink
  datatype Entry = Entry(name: Name, kind: Kind, hash: Hash)

  /** `Unreadable` is stored but cannot be fetched; `NonTree` is a blob or a commit. */
  datatype Object = Tree(entries: seq<Entry>) | NonTree | Unreadable
  type Store = map<Hash, Object>

  predicate IsTree(store: Store, h: Hash) {
    h in store && store[h].Tree?
  }

  predicate IsName(n: Name) {
    n != "" && '/' !in n
  }

  /** What `decode_tree` guarantees about every list of entries it returns. */
  ghost predicate DecodedEntries(es: seq<Entry>) {
    && (forall i :: 0 <= i < |es| ==> IsName(es[i].name) && es[i].hash != "")
    && (forall i, j :: 0 <= i < j < |es| ==> es[i].name != es[j].name)
  }

  /** Nothing is stored under the empty id, and every stored tree decodes. */
  ghost predicate Decoded(store: Store) {
    && "" !in store
    && forall h :: IsTree(store, h) ==> DecodedEntries(store[h].entries)
  }

  /** `rank` witnesses that following directory entries never comes back to a tree. */
  ghost predicate Acyclic(store: Store, rank: Hash -> nat) {
    forall h, i ::
      IsTree(store, h) && 0 <= i < |store[h].entries| && store[h].entries[i].kind.Dir?
      && store[h].entries[i].hash in store
      ==> rank(store[h].entries[i].hash) < rank(h)
  }

  ghost predicate WellFormed(store: Store, rank: Hash -> nat) {
    Decoded(store) && Acyclic(store, rank)
  }

  /** The first entry called `name`, if it is a directory that names an object. */
  function ChildDir(es: seq<Entry>, name: Name): Option<Hash> {
    if es == [] then None
    else if es[0].name == name then
      if es[0].kind.Dir? && es[0].hash != "" then Some(es[0].hash) else None
    else ChildDir(es[1..], name)
  }

  /** The hash recorded at `p` below `h`; the object it names may be missing. */
  function Resolve(store: Store, h: Hash, p: Path): Option<Hash>
    decreases p
  {
    if p == [] then Some(h)
    else if !IsTree(store, h) then None
    else match ChildDir(store[h].entries, p[0])
      case None => None
      case Some(c) => Resolve(store, c, p[1..])
  }

  /** A damaged folder: `p` is recorded below `h`, but the object it names is missing. */
  predicate Missing(store: Store, h: Hash, p: Path) {
    p != [] && Resolve(store, h, p).Some? && Resolve(store, h, p).value !in store
  }

  /** Everything below `h` is stored and readable: what an empty missing-object walk means. */
  ghost predicate Whole(store: Store, rank: Hash -> nat, h: Hash)
    requires Acyclic(store, rank)
    decreases rank(h)
  {
    && h in store && !store[h].Unreadable?
    && (store[h].Tree? ==> forall i :: 0 <= i < |store[h].entries| ==>
          WholeEntry(store, rank, h, i))
  }

  ghost predicate WholeEntry(store: Store, rank: Hash -> nat, h: Hash, i: nat)
    requires Acyclic(store, rank)
    requires IsTree(store, h) && i < |store[h].entries|
    decreases rank(h), 0
  {
    var e := store[h].entries[i];
    match e.kind
    case GitLink => true
    case File => e.hash in store
    case Dir => e.hash in store && Whole(store, rank, e.hash)
  }

  ghost predicate Extends(store: Store, more: Store) {
    forall h :: h in store ==> h in more && more[h] == store[h]
  }

  lemma {:induction false} ChildDirIs(es: seq<Entry>, i: nat)
    requires DecodedEntries(es) && i < |es|
    ensures ChildDir(es, es[i].name) == if es[i].kind.Dir? then Some(es[i].hash) else None
  {
    if i > 0 {
      ChildDirIs(es[1..], i - 1);
    }
  }

  lemma {:induction false} ChildDirFrom(es: seq<Entry>, name: Name) returns (i: nat)
    requires ChildDir(es, name).Some?
    ensures i < |es| && es[i].name == name && es[i].kind.Dir?
    ensures ChildDir(es, name) == Some(es[i].hash)
  {
    if es[0].name == name {
      i := 0;
    } else {
      i := ChildDirFrom(es[1..], name);
      i := i + 1;
    }
  }

  lemma {:induction false} ResolveAppend(store: Store, h: Hash, p: Path, q: Path)
    ensures Resolve(store, h, p + q) ==
            match Resolve(store, h, p) { case None => None case Some(c) => Resolve(store, c, q) }
    decreases p
  {
    if p == [] {
      assert p + q == q;
    } else if IsTree(store, h) && ChildDir(store[h].entries, p[0]).Some? {
      ResolveAppend(store, ChildDir(store[h].entries, p[0]).value, p[1..], q);
      assert (p + q)[1..] == p[1..] + q;
    }
  }

  /** Nothing resolves below a damaged folder, so damaged folders are never nested. */
  lemma {:induction false} MissingAntichain(store: Store, h: Hash, p: Path, q: Path)
    requires Missing(store, h, p) && Missing(store, h, q) && p <= q
    ensures p == q
  {
    ResolveAppend(store, h, p, q[|p|..]);
    assert p + q[|p|..] == q;
  }

  lemma {:induction false} ResolveExtends(store: Store, more: Store, h: Hash, p: Path)
    requires Extends(store, more)
    ensures Resolve(store, h, p).Some? ==> Resolve(more, h, p) == Resolve(store, h, p)
    decreases p
  {
    if p != [] && IsTree(store, h) && ChildDir(store[h].entries, p[0]).Some? {
      ResolveExtends(store, more, ChildDir(store[h].entries, p[0]).value, p[1..]);
    }
  }

  /** If only the larger store resolves `p`, the smaller one misses an object on the way. */
  lemma {:induction false} MissingOnTheWay(store: Store, more: Store, h: Hash, p: Path)
    returns (k: nat)
    requires Extends(store, more) && h in store
    requires Resolve(store, h, p).None? && Resolve(more, h, p).Some?
    ensures 0 < k < |p| && Missing(store, h, p[..k])
    decreases p
  {
    var c := ChildDir(store[h].entries, p[0]).value;
    if c in store {
      k := MissingOnTheWay(store, more, c, p[1..]);
      k := k + 1;
      assert p[..k][1..] == p[1..][..k - 1];
    } else {
      k := 1;
      assert p[..1][1..] == [];
      assert Resolve(store, c, []) == Some(c);
    }
  }

  lemma {:induction false} WholeResolves(store: Store, rank: Hash -> nat, h: Hash, p: Path)
    requires WellFormed(store, rank) && Whole(store, rank, h)
    requires Resolve(store, h, p).Some?
    ensures Whole(store, rank, Resolve(store, h, p).value)
    decreases p
  {
    if p != [] {
      var i := ChildDirFrom(store[h].entries, p[0]);
      assert WholeEntry(store, rank, h, i);
      WholeResolves(store, rank, store[h].entries[i].hash, p[1..]);
    }
  }

  lemma {:induction false} WholeExtends(store: Store, rank: Hash -> nat, more: Store, rank2: Hash -> nat, h: Hash)
    requires Acyclic(store, rank) && Acyclic(more, rank2) && Extends(store, more)
    requires Whole(store, rank, h)
    ensures Whole(more, rank2, h)
    decreases rank(h)
  {
    if store[h].Tree? {
      forall i | 0 <= i < |store[h].entries| ensures WholeEntry(more, rank2, h, i) {
        assert WholeEntry(store, rank, h, i);
        if store[h].entries[i].kind.Dir? {
          WholeExtends(store, rank, more, rank2, store[h].entries[i].hash);
        }
      }
    }
  }

  // ---- The same by single steps ------------------------------------------------------------

  /** Tree `h` lists a folder called `name` with id `c`. */
  ghost predicate Lists(store: Store, h: Hash, name: Name, c: Hash) {
    IsTree(store, h) && exists i :: 0 <= i < |store[h].entries| && store[h].entries[i] == Entry(name, Dir, c)
  }

  /** Ids met one after the other on the way down `p`, each listed by the tree before it. */
  ghost predicate Trail(store: Store, trail: seq<Hash>, p: Path) {
    |trail| == |p| + 1 && forall k :: 0 <= k < |p| ==> Lists(store, trail[k], p[k], trail[k + 1])
  }

  lemma ListedIsChild(store: Store, h: Hash, name: Name, c: Hash)
    requires Decoded(store)
    ensures Lists(store, h, name, c) <==> IsTree(store, h) && ChildDir(store[h].entries, name) == Some(c)
  {
    if Lists(store, h, name, c) {
      var i :| 0 <= i < |store[h].entries| && store[h].entries[i] == Entry(name, Dir, c);
      ChildDirIs(store[h].entries, i);
    }
    if IsTree(store, h) && ChildDir(store[h].entries, name) == Some(c) {
      var i := ChildDirFrom(store[h].entries, name);
      assert store[h].entries[i] == Entry(name, Dir, c);
    }
  }

  lemma {:induction false} TrailResolves(store: Store, trail: seq<Hash>, p: Path)
    requires Decoded(store) && Trail(store, trail, p)
    ensures Resolve(store, trail[0], p) == Some(trail[|p|])
    decreases p
  {
    if p != [] {
      assert Lists(store, trail[0], p[0], trail[0 + 1]);
      ListedIsChild(store, trail[0], p[0], trail[1]);
      assert trail[1..][0] == trail[1] && trail[1..][|p[1..]|] == trail[|p|];
      forall k | 0 <= k < |p[1..]| ensures Lists(store, trail[1..][k], p[1..][k], trail[1..][k + 1]) {
        assert Lists(store, trail[k + 1], p[k + 1], trail[k + 1 + 1]);
      }
      TrailResolves(store, trail[1..], p[1..]);
    }
  }

  lemma {:induction false} ResolvedTrail(store: Store, h: Hash, p: Path) returns (trail: seq<Hash>)
    requires Decoded(store) && Resolve(store, h, p).Some?
    ensures Trail(store, trail, p) && trail[0] == h && trail[|p|] == Resolve(store, h, p).value
    decreases p
  {
    if p == [] {
      trail := [h];
    } else {
      var c := ChildDir(store[h].entries, p[0]).value;
      ListedIsChild(store, h, p[0], c);
      var rest := ResolvedTrail(store, c, p[1..]);
      trail := [h] + rest;
      forall k | 0 <= k < |p| ensures Lists(store, trail[k], p[k], trail[k + 1]) {
        if k > 0 {
          assert Lists(store, rest[k - 1], p[1..][k - 1], rest[k - 1 + 1]);
        }
      }
    }
  }

  /** A path resolves to an id exactly if the folder entries on the way lead there one by one. */
  lemma ResolveIff(store: Store, h: Hash, p: Path, c: Hash)
    requires Decoded(store)
    ensures Resolve(store, h, p) == Some(c) <==>
            exists trail :: Trail(store, trail, p) && trail[0] == h && trail[|p|] == c
  {
    if Resolve(store, h, p) == Some(c) {
      var trail := ResolvedTrail(store, h, p);
    }
    if trail :| Trail(store, trail, p) && trail[0] == h && trail[|p|] == c {
      TrailResolves(store, trail, p);
    }
  }

  // ---- What is below a tree ----------------------------------------------------------------

  ghost predicate Reaches(store: Store, h: Hash, c: Hash) {
    exists p :: Resolve(store, h, p) == Some(c)
  }

  /** Below `h` there is a listed object that cannot be fetched. */
  ghost predicate ReachesUnreadable(store: Store, h: Hash) {
    exists c :: Reaches(store, h, c) && c in store && store[c].Unreadable?
  }

  /** Below `h` folder or file `x` is recorded, but not stored. */
  ghost predicate Loses(store: Store, h: Hash, x: Hash) {
    x !in store && (Reaches(store, h, x) || exists c :: Reaches(store, h, c) && ListsFile(store, c, x))
  }

  ghost predicate ListsFile(store: Store, c: Hash, x: Hash) {
    && IsTree(store, c)
    && exists i :: 0 <= i < |store[c].entries| && store[c].entries[i].kind.File? && store[c].entries[i].hash == x
  }

  lemma ReachesSelf(store: Store, h: Hash)
    ensures Reaches(store, h, h)
  {
    assert Resolve(store, h, []) == Some(h);
  }

  lemma ReachesChild(store: Store, h: Hash, c: Hash, i: nat)
    requires Decoded(store) && Reaches(store, h, c) && IsTree(store, c) && i < |store[c].entries|
    requires store[c].entries[i].kind.Dir?
    ensures Reaches(store, h, store[c].entries[i].hash)
  {
    var p :| Resolve(store, h, p) == Some(c);
    var e := store[c].entries[i];
    ChildDirIs(store[c].entries, i);
    ResolveAppend(store, h, p, [e.name]);
    assert [e.name][1..] == [] && Resolve(store, e.hash, []) == Some(e.hash);
    assert Resolve(store, h, p + [e.name]) == Some(e.hash);
  }

  /** A set with `h` and the folders listed by its trees holds everything below `h`. */
  lemma {:induction false} ClosedHolds(store: Store, seen: set<Hash>, h: Hash, p: Path)
    requires h in seen && Resolve(store, h, p).Some?
    requires forall t, i ::
               t in seen && IsTree(store, t) && 0 <= i < |store[t].entries| && store[t].entries[i].kind.Dir? ==>
                 store[t].entries[i].hash in seen
    ensures Resolve(store, h, p).value in seen
    decreases p
  {
    if p != [] {
      var i := ChildDirFrom(store[h].entries, p[0]);
      ClosedHolds(store, seen, store[h].entries[i].hash, p[1..]);
    }
  }

  lemma {:induction false} WholeBelow(store: Store, rank: Hash -> nat, h: Hash, p: Path)
    requires Acyclic(store, rank) && Whole(store, rank, h) && Resolve(store, h, p).Some?
    ensures Whole(store, rank, Resolve(store, h, p).value)
    decreases p
  {
    if p != [] {
      var i := ChildDirFrom(store[h].entries, p[0]);
      assert WholeEntry(store, rank, h, i);
      WholeBelow(store, rank, store[h].entries[i].hash, p[1..]);
    }
  }

  /** Everything below `h` is there: its folders and files are stored, and its folders can be fetched. */
  ghost predicate Intact(store: Store, h: Hash) {
    forall c :: Reaches(store, h, c) ==>
      && c in store && !store[c].Unreadable?
      && (store[c].Tree? ==> forall i :: 0 <= i < |store[c].entries| && store[c].entries[i].kind.File? ==>
            store[c].entries[i].hash in store)
  }

  lemma WholeIsIntact(store: Store, rank: Hash -> nat, h: Hash)
    requires Acyclic(store, rank) && Whole(store, rank, h)
    ensures Intact(store, h)
  {
    forall c | Reaches(store, h, c)
      ensures c in store && !store[c].Unreadable?
      ensures store[c].Tree? ==> forall i :: 0 <= i < |store[c].entries| && store[c].entries[i].kind.File? ==>
                store[c].entries[i].hash in store
    {
      var p :| Resolve(store, h, p) == Some(c);
      WholeBelow(store, rank, h, p);
      if store[c].Tree? {
        forall i | 0 <= i < |store[c].entries| && store[c].entries[i].kind.File?
          ensures store[c].entries[i].hash in store
        {
          assert WholeEntry(store, rank, c, i);
        }
      }
    }
  }

  lemma {:induction false} IntactIsWhole(store: Store, rank: Hash -> nat, root: Hash, h: Hash)
    requires WellFormed(store, rank) && Intact(store, root) && Reaches(store, root, h)
    ensures Whole(store, rank, h)
    decreases rank(h)
  {
    if store[h].Tree? {
      forall i | 0 <= i < |store[h].entries| ensures WholeEntry(store, rank, h, i) {
        if store[h].entries[i].kind.Dir? {
          ReachesChild(store, root, h, i);
          IntactIsWhole(store, rank, root, store[h].entries[i].hash);
        }
      }
    }
  }

  /** A tree is whole exactly if everything its paths lead to is there. */
  lemma WholeIff(store: Store, rank: Hash -> nat, h: Hash)
    requires WellFormed(store, rank)
    ensures Whole(store, rank, h) <==>
            forall c :: Reaches(store, h, c) ==>
              && c in store && !store[c].Unreadable?
              && (store[c].Tree? ==> forall i :: 0 <= i < |store[c].entries| && store[c].entries[i].kind.File? ==>
                    store[c].entries[i].hash in store)
  {
    if Whole(store, rank, h) {
      WholeIsIntact(store, rank, h);
    }
    if Intact(store, h) {
      ReachesSelf(store, h);
      IntactIsWhole(store, rank, h, h);
    }
  }

  /** Whole means that nothing below is lost and nothing cannot be fetched. */
  lemma WholeIffNothingLost(store: Store, rank: Hash -> nat, h: Hash)
    requires WellFormed(store, rank)
    ensures Whole(store, rank, h) <==> !ReachesUnreadable(store, h) && forall x :: !Loses(store, h, x)
  {
    WholeIff(store, rank, h);
    if !ReachesUnreadable(store, h) && forall x :: !Loses(store, h, x) {
      forall c | Reaches(store, h, c)
        ensures c in store && !store[c].Unreadable?
        ensures store[c].Tree? ==> forall i :: 0 <= i < |store[c].entries| && store[c].entries[i].kind.File? ==>
                  store[c].entries[i].hash in store
      {
        assert !Loses(store, h, c);
        if store[c].Tree? {
          forall i | 0 <= i < |store[c].entries| && store[c].entries[i].kind.File?
            ensures store[c].entries[i].hash in store
          {
            assert ListsFile(store, c, store[c].entries[i].hash);
            assert !Loses(store, h, store[c].entries[i].hash);
          }
        }
      }
    }
    if x :| Loses(store, h, x) {
      if c :| Reaches(store, h, c) && ListsFile(store, c, x) {
      }
    }
  }

  /** A walk from `h` reaches an object that is listed but cannot be fetched. */
  ghost predicate HitsUnreadable(store: Store, rank: Hash -> nat, h: Hash)
    requires Acyclic(store, rank)
    decreases rank(h)
  {
    && h in store
    && (store[h].Unreadable?
        || (store[h].Tree? && exists i :: 0 <= i < |store[h].entries| && ChildHits(store, rank, h, i)))
  }

  ghost predicate ChildHits(store: Store, rank: Hash -> nat, h: Hash, i: nat)
    requires Acyclic(store, rank)
    requires IsTree(store, h) && i < |store[h].entries|
    decreases rank(h), 0
  {
    var e := store[h].entries[i];
    e.kind.Dir? && e.hash in store && HitsUnreadable(store, rank, e.hash)
  }

  lemma {:induction false} HitsIsReached(store: Store, rank: Hash -> nat, root: Hash, h: Hash)
    requires WellFormed(store, rank) && HitsUnreadable(store, rank, h) && Reaches(store, root, h)
    ensures ReachesUnreadable(store, root)
    decreases rank(h)
  {
    if store[h].Tree? {
      var i :| 0 <= i < |store[h].entries| && ChildHits(store, rank, h, i);
      ReachesChild(store, root, h, i);
      HitsIsReached(store, rank, root, store[h].entries[i].hash);
    }
  }

  lemma {:induction false} ReachedIsHit(store: Store, rank: Hash -> nat, h: Hash, p: Path)
    requires Acyclic(store, rank) && Resolve(store, h, p).Some?
    requires Resolve(store, h, p).value in store && store[Resolve(store, h, p).value].Unreadable?
    ensures HitsUnreadable(store, rank, h)
    decreases p
  {
    if p != [] {
      var i := ChildDirFrom(store[h].entries, p[0]);
      var c := store[h].entries[i].hash;
      if p[1..] != [] {
        assert c in store;
      }
      ReachedIsHit(store, rank, c, p[1..]);
      assert ChildHits(store, rank, h, i);
    }
  }

  /** The walk from `h` meets an object that cannot be fetched exactly if some path leads to one. */
  lemma HitsUnreadableIff(store: Store, rank: Hash -> nat, h: Hash)
    requires WellFormed(store, rank)
    ensures HitsUnreadable(store, rank, h) <==>
            exists c :: Reaches(store, h, c) && c in store && store[c].Unreadable?
  {
    if HitsUnreadable(store, rank, h) {
      ReachesSelf(store, h);
      HitsIsReached(store, rank, h, h);
    }
    if c :| Reaches(store, h, c) && c in store && store[c].Unreadable? {
      var p :| Resolve(store, h, p) == Some(c);
      ReachedIsHit(store, rank, h, p);
    }
  }

  /** A folder is damaged exactly if the entries on the way down lead to its id, and nothing is stored under it. */
  lemma MissingIff(store: Store, h: Hash, p: Path)
    requires Decoded(store)
    ensures Missing(store, h, p) <==>
            p != [] && exists trail :: Trail(store, trail, p) && trail[0] == h && trail[|p|] !in store
  {
    if Missing(store, h, p) {
      var trail := ResolvedTrail(store, h, p);
    }
    if trail :| Trail(store, trail, p) && trail[0] == h && trail[|p|] !in store {
      TrailResolves(store, trail, p);
    }
  }
}
