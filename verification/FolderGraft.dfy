/** Grafting subtrees back into a content-addressed tree, and what the new root then means. */
module FolderGraft {
  import opened Text
  import opened ObjectStore

  /** Object ids come from hashing a list of entries; no two lists share an id. */
  ghost predicate IdealHash(hash: seq<Entry> -> Hash) {
    && (forall es :: hash(es) != "")
    && (forall a, b :: hash(a) == hash(b) ==> a == b)
  }

  /** Trees are stored under their own ids, if they can still be fetched. */
  ghost predicate ContentAddressed(store: Store, hash: seq<Entry> -> Hash) {
    && (forall h :: IsTree(store, h) ==> hash(store[h].entries) == h)
    && (forall es :: hash(es) in store ==> store[hash(es)] == Tree(es) || store[hash(es)].Unreadable?)
  }

  /** Hashing cannot be circular: a tree's id ranks above the ids of the folders it lists. */
  ghost predicate RankedHash(hash: seq<Entry> -> Hash, rank: Hash -> nat) {
    forall es: seq<Entry>, i :: 0 <= i < |es| && es[i].kind.Dir? ==> rank(es[i].hash) < rank(hash(es))
  }

  /** So every content-addressed store is acyclic, by one and the same rank. */
  lemma RankedIsAcyclic(store: Store, hash: seq<Entry> -> Hash, rank: Hash -> nat)
    requires RankedHash(hash, rank) && ContentAddressed(store, hash)
    ensures Acyclic(store, rank)
  {
  }

  // ---- Such a hash exists --------------------------------------------------------------------

  function Unary(n: nat): string {
    if n == 0 then ['0'] else ['1'] + Unary(n - 1)
  }

  /** A text with its length in front, so that it can be read back from the start of a longer one. */
  function Framed(s: string): string {
    Unary(|s|) + s
  }

  function KindChar(kind: Kind): char {
    match kind
    case Dir => 'd'
    case File => 'f'
    case GitLink => 'g'
  }

  /** Listing all entries in full is an ideal hash, if not a short one. */
  function Listing(es: seq<Entry>): string {
    if es == [] then ['.']
    else Item(es[0], Listing(es[1..]))
  }

  function Item(e: Entry, rest: string): string {
    [KindChar(e.kind)] + (Framed(e.name) + (Framed(e.hash) + rest))
  }

  lemma ItemReads(d: Entry, e: Entry, x: string, y: string)
    requires Item(d, x) == Item(e, y)
    ensures d == e && x == y
  {
    assert Item(d, x)[0] == KindChar(d.kind) && Item(e, y)[0] == KindChar(e.kind);
    assert Item(d, x)[1..] == Framed(d.name) + (Framed(d.hash) + x);
    assert Item(e, y)[1..] == Framed(e.name) + (Framed(e.hash) + y);
    FramedReads(d.name, e.name, Framed(d.hash) + x, Framed(e.hash) + y);
    FramedReads(d.hash, e.hash, x, y);
  }

  lemma {:induction false} UnaryReads(m: nat, n: nat, x: string, y: string)
    requires Unary(m) + x == Unary(n) + y
    ensures m == n && x == y
  {
    assert (Unary(m) + x)[0] == (Unary(n) + y)[0];
    if m > 0 && n > 0 {
      assert (Unary(m) + x)[1..] == Unary(m - 1) + x && (Unary(n) + y)[1..] == Unary(n - 1) + y;
      UnaryReads(m - 1, n - 1, x, y);
    } else {
      assert (Unary(m) + x)[1..] == x && (Unary(n) + y)[1..] == y;
    }
  }

  lemma FramedReads(a: string, b: string, x: string, y: string)
    requires Framed(a) + x == Framed(b) + y
    ensures a == b && x == y
  {
    assert Framed(a) + x == Unary(|a|) + (a + x) && Framed(b) + y == Unary(|b|) + (b + y);
    UnaryReads(|a|, |b|, a + x, b + y);
    assert a == (a + x)[..|a|] && x == (a + x)[|a|..];
    assert b == (b + y)[..|b|] && y == (b + y)[|b|..];
  }

  lemma {:induction false} ListingReads(a: seq<Entry>, b: seq<Entry>)
    requires Listing(a) == Listing(b)
    ensures a == b
  {
    assert Listing(a)[0] == Listing(b)[0];
    if a != [] && b != [] {
      ItemReads(a[0], b[0], Listing(a[1..]), Listing(b[1..]));
      ListingReads(a[1..], b[1..]);
      assert a == [a[0]] + a[1..] && b == [b[0]] + b[1..];
    }
  }

  lemma {:induction false} ListingIsLonger(es: seq<Entry>, i: nat)
    requires i < |es|
    ensures |es[i].hash| < |Listing(es)|
  {
    if i > 0 {
      ListingIsLonger(es[1..], i - 1);
    }
  }

  /** The assumptions on the hash can be met: none of the theorems below is about nothing. */
  lemma IdealHashExists()
    ensures IdealHash(Listing) && RankedHash(Listing, (h: Hash) => |h|)
  {
    forall a, b | Listing(a) == Listing(b) ensures a == b {
      ListingReads(a, b);
    }
    forall es: seq<Entry>, i | 0 <= i < |es| ensures |es[i].hash| < |Listing(es)| {
      ListingIsLonger(es, i);
    }
  }

  // ---- The graft -----------------------------------------------------------------------------

  function EntryIndex(es: seq<Entry>, name: Name): (i: nat)
    ensures i <= |es| && (i < |es| ==> es[i].name == name)
    ensures forall j :: 0 <= j < i ==> es[j].name != name
  {
    if es == [] || es[0].name == name then 0 else 1 + EntryIndex(es[1..], name)
  }

  /** Storing never writes over an object that is already listed, even one that cannot be fetched. */
  function Put(store: Store, h: Hash, es: seq<Entry>): Store {
    if h in store then store else store[h := Tree(es)]
  }

  predicate Writable(store: Store, h: Hash) {
    h in store ==> !store[h].Unreadable?
  }

  /** Replaces what `p` names below `r` by `sub` and writes the rebuilt ancestors. */
  function Graft(hash: seq<Entry> -> Hash, store: Store, r: Hash, p: Path, sub: Hash): (Store, Hash)
    decreases p
  {
    if p == [] then (store, sub)
    else if !IsTree(store, r) || ChildDir(store[r].entries, p[0]).None? then (store, r)
    else
      var es := store[r].entries;
      var i := EntryIndex(es, p[0]);
      if i == |es| then (store, r)
      else
        var (grown, child) := Graft(hash, store, es[i].hash, p[1..], sub);
        var rebuilt := es[i := es[i].(hash := child)];
        (Put(grown, hash(rebuilt), rebuilt), hash(rebuilt))
  }

  function GraftAll(hash: seq<Entry> -> Hash, store: Store, root: Hash, list: seq<(Path, Hash)>): (Store, Hash) {
    if list == [] then (store, root)
    else
      var (grown, r) := GraftAll(hash, store, root, list[..|list| - 1]);
      Graft(hash, grown, r, list[|list| - 1].0, list[|list| - 1].1)
  }

  /** Inside one store, `r2` is `r` with exactly the object at `p` replaced by `sub`. */
  ghost predicate Grafted(store: Store, r: Hash, r2: Hash, p: Path, sub: Hash)
    decreases p
  {
    if p == [] then r2 == sub
    else
      && IsTree(store, r) && IsTree(store, r2)
      && exists i :: 0 <= i < |store[r].entries| && GraftedAt(store, r, r2, p, sub, i)
  }

  ghost predicate GraftedAt(store: Store, r: Hash, r2: Hash, p: Path, sub: Hash, i: nat)
    requires p != [] && IsTree(store, r) && IsTree(store, r2) && i < |store[r].entries|
    decreases p, 0
  {
    var es, fs := store[r].entries, store[r2].entries;
    && es[i].name == p[0] && es[i].kind.Dir?
    && |fs| == |es| && fs == es[i := es[i].(hash := fs[i].hash)]
    && Grafted(store, es[i].hash, fs[i].hash, p[1..], sub)
  }

  lemma {:induction false} GraftedExtends(store: Store, more: Store, r: Hash, r2: Hash, p: Path, sub: Hash)
    requires Extends(store, more) && Grafted(store, r, r2, p, sub)
    ensures Grafted(more, r, r2, p, sub)
    decreases p
  {
    if p != [] {
      var i :| 0 <= i < |store[r].entries| && GraftedAt(store, r, r2, p, sub, i);
      GraftedExtends(store, more, store[r].entries[i].hash, store[r2].entries[i].hash, p[1..], sub);
      assert GraftedAt(more, r, r2, p, sub, i);
    }
  }

  /** The larger store holds more trees and nothing else. */
  ghost predicate Adds(store: Store, more: Store) {
    Extends(store, more) && forall h :: h in more && h !in store ==> IsTree(more, h)
  }

  /** Writing one tree keeps the store content-addressed and everything it already held. */
  lemma PutTree(hash: seq<Entry> -> Hash, store: Store, es: seq<Entry>)
    requires IdealHash(hash) && Decoded(store) && ContentAddressed(store, hash) && DecodedEntries(es)
    ensures var more := Put(store, hash(es), es);
            && Adds(store, more) && Decoded(more) && ContentAddressed(more, hash)
            && hash(es) in more && more[hash(es)] == if Writable(store, hash(es)) then Tree(es) else Unreadable
  {
  }

  lemma {:induction false} EntryIndexFinds(es: seq<Entry>, name: Name)
    requires DecodedEntries(es) && ChildDir(es, name).Some?
    ensures var i := EntryIndex(es, name);
            i < |es| && es[i].name == name && es[i].kind.Dir? && ChildDir(es, name) == Some(es[i].hash)
  {
    var k := ChildDirFrom(es, name);
    assert EntryIndex(es, name) == k;
  }

  /** The graft at a tree that lists the path's first name: below the entry, then the tree itself. */
  lemma GraftUnfolds(hash: seq<Entry> -> Hash, store: Store, r: Hash, p: Path, sub: Hash)
    requires Decoded(store) && p != [] && IsTree(store, r) && ChildDir(store[r].entries, p[0]).Some?
    ensures var es := store[r].entries;
            var i := EntryIndex(es, p[0]);
            && i < |es| && es[i].name == p[0] && es[i].kind.Dir? && ChildDir(es, p[0]) == Some(es[i].hash)
            && var (grown, child) := Graft(hash, store, es[i].hash, p[1..], sub);
               var rebuilt := es[i := es[i].(hash := child)];
               Graft(hash, store, r, p, sub) == (Put(grown, hash(rebuilt), rebuilt), hash(rebuilt))
  {
    EntryIndexFinds(store[r].entries, p[0]);
  }

  /** A graft only adds trees. */
  lemma {:induction false} GraftGrows(hash: seq<Entry> -> Hash, store: Store, r: Hash, p: Path, sub: Hash)
    requires IdealHash(hash) && Decoded(store) && ContentAddressed(store, hash) && r != "" && sub != ""
    ensures var (grown, r2) := Graft(hash, store, r, p, sub);
            Adds(store, grown) && Decoded(grown) && ContentAddressed(grown, hash) && r2 != ""
    decreases p
  {
    if p != [] && IsTree(store, r) && ChildDir(store[r].entries, p[0]).Some? {
      GraftUnfolds(hash, store, r, p, sub);
      var es := store[r].entries;
      var i := EntryIndex(es, p[0]);
      GraftGrows(hash, store, es[i].hash, p[1..], sub);
      var (grown, child) := Graft(hash, store, es[i].hash, p[1..], sub);
      RebuiltDecodes(es, i, child);
      PutTree(hash, grown, es[i := es[i].(hash := child)]);
      AddsMore(store, grown, Graft(hash, store, r, p, sub).0);
    }
  }

  lemma AddsMore(store: Store, more: Store, most: Store)
    requires Adds(store, more) && Adds(more, most)
    ensures Adds(store, most)
  {
  }

  lemma RebuiltDecodes(es: seq<Entry>, i: nat, child: Hash)
    requires DecodedEntries(es) && i < |es| && child != ""
    ensures DecodedEntries(es[i := es[i].(hash := child)])
  {
  }

  lemma RebuiltGrafted(hash: seq<Entry> -> Hash, grown: Store, r: Hash, i: nat, child: Hash, p: Path, sub: Hash)
    requires IdealHash(hash) && ContentAddressed(grown, hash) && p != []
    requires IsTree(grown, r) && i < |grown[r].entries|
    requires grown[r].entries[i].name == p[0] && grown[r].entries[i].kind.Dir?
    requires Grafted(grown, grown[r].entries[i].hash, child, p[1..], sub)
    ensures var rebuilt := grown[r].entries[i := grown[r].entries[i].(hash := child)];
            Writable(grown, hash(rebuilt)) ==> Grafted(Put(grown, hash(rebuilt), rebuilt), r, hash(rebuilt), p, sub)
  {
    var es := grown[r].entries;
    var rebuilt := es[i := es[i].(hash := child)];
    var more := Put(grown, hash(rebuilt), rebuilt);
    assert Extends(grown, more);
    GraftedExtends(grown, more, es[i].hash, child, p[1..], sub);
    if Writable(grown, hash(rebuilt)) {
      assert GraftedAt(more, r, hash(rebuilt), p, sub, i);
    }
  }

  /** What a graft writes: the rebuilt version of every tree on the way down to the path. */
  ghost predicate OnSpine(hash: seq<Entry> -> Hash, store: Store, r: Hash, p: Path, sub: Hash, h: Hash) {
    exists k: nat :: k < |p| && SpineHash(hash, store, r, p, sub, k) == Some(h)
  }

  /** The new id of the tree at the first `k` names of `p`. */
  function SpineHash(hash: seq<Entry> -> Hash, store: Store, r: Hash, p: Path, sub: Hash, k: nat): Option<Hash>
    requires k <= |p|
  {
    match Resolve(store, r, p[..k])
    case Some(c) => Some(Graft(hash, store, c, p[k..], sub).1)
    case None => None
  }

  lemma SpineBelow(hash: seq<Entry> -> Hash, store: Store, r: Hash, p: Path, sub: Hash, k: nat)
    requires p != [] && IsTree(store, r) && ChildDir(store[r].entries, p[0]).Some? && k < |p|
    ensures SpineHash(hash, store, r, p, sub, k + 1)
         == SpineHash(hash, store, ChildDir(store[r].entries, p[0]).value, p[1..], sub, k)
  {
    assert p[..k + 1][1..] == p[1..][..k] && p[k + 1..] == p[1..][k..];
  }

  /** Every rebuilt tree can be written, or is there already. */
  ghost predicate SpineWritable(hash: seq<Entry> -> Hash, store: Store, r: Hash, p: Path, sub: Hash) {
    forall h :: OnSpine(hash, store, r, p, sub, h) ==> Writable(store, h)
  }

  /** The first rebuilt tree is the new root, the others are those of the graft one level below. */
  lemma SpineUnfolds(hash: seq<Entry> -> Hash, store: Store, r: Hash, p: Path, sub: Hash, h: Hash)
    requires p != [] && IsTree(store, r) && ChildDir(store[r].entries, p[0]).Some?
    ensures OnSpine(hash, store, r, p, sub, h) <==>
            || h == Graft(hash, store, r, p, sub).1
            || OnSpine(hash, store, ChildDir(store[r].entries, p[0]).value, p[1..], sub, h)
  {
    var c := ChildDir(store[r].entries, p[0]).value;
    assert p[..0] == [] && p[0..] == p;
    assert SpineHash(hash, store, r, p, sub, 0) == Some(Graft(hash, store, r, p, sub).1);
    if k: nat :| k < |p[1..]| && SpineHash(hash, store, c, p[1..], sub, k) == Some(h) {
      SpineBelow(hash, store, r, p, sub, k);
      assert SpineHash(hash, store, r, p, sub, k + 1) == Some(h);
    }
    if k: nat :| k < |p| && SpineHash(hash, store, r, p, sub, k) == Some(h) {
      if k > 0 {
        SpineBelow(hash, store, r, p, sub, k - 1);
        assert SpineHash(hash, store, c, p[1..], sub, k - 1) == Some(h);
      }
    }
  }

  /** A graft writes those trees and nothing else. */
  lemma {:induction false} GraftKeys(hash: seq<Entry> -> Hash, store: Store, r: Hash, p: Path, sub: Hash, h: Hash)
    requires Decoded(store) && Resolve(store, r, p).Some?
    ensures h in Graft(hash, store, r, p, sub).0 <==> h in store || OnSpine(hash, store, r, p, sub, h)
    decreases p
  {
    if p != [] {
      GraftUnfolds(hash, store, r, p, sub);
      GraftKeys(hash, store, ChildDir(store[r].entries, p[0]).value, p[1..], sub, h);
      SpineUnfolds(hash, store, r, p, sub, h);
    }
  }

  lemma {:induction false} GraftReplaces(hash: seq<Entry> -> Hash, store: Store, r: Hash, p: Path, sub: Hash)
    requires IdealHash(hash) && Decoded(store) && ContentAddressed(store, hash) && r != "" && sub != ""
    requires Resolve(store, r, p).Some? && SpineWritable(hash, store, r, p, sub)
    ensures var (grown, r2) := Graft(hash, store, r, p, sub); Grafted(grown, r, r2, p, sub)
    decreases p
  {
    if p != [] {
      GraftUnfolds(hash, store, r, p, sub);
      var es := store[r].entries;
      var i := EntryIndex(es, p[0]);
      var (grown, child) := Graft(hash, store, es[i].hash, p[1..], sub);
      forall h {
        SpineUnfolds(hash, store, r, p, sub, h);
      }
      GraftReplaces(hash, store, es[i].hash, p[1..], sub);
      GraftGrows(hash, store, es[i].hash, p[1..], sub);
      assert OnSpine(hash, store, r, p, sub, Graft(hash, store, r, p, sub).1);
      RebuiltGrafted(hash, grown, r, i, child, p, sub);
    }
  }

  /** On the way down `p` there is an object that cannot be fetched. */
  predicate Stuck(store: Store, r: Hash, p: Path)
    decreases p
  {
    p != [] && r in store &&
    match store[r]
    case Unreadable => true
    case NonTree => false
    case Tree(es) => ChildDir(es, p[0]).Some? && Stuck(store, ChildDir(es, p[0]).value, p[1..])
  }

  lemma {:induction false} StuckExtends(store: Store, more: Store, r: Hash, p: Path)
    requires Extends(store, more) && Stuck(store, r, p)
    ensures Stuck(more, r, p) && Resolve(more, r, p).None?
    decreases p
  {
    if store[r].Tree? {
      StuckExtends(store, more, ChildDir(store[r].entries, p[0]).value, p[1..]);
    }
  }

  /** A rebuilt tree is stuck where its new child is, or right away. */
  lemma StuckAbove(hash: seq<Entry> -> Hash, grown: Store, es: seq<Entry>, i: nat, child: Hash, p: Path)
    requires IdealHash(hash) && Decoded(grown) && ContentAddressed(grown, hash) && DecodedEntries(es)
    requires p != [] && i < |es| && es[i].name == p[0] && es[i].kind.Dir? && child != ""
    requires var h := hash(es[i := es[i].(hash := child)]); !Writable(grown, h) || Stuck(grown, child, p[1..])
    ensures var rebuilt := es[i := es[i].(hash := child)];
            Stuck(Put(grown, hash(rebuilt), rebuilt), hash(rebuilt), p)
  {
    var rebuilt := es[i := es[i].(hash := child)];
    var more := Put(grown, hash(rebuilt), rebuilt);
    RebuiltDecodes(es, i, child);
    PutTree(hash, grown, rebuilt);
    ChildDirIs(rebuilt, i);
    if Stuck(grown, child, p[1..]) {
      StuckExtends(grown, more, child, p[1..]);
    }
  }

  /** If a rebuilt tree has the id of an object that cannot be fetched, the new path ends there. */
  lemma {:induction false} GraftSticks(hash: seq<Entry> -> Hash, store: Store, r: Hash, p: Path, sub: Hash)
    requires IdealHash(hash) && Decoded(store) && ContentAddressed(store, hash) && r != "" && sub != ""
    requires Resolve(store, r, p).Some? && !SpineWritable(hash, store, r, p, sub)
    ensures var (grown, r2) := Graft(hash, store, r, p, sub); Stuck(grown, r2, p)
    decreases p
  {
    GraftUnfolds(hash, store, r, p, sub);
    var es := store[r].entries;
    var i := EntryIndex(es, p[0]);
    var (grown, child) := Graft(hash, store, es[i].hash, p[1..], sub);
    GraftGrows(hash, store, es[i].hash, p[1..], sub);
    var h :| OnSpine(hash, store, r, p, sub, h) && !Writable(store, h);
    SpineUnfolds(hash, store, r, p, sub, h);
    if OnSpine(hash, store, es[i].hash, p[1..], sub, h) {
      GraftSticks(hash, store, es[i].hash, p[1..], sub);
    }
    StuckAbove(hash, grown, es, i, child, p);
  }

  lemma {:induction false} GraftedResolves(store: Store, r: Hash, r2: Hash, p: Path, sub: Hash)
    requires Decoded(store) && Grafted(store, r, r2, p, sub)
    ensures Resolve(store, r2, p) == Some(sub)
    decreases p
  {
    if p != [] {
      var i :| 0 <= i < |store[r].entries| && GraftedAt(store, r, r2, p, sub, i);
      ChildDirIs(store[r2].entries, i);
      GraftedResolves(store, store[r].entries[i].hash, store[r2].entries[i].hash, p[1..], sub);
    }
  }

  /** A graft only adds trees. It replaces exactly what a resolving path names, unless one of the rebuilt
      trees has the id of a stored object that cannot be fetched; then the new path ends in that object. */
  lemma GraftWrites(hash: seq<Entry> -> Hash, store: Store, r: Hash, p: Path, sub: Hash)
    requires IdealHash(hash) && Decoded(store) && ContentAddressed(store, hash) && r != "" && sub != ""
    ensures var (grown, r2) := Graft(hash, store, r, p, sub);
            && Adds(store, grown) && Decoded(grown) && ContentAddressed(grown, hash) && r2 != ""
            && (Resolve(store, r, p).Some? ==>
                  && (SpineWritable(hash, store, r, p, sub) <==> Grafted(grown, r, r2, p, sub))
                  && (SpineWritable(hash, store, r, p, sub) <==> Resolve(grown, r2, p) == Some(sub))
                  && (SpineWritable(hash, store, r, p, sub) <==> !Stuck(grown, r2, p)))
  {
    var (grown, r2) := Graft(hash, store, r, p, sub);
    GraftGrows(hash, store, r, p, sub);
    if Stuck(grown, r2, p) {
      StuckExtends(grown, grown, r2, p);
    }
    if Grafted(grown, r, r2, p, sub) {
      GraftedResolves(grown, r, r2, p, sub);
    }
    if Resolve(store, r, p).Some? {
      if SpineWritable(hash, store, r, p, sub) {
        GraftReplaces(hash, store, r, p, sub);
      } else {
        GraftSticks(hash, store, r, p, sub);
      }
    }
  }

  predicate Comparable(p: Path, q: Path) {
    p <= q || q <= p
  }

  /** A later graft elsewhere does not free a path that is stuck. */
  lemma {:induction false} StaysStuck(hash: seq<Entry> -> Hash, store: Store, r: Hash, p: Path, q: Path, sub: Hash)
    requires IdealHash(hash) && Decoded(store) && ContentAddressed(store, hash) && r != "" && sub != ""
    requires Stuck(store, r, p) && !Comparable(p, q)
    ensures var (grown, r2) := Graft(hash, store, r, q, sub); Stuck(grown, r2, p)
    decreases q
  {
    if IsTree(store, r) && ChildDir(store[r].entries, q[0]).Some? {
      GraftUnfolds(hash, store, r, q, sub);
      var es := store[r].entries;
      var i := EntryIndex(es, q[0]);
      var (grown, child) := Graft(hash, store, es[i].hash, q[1..], sub);
      GraftGrows(hash, store, es[i].hash, q[1..], sub);
      if p[0] == q[0] {
        StaysStuck(hash, store, es[i].hash, p[1..], q[1..], sub);
        StuckAbove(hash, grown, es, i, child, p);
      } else {
        StuckBeside(hash, store, grown, es, i, child, p);
      }
    }
  }

  lemma StuckBeside(hash: seq<Entry> -> Hash, store: Store, grown: Store, es: seq<Entry>, i: nat, child: Hash, p: Path)
    requires IdealHash(hash) && Decoded(grown) && ContentAddressed(grown, hash) && DecodedEntries(es)
    requires Extends(store, grown) && p != [] && i < |es| && es[i].name != p[0] && child != ""
    requires ChildDir(es, p[0]).Some? && Stuck(store, ChildDir(es, p[0]).value, p[1..])
    ensures var rebuilt := es[i := es[i].(hash := child)];
            Stuck(Put(grown, hash(rebuilt), rebuilt), hash(rebuilt), p)
  {
    var rebuilt := es[i := es[i].(hash := child)];
    var more := Put(grown, hash(rebuilt), rebuilt);
    RebuiltDecodes(es, i, child);
    PutTree(hash, grown, rebuilt);
    var j := ChildDirFrom(es, p[0]);
    ChildDirIs(rebuilt, j);
    StuckExtends(store, more, es[j].hash, p[1..]);
  }

  // ---- All replacements at once --------------------------------------------------------------

  type Replacements = map<Path, Hash>

  ghost predicate NoneComparable(reps: Replacements, p: Path) {
    forall q :: q in reps ==> !Comparable(q, p)
  }

  /** Some replaced path is at `at` or below it. */
  ghost predicate Touches(reps: Replacements, at: Path) {
    exists p :: p in reps && at <= p
  }

  ghost function Height(store: Store, rank: Hash -> nat, h: Hash): nat {
    if h in store then rank(h) + 1 else 0
  }

  /** `r2` is what `r`, found at `at`, becomes when every path of `reps` is replaced and nothing else. */
  ghost predicate Spliced(store: Store, rank: Hash -> nat, r: Hash, r2: Hash, reps: Replacements, at: Path)
    requires Acyclic(store, rank)
    decreases Height(store, rank, r), 2
  {
    if at in reps then r2 == reps[at]
    else if !Touches(reps, at) then r2 == r
    else
      && IsTree(store, r) && IsTree(store, r2) && |store[r2].entries| == |store[r].entries|
      && SplicedTrees(store, rank, r, r2, reps, at)
  }

  ghost predicate SplicedTrees(store: Store, rank: Hash -> nat, r: Hash, r2: Hash, reps: Replacements, at: Path)
    requires Acyclic(store, rank)
    requires IsTree(store, r) && IsTree(store, r2) && |store[r].entries| == |store[r2].entries|
    decreases Height(store, rank, r), 1
  {
    forall i :: 0 <= i < |store[r].entries| ==> SplicedEntry(store, rank, r, r2, reps, at, i)
  }

  ghost predicate SplicedEntry(store: Store, rank: Hash -> nat, r: Hash, r2: Hash, reps: Replacements, at: Path, i: nat)
    requires Acyclic(store, rank)
    requires IsTree(store, r) && IsTree(store, r2) && i < |store[r].entries| == |store[r2].entries|
    decreases Height(store, rank, r), 0
  {
    var e, f := store[r].entries[i], store[r2].entries[i];
    && f == e.(hash := f.hash)
    && if e.kind.Dir? then Spliced(store, rank, e.hash, f.hash, reps, at + [e.name]) else f.hash == e.hash
  }

  /** A replacement that is neither at `at` nor below it does not matter there. */
  lemma {:induction false} SplicedFrame(store: Store, rank: Hash -> nat, r: Hash, r2: Hash, reps: Replacements,
                                        at: Path, p: Path, sub: Hash)
    requires Acyclic(store, rank) && Spliced(store, rank, r, r2, reps, at) && !(at <= p)
    ensures Spliced(store, rank, r, r2, reps[p := sub], at)
    decreases Height(store, rank, r)
  {
    var more := reps[p := sub];
    TouchesFrame(reps, at, p, sub);
    assert at <= at && at != p;
    if at !in reps && Touches(reps, at) {
      forall i | 0 <= i < |store[r].entries| ensures SplicedEntry(store, rank, r, r2, more, at, i) {
        assert SplicedEntry(store, rank, r, r2, reps, at, i);
        var e, f := store[r].entries[i], store[r2].entries[i];
        if e.kind.Dir? {
          SplicedFrame(store, rank, e.hash, f.hash, reps, at + [e.name], p, sub);
        }
      }
    }
  }

  /** Being spliced is a matter of the trees involved, not of the store around them. */
  lemma {:induction false} SplicedExtends(store: Store, more: Store, rank: Hash -> nat, r: Hash, r2: Hash,
                                          reps: Replacements, at: Path)
    requires Acyclic(store, rank) && Acyclic(more, rank) && Extends(store, more)
    requires Spliced(store, rank, r, r2, reps, at)
    ensures Spliced(more, rank, r, r2, reps, at)
    decreases Height(store, rank, r)
  {
    if at !in reps && Touches(reps, at) {
      forall i | 0 <= i < |store[r].entries| ensures SplicedEntry(more, rank, r, r2, reps, at, i) {
        assert SplicedEntry(store, rank, r, r2, reps, at, i);
        if store[r].entries[i].kind.Dir? {
          SplicedExtends(store, more, rank, store[r].entries[i].hash, store[r2].entries[i].hash, reps,
                         at + [store[r].entries[i].name]);
        }
      }
    }
  }

  /** One more graft, at a path comparable to none of the earlier ones, is one more replacement. */
  lemma {:induction false} SplicedStep(store: Store, rank: Hash -> nat, r: Hash, r1: Hash, r2: Hash,
                                       reps: Replacements, at: Path, p: Path, sub: Hash)
    requires WellFormed(store, rank)
    requires Spliced(store, rank, r, r1, reps, at) && Grafted(store, r1, r2, p, sub)
    requires NoneComparable(reps, at + p)
    ensures Spliced(store, rank, r, r2, reps[at + p := sub], at)
    decreases p
  {
    var more := reps[at + p := sub];
    if p == [] {
      assert at + p == at;
    } else {
      assert at < at + p && at !in reps && at !in more;
      assert at + p in more && Touches(more, at);
      var k :| 0 <= k < |store[r1].entries| && GraftedAt(store, r1, r2, p, sub, k);
      assert at + p == (at + [p[0]]) + p[1..];
      forall i | 0 <= i < |store[r].entries| ensures SplicedEntry(store, rank, r, r2, more, at, i) {
        ChildSpliced(store, rank, r, r1, reps, at, i);
        var e, f := store[r].entries[i], store[r1].entries[i];
        if i == k {
          SplicedStep(store, rank, e.hash, f.hash, store[r2].entries[i].hash, reps, at + [e.name], p[1..], sub);
        } else if e.kind.Dir? {
          assert e.name != p[0] && (at + p)[|at|] == p[0];
          SplicedFrame(store, rank, e.hash, f.hash, reps, at + [e.name], at + p, sub);
        }
      }
    }
  }

  /** The same as a spliced entry, also where nothing below `at` is replaced. */
  ghost predicate SplicedChild(store: Store, rank: Hash -> nat, r: Hash, r1: Hash, reps: Replacements, at: Path, i: nat)
    requires Acyclic(store, rank)
    requires IsTree(store, r) && i < |store[r].entries|
  {
    && IsTree(store, r1) && |store[r1].entries| == |store[r].entries|
    && SplicedEntry(store, rank, r, r1, reps, at, i)
  }

  lemma ChildSpliced(store: Store, rank: Hash -> nat, r: Hash, r1: Hash, reps: Replacements, at: Path, i: nat)
    requires Acyclic(store, rank) && Spliced(store, rank, r, r1, reps, at) && at !in reps
    requires IsTree(store, r) && i < |store[r].entries|
    ensures SplicedChild(store, rank, r, r1, reps, at, i)
  {
    if Touches(reps, at) {
      assert SplicedEntry(store, rank, r, r1, reps, at, i);
    } else {
      var child := at + [store[r].entries[i].name];
      assert !Touches(reps, child);
      assert child <= child && child !in reps;
    }
  }

  // ---- What paths mean afterwards --------------------------------------------------------------

  /** Down to `q` with no replacement strictly above it, the old and the new tree go in step. */
  lemma {:induction false} SplicedDescend(store: Store, rank: Hash -> nat, r: Hash, r2: Hash, reps: Replacements,
                                          at: Path, q: Path)
    requires WellFormed(store, rank) && Spliced(store, rank, r, r2, reps, at)
    requires Resolve(store, r, q).Some?
    requires forall p :: p in reps && at <= p ==> !(p < at + q)
    ensures Resolve(store, r2, q).Some?
    ensures Spliced(store, rank, Resolve(store, r, q).value, Resolve(store, r2, q).value, reps, at + q)
    decreases q
  {
    if q == [] {
      assert at + q == at;
    } else {
      assert at < at + q && at !in reps;
      if Touches(reps, at) {
        var i := ChildDirFrom(store[r].entries, q[0]);
        assert SplicedEntry(store, rank, r, r2, reps, at, i);
        ChildDirIs(store[r2].entries, i);
        assert at + q == (at + [q[0]]) + q[1..];
        SplicedDescend(store, rank, store[r].entries[i].hash, store[r2].entries[i].hash, reps, at + [q[0]], q[1..]);
      } else {
        assert !Touches(reps, at + q);
      }
    }
  }

  lemma {:induction false} SameNamesSameChild(es: seq<Entry>, fs: seq<Entry>, name: Name)
    requires |es| == |fs| && forall i :: 0 <= i < |es| ==> fs[i].name == es[i].name && fs[i].kind == es[i].kind
    requires DecodedEntries(es) && DecodedEntries(fs)
    ensures ChildDir(es, name).None? <==> ChildDir(fs, name).None?
  {
    if ChildDir(es, name).Some? {
      var i := ChildDirFrom(es, name);
      ChildDirIs(fs, i);
    }
    if ChildDir(fs, name).Some? {
      var i := ChildDirFrom(fs, name);
      ChildDirIs(es, i);
    }
  }

  /** A path comparable to no replaced path resolves as before. */
  lemma {:induction false} SplicedClear(store: Store, rank: Hash -> nat, r: Hash, r2: Hash, reps: Replacements,
                                        at: Path, q: Path)
    requires WellFormed(store, rank) && Spliced(store, rank, r, r2, reps, at)
    requires forall p :: p in reps ==> !Comparable(p, at + q)
    ensures Resolve(store, r2, q) == Resolve(store, r, q)
    decreases q
  {
    assert at <= at + q && at !in reps;
    if q == [] {
      assert at + q == at && !Touches(reps, at);
    } else if Touches(reps, at) {
      var es, fs := store[r].entries, store[r2].entries;
      forall i | 0 <= i < |es| ensures fs[i].name == es[i].name && fs[i].kind == es[i].kind {
        assert SplicedEntry(store, rank, r, r2, reps, at, i);
      }
      SameNamesSameChild(es, fs, q[0]);
      if ChildDir(es, q[0]).Some? {
        var i := ChildDirFrom(es, q[0]);
        assert SplicedEntry(store, rank, r, r2, reps, at, i);
        ChildDirIs(fs, i);
        assert at + q == (at + [q[0]]) + q[1..];
        SplicedClear(store, rank, es[i].hash, fs[i].hash, reps, at + [q[0]], q[1..]);
      }
    }
  }

  // ---- The new root, computed from the old store -----------------------------------------------

  /** The id of what `r`, found at `at`, becomes when every path of `reps` is replaced. It depends only on
      the store as it was, so it is known before anything is written. */
  ghost function Rehash(hash: seq<Entry> -> Hash, store: Store, rank: Hash -> nat, r: Hash, reps: Replacements,
                        at: Path): Hash
    requires Acyclic(store, rank)
    decreases Height(store, rank, r), 1
  {
    if at in reps then reps[at]
    else if !Touches(reps, at) || !IsTree(store, r) then r
    else hash(seq(|store[r].entries|, i requires 0 <= i < |store[r].entries| =>
      RehashEntry(hash, store, rank, r, reps, at, i)))
  }

  ghost function RehashEntry(hash: seq<Entry> -> Hash, store: Store, rank: Hash -> nat, r: Hash, reps: Replacements,
                             at: Path, i: nat): Entry
    requires Acyclic(store, rank) && IsTree(store, r) && i < |store[r].entries|
    decreases Height(store, rank, r), 0
  {
    var e := store[r].entries[i];
    if e.kind.Dir? then e.(hash := Rehash(hash, store, rank, e.hash, reps, at + [e.name])) else e
  }

  /** Every replaced path below `at` is recorded in the store below `r`. */
  ghost predicate Recorded(store: Store, r: Hash, reps: Replacements, at: Path) {
    forall p :: p in reps && at <= p ==> Resolve(store, r, p[|at|..]).Some?
  }

  lemma RecordedBelow(store: Store, r: Hash, reps: Replacements, at: Path, i: nat)
    requires Decoded(store) && Recorded(store, r, reps, at) && IsTree(store, r) && i < |store[r].entries|
    requires store[r].entries[i].kind.Dir?
    ensures Recorded(store, store[r].entries[i].hash, reps, at + [store[r].entries[i].name])
  {
    var e := store[r].entries[i];
    ChildDirIs(store[r].entries, i);
    forall p | p in reps && at + [e.name] <= p ensures Resolve(store, e.hash, p[|at| + 1..]).Some? {
      assert at <= p by {
        assert p[..|at|] == at;
      }
      assert p[|at|..][0] == e.name && p[|at|..][1..] == p[|at| + 1..];
    }
  }

  lemma ProperPrefix(at: Path, p: Path)
    requires at <= p && at != p
    ensures p[|at|..] != []
  {
  }

  /** The root that grafting leads to is the computed one. */
  lemma {:induction false} SplicedIsRehash(hash: seq<Entry> -> Hash, store: Store, finished: Store, rank: Hash -> nat,
                                           r: Hash, r2: Hash, reps: Replacements, at: Path)
    requires WellFormed(store, rank) && Acyclic(finished, rank) && ContentAddressed(finished, hash)
    requires Extends(store, finished) && Spliced(finished, rank, r, r2, reps, at) && Recorded(store, r, reps, at)
    ensures r2 == Rehash(hash, store, rank, r, reps, at)
    decreases Height(finished, rank, r)
  {
    if at !in reps && Touches(reps, at) {
      var p :| p in reps && at <= p;
      ProperPrefix(at, p);
      assert IsTree(store, r);
      var es := store[r].entries;
      forall i | 0 <= i < |es|
        ensures finished[r2].entries[i] == RehashEntry(hash, store, rank, r, reps, at, i)
      {
        assert SplicedEntry(finished, rank, r, r2, reps, at, i);
        if es[i].kind.Dir? {
          RecordedBelow(store, r, reps, at, i);
          SplicedIsRehash(hash, store, finished, rank, es[i].hash, finished[r2].entries[i].hash, reps,
                          at + [es[i].name]);
        }
      }
      assert finished[r2].entries == seq(|es|, i requires 0 <= i < |es| =>
        RehashEntry(hash, store, rank, r, reps, at, i));
    }
  }

  /** A replacement that is neither at `at` nor below it does not matter there. */
  lemma {:induction false} RehashFrame(hash: seq<Entry> -> Hash, store: Store, rank: Hash -> nat, r: Hash,
                                       reps: Replacements, at: Path, p: Path, sub: Hash)
    requires Acyclic(store, rank) && !(at <= p)
    ensures Rehash(hash, store, rank, r, reps[p := sub], at) == Rehash(hash, store, rank, r, reps, at)
    decreases Height(store, rank, r)
  {
    var more := reps[p := sub];
    assert at <= at && at != p;
    TouchesFrame(reps, at, p, sub);
    if at !in reps && Touches(reps, at) && IsTree(store, r) {
      var es := store[r].entries;
      forall i | 0 <= i < |es|
        ensures RehashEntry(hash, store, rank, r, more, at, i) == RehashEntry(hash, store, rank, r, reps, at, i)
      {
        if es[i].kind.Dir? {
          RehashFrame(hash, store, rank, es[i].hash, reps, at + [es[i].name], p, sub);
        }
      }
      assert seq(|es|, i requires 0 <= i < |es| => RehashEntry(hash, store, rank, r, more, at, i))
          == seq(|es|, i requires 0 <= i < |es| => RehashEntry(hash, store, rank, r, reps, at, i));
    }
  }

  lemma TouchesFrame(reps: Replacements, at: Path, p: Path, sub: Hash)
    requires !(at <= p)
    ensures Touches(reps[p := sub], at) <==> Touches(reps, at)
  {
    var more := reps[p := sub];
    if q :| q in more && at <= q {
      assert q in reps;
    }
    if q :| q in reps && at <= q {
      assert q in more;
    }
  }

  /** `c` in the old store and `c1`, in which `reps` are already replaced, both resolve `p`. */
  ghost predicate InStep(hash: seq<Entry> -> Hash, store: Store, before: Store, rank: Hash -> nat,
                         c: Hash, c1: Hash, reps: Replacements, at: Path, p: Path) {
    && WellFormed(store, rank) && WellFormed(before, rank) && ContentAddressed(before, hash)
    && Extends(store, before) && Spliced(before, rank, c, c1, reps, at) && Recorded(store, c, reps, at)
    && Resolve(store, c, p).Some? && Resolve(before, c1, p).Some?
    && NoneComparable(reps, at + p)
  }

  lemma InStepBelow(hash: seq<Entry> -> Hash, store: Store, before: Store, rank: Hash -> nat,
                    c: Hash, c1: Hash, reps: Replacements, at: Path, p: Path)
    returns (k: nat)
    requires InStep(hash, store, before, rank, c, c1, reps, at, p) && p != []
    ensures IsTree(store, c) && IsTree(before, c1) && k < |store[c].entries| == |before[c1].entries| && at !in reps
    ensures k == EntryIndex(before[c1].entries, p[0])
    ensures var e, f := store[c].entries[k], before[c1].entries[k];
            && e.name == f.name == p[0] && e.kind.Dir? && f == e.(hash := f.hash)
            && InStep(hash, store, before, rank, e.hash, f.hash, reps, at + [p[0]], p[1..])
  {
    k := EntryIndex(before[c1].entries, p[0]);
    EntryIndexFinds(before[c1].entries, p[0]);
    assert at <= at + p && at !in reps;
    ChildSpliced(before, rank, c, c1, reps, at, 0);
    ChildSpliced(before, rank, c, c1, reps, at, k);
    RecordedBelow(store, c, reps, at, k);
    ChildDirIs(store[c].entries, k);
    assert at + p == (at + [p[0]]) + p[1..];
  }

  /** Where a graft leads to, from trees in which `reps` are already replaced: the id computed from the old
      store for one more replacement. Nothing is said about what can be written. */
  lemma {:induction false} GraftRehash(hash: seq<Entry> -> Hash, store: Store, before: Store, rank: Hash -> nat,
                                       c: Hash, c1: Hash, reps: Replacements, at: Path, p: Path, sub: Hash)
    requires InStep(hash, store, before, rank, c, c1, reps, at, p)
    ensures Graft(hash, before, c1, p, sub).1 == Rehash(hash, store, rank, c, reps[at + p := sub], at)
    decreases p
  {
    if p == [] {
      assert at + p == at;
    } else {
      var k := InStepBelow(hash, store, before, rank, c, c1, reps, at, p);
      GraftUnfolds(hash, before, c1, p, sub);
      assert at + p == (at + [p[0]]) + p[1..];
      GraftRehash(hash, store, before, rank, store[c].entries[k].hash, before[c1].entries[k].hash, reps,
                  at + [p[0]], p[1..], sub);
      RebuiltRehash(hash, store, before, rank, c, c1, reps, at, p, sub, k,
                    Graft(hash, before, before[c1].entries[k].hash, p[1..], sub).1);
    }
  }

  lemma RehashIs(hash: seq<Entry> -> Hash, store: Store, rank: Hash -> nat, c: Hash, reps: Replacements, at: Path,
                 rebuilt: seq<Entry>)
    requires Acyclic(store, rank) && IsTree(store, c) && at !in reps && Touches(reps, at)
    requires |rebuilt| == |store[c].entries|
    requires forall i :: 0 <= i < |rebuilt| ==> rebuilt[i] == RehashEntry(hash, store, rank, c, reps, at, i)
    ensures hash(rebuilt) == Rehash(hash, store, rank, c, reps, at)
  {
    assert rebuilt == seq(|store[c].entries|, i requires 0 <= i < |store[c].entries| =>
      RehashEntry(hash, store, rank, c, reps, at, i));
  }

  lemma OtherNames(es: seq<Entry>, k: nat)
    requires DecodedEntries(es) && k < |es|
    ensures forall i :: 0 <= i < |es| && i != k ==> es[i].name != es[k].name
  {
  }

  /** With the child on the way down computed, the rebuilt tree is the computed one. */
  lemma RebuiltRehash(hash: seq<Entry> -> Hash, store: Store, before: Store, rank: Hash -> nat, c: Hash, c1: Hash,
                      reps: Replacements, at: Path, p: Path, sub: Hash, k: nat, child: Hash)
    requires InStep(hash, store, before, rank, c, c1, reps, at, p) && at !in reps && p != []
    requires IsTree(store, c) && IsTree(before, c1) && k < |store[c].entries| == |before[c1].entries|
    requires store[c].entries[k].name == p[0] && store[c].entries[k].kind.Dir?
    requires before[c1].entries[k] == store[c].entries[k].(hash := before[c1].entries[k].hash)
    requires child == Rehash(hash, store, rank, store[c].entries[k].hash, reps[at + p := sub], at + [p[0]])
    ensures var fs := before[c1].entries;
            hash(fs[k := fs[k].(hash := child)]) == Rehash(hash, store, rank, c, reps[at + p := sub], at)
  {
    var more := reps[at + p := sub];
    var es, fs := store[c].entries, before[c1].entries;
    var rebuilt := fs[k := fs[k].(hash := child)];
    OtherNames(es, k);
    forall i | 0 <= i < |es| ensures rebuilt[i] == RehashEntry(hash, store, rank, c, more, at, i) {
      if i != k {
        ChildSpliced(before, rank, c, c1, reps, at, i);
        SiblingRehash(hash, store, before, rank, c, c1, reps, at, p, sub, i);
      }
    }
    assert at <= at + p && at + p in more;
    RehashIs(hash, store, rank, c, more, at, rebuilt);
  }

  /** An entry beside the way down stays what it was spliced to. */
  lemma SiblingRehash(hash: seq<Entry> -> Hash, store: Store, before: Store, rank: Hash -> nat, c: Hash, c1: Hash,
                      reps: Replacements, at: Path, p: Path, sub: Hash, i: nat)
    requires WellFormed(store, rank) && WellFormed(before, rank) && ContentAddressed(before, hash)
    requires Extends(store, before) && IsTree(store, c) && i < |store[c].entries| && p != []
    requires SplicedChild(before, rank, c, c1, reps, at, i) && Recorded(store, c, reps, at)
    requires store[c].entries[i].name != p[0]
    ensures IsTree(before, c1) && i < |before[c1].entries|
    ensures before[c1].entries[i] == RehashEntry(hash, store, rank, c, reps[at + p := sub], at, i)
  {
    var e, f := store[c].entries[i], before[c1].entries[i];
    if e.kind.Dir? {
      RecordedBelow(store, c, reps, at, i);
      assert (at + p)[|at|] == p[0];
      SplicedIsRehash(hash, store, before, rank, e.hash, f.hash, reps, at + [e.name]);
      RehashFrame(hash, store, rank, e.hash, reps, at + [e.name], at + p, sub);
    }
  }
}
