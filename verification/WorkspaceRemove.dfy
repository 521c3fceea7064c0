/** Removing a workspace entry with everything below it, within a limit shared by the whole recursion. */
module WorkspaceRemove {
  import opened Text

  const MAX_ENTRIES := 10000
  const MAX_PATH_BYTES := 4096

  type Name = string
  type Path = seq<Name>

  /** A symbolic link is listed and removed, never followed, so it counts as `Other`. */
  datatype Kind = Directory | Other
  type Files = map<Path, Kind>

  datatype Error = InvalidPath | NotFound | NotADirectory | LimitExceeded
  datatype Result<+T> = Ok(value: T) | Err(error: Error)

  // ---- Workspace paths -----------------------------------------------------------------------

  function Utf8Length(s: string): nat {
    if s == "" then 0
    else Utf8Length(s[1..]) +
         if s[0] < '\U{80}' then 1 else if s[0] < '\U{800}' then 2 else if s[0] < '\U{10000}' then 3 else 4
  }

  predicate ValidName(name: Name) {
    name != "" && name != "." && name != ".." && name != ".git"
  }

  predicate ValidText(path: string) {
    Utf8Length(path) <= MAX_PATH_BYTES && '\\' !in path && '\0' !in path
  }

  predicate ValidNames(names: Path) {
    forall i :: 0 <= i < |names| ==> ValidName(names[i])
  }

  predicate SlashFree(names: Path) {
    forall i :: 0 <= i < |names| ==> '/' !in names[i]
  }

  function SplitPath(path: string): Path {
    if path == "" then [] else Split(path, '/')
  }

  function Parts(path: string): Result<Path> {
    if ValidText(path) && ValidNames(SplitPath(path)) then Ok(SplitPath(path)) else Err(InvalidPath)
  }

  lemma SplitPathJoins(path: string)
    ensures Join(SplitPath(path), '/') == path && SlashFree(SplitPath(path))
  {
    if path != "" {
      JoinSplit(path, '/');
      SplitParts(path, '/');
    }
  }

  lemma JoinSplitsPath(names: Path)
    requires ValidNames(names) && SlashFree(names)
    ensures SplitPath(Join(names, '/')) == names
  {
    if names != [] {
      SplitJoin(names, '/');
      assert ValidName(names[0]);
    }
  }

  /** Accepted paths are exactly the joined lists of plain names: nothing climbs, nothing is ambiguous. */
  lemma PartsIff(path: string, names: Path)
    ensures Parts(path) == Ok(names)
       <==> ValidText(path) && path == Join(names, '/') && ValidNames(names) && SlashFree(names)
  {
    SplitPathJoins(path);
    if ValidNames(names) && SlashFree(names) {
      JoinSplitsPath(names);
    }
  }

  /** The same by segments: at most 4096 bytes, no backslash and no NUL, and, unless the path is empty, no
      segment that is empty, a dot, two dots or `.git`. */
  lemma PartsSpelled(path: string)
    ensures Parts(path).Ok? <==>
            && Utf8Length(path) <= 4096 && '\\' !in path && '\0' !in path
            && (path == "" || forall i :: 0 <= i < |Split(path, '/')| ==>
                  Split(path, '/')[i] !in {"", ".", "..", ".git"})
    ensures Parts(path).Ok? ==> Parts(path).value == if path == "" then [] else Split(path, '/')
    ensures Parts(path).Err? ==> Parts(path) == Err(InvalidPath)
  {
  }

  /** The length in UTF-8 is the sum over the characters, from one to four bytes each. */
  lemma {:induction false} Utf8Adds(a: string, b: string)
    ensures Utf8Length(a + b) == Utf8Length(a) + Utf8Length(b)
  {
    if a == "" {
      assert a + b == b;
    } else {
      assert (a + b)[1..] == a[1..] + b;
      Utf8Adds(a[1..], b);
    }
  }

  lemma Utf8One(c: char)
    ensures Utf8Length([c]) == if c < '\U{80}' then 1 else if c < '\U{800}' then 2 else if c < '\U{10000}' then 3 else 4
    ensures Utf8Length("") == 0
  {
    assert [c][1..] == "";
  }

  // ---- Trees of entries ------------------------------------------------------------------------

  /** Every entry sits in a present directory; the workspace root itself is not an entry. */
  ghost predicate WellFormed(fs: Files) {
    forall p :: p in fs ==> |p| > 0 && (|p| > 1 ==> IsDirectory(fs, p[..|p| - 1]))
  }

  predicate IsDirectory(fs: Files, p: Path) {
    p == [] || (p in fs && fs[p] == Directory)
  }

  /** The entry and everything below it. */
  function Subtree(fs: Files, path: Path): set<Path> {
    set p | p in fs && path <= p
  }

  /** What a directory listing returns. */
  function Children(fs: Files, path: Path): set<Name> {
    set p | p in fs && |p| == |path| + 1 && path <= p :: p[|path|]
  }

  /** The entries below `path` whose branch is no longer among `pending`. */
  function Cleared(fs: Files, path: Path, pending: set<Name>): set<Path> {
    set p | p in fs && path < p && p[|path|] !in pending
  }

  lemma {:induction false} AncestorsPresent(fs: Files, p: Path, k: nat)
    requires WellFormed(fs) && p in fs && k < |p|
    ensures IsDirectory(fs, p[..k])
    decreases |p| - k
  {
    if k < |p| - 1 {
      AncestorsPresent(fs, p, k + 1);
      assert p[..k + 1][..k] == p[..k];
    }
  }

  /** The first `i` names lead to a directory in which the next one is absent. */
  predicate AbsentAt(fs: Files, names: Path, i: nat) {
    i < |names| && IsDirectory(fs, names[..i]) && names[..i + 1] !in fs
  }

  /** The first `i` names lead to an entry that is not a directory. */
  predicate FileAt(fs: Files, names: Path, i: nat) {
    0 < i <= |names| && names[..i] in fs && fs[names[..i]] == Other
  }

  lemma PrefixPresent(fs: Files, names: Path, i: nat, j: nat)
    requires WellFormed(fs) && j < i <= |names| && names[..i] in fs
    ensures IsDirectory(fs, names[..j])
  {
    AncestorsPresent(fs, names[..i], j);
    assert names[..i][..j] == names[..j];
  }

  lemma AbsentExcludesFile(fs: Files, names: Path, i: nat)
    requires WellFormed(fs) && AbsentAt(fs, names, i)
    ensures forall j: nat :: !FileAt(fs, names, j)
  {
    forall j: nat ensures !FileAt(fs, names, j) {
      if FileAt(fs, names, j) {
        if j < i {
          assert IsDirectory(fs, names[..i]);
          PrefixPresent(fs, names, i, j);
        } else if i + 1 < j {
          PrefixPresent(fs, names, j, i + 1);
        }
      }
    }
  }

  lemma FilesAbove(fs: Files, names: Path, above: Path)
    requires names != [] && above == names[..|names| - 1]
    ensures (exists i: nat :: FileAt(fs, above, i)) <==> exists i: nat :: i < |names| && FileAt(fs, names, i)
  {
    forall i: nat ensures FileAt(fs, above, i) <==> i < |names| && FileAt(fs, names, i) {
      if i <= |above| {
        assert above[..i] == names[..i];
      }
    }
  }

  lemma DirectoryExcludesFile(fs: Files, names: Path)
    requires WellFormed(fs) && IsDirectory(fs, names)
    ensures forall j: nat :: !FileAt(fs, names, j)
  {
    assert names[..|names|] == names;
    forall j: nat ensures !FileAt(fs, names, j) {
      if FileAt(fs, names, j) && j < |names| {
        PrefixPresent(fs, names, |names|, j);
      }
    }
  }

  /** Cutting any set of entries leaves a well-formed tree when whatever is below a cut entry is cut too. */
  lemma CutWellFormed(fs: Files, cut: set<Path>)
    requires WellFormed(fs)
    requires forall p :: p in fs && |p| > 1 && p[..|p| - 1] in cut ==> p in cut
    ensures WellFormed(fs - cut)
  {
    forall p | p in fs - cut && |p| > 1 ensures IsDirectory(fs - cut, p[..|p| - 1]) {
      assert IsDirectory(fs, p[..|p| - 1]);
    }
  }

  lemma PrefixStep(path: Path, p: Path)
    requires path < p
    ensures path + [p[|path|]] <= p && path <= p[..|p| - 1]
  {
  }

  /** At the start of the loop nothing is cleared; at its end only the entry itself is left. */
  lemma ClearedEnds(fs: Files, path: Path)
    requires WellFormed(fs) && path in fs
    ensures Cleared(fs, path, Children(fs, path)) == {}
    ensures Cleared(fs, path, {}) == Subtree(fs, path) - {path}
    ensures |Subtree(fs, path)| == 1 + |Cleared(fs, path, {})|
  {
    forall p | p in fs && path < p ensures p[|path|] in Children(fs, path) {
      var child := p[..|path| + 1];
      if child != p {
        AncestorsPresent(fs, p, |path| + 1);
      }
      assert child in fs && path <= child && child[|path|] == p[|path|];
    }
    assert forall p :: p in Subtree(fs, path) && p != path ==> path < p;
    assert Subtree(fs, path) == Cleared(fs, path, {}) + {path};
  }

  lemma ClearedWhole(fs: Files, path: Path)
    requires WellFormed(fs) && path in fs
    ensures WellFormed(fs - Subtree(fs, path))
    ensures Cleared(fs, path, {}) + {path} == Subtree(fs, path)
  {
    ClearedEnds(fs, path);
    forall p | p in fs && |p| > 1 && path <= p[..|p| - 1] ensures path <= p {
      assert path == p[..|p| - 1][..|path|];
    }
    CutWellFormed(fs, Subtree(fs, path));
  }

  /** Clearing one more branch adds exactly that child's subtree. */
  lemma ClearedStep(fs: Files, path: Path, pending: set<Name>, name: Name)
    requires name in pending
    ensures Cleared(fs, path, pending - {name}) == Cleared(fs, path, pending) + Subtree(fs, path + [name])
    ensures Cleared(fs, path, pending) !! Subtree(fs, path + [name])
    ensures |Cleared(fs, path, pending - {name})| == |Cleared(fs, path, pending)| + |Subtree(fs, path + [name])|
  {
    var child := path + [name];
    forall p ensures p in Subtree(fs, child) <==> p in fs && path < p && p[|path|] == name {
      if p in fs && path < p && p[|path|] == name {
        PrefixStep(path, p);
      } else if child <= p {
        assert p[..|path|] == path;
      }
    }
  }

  lemma NothingBelowFile(fs: Files, path: Path)
    requires WellFormed(fs) && path in fs && fs[path] == Other
    ensures Cleared(fs, path, {}) == {}
  {
    forall p | p in fs ensures !(path < p) {
      if path < p {
        assert p[..|path|] == path;
        AncestorsPresent(fs, p, |path|);
      }
    }
  }

  lemma ChildPresent(fs: Files, path: Path, pending: set<Name>, name: Name)
    requires name in pending && name in Children(fs, path)
    ensures path + [name] in fs - Cleared(fs, path, pending)
  {
    var p :| p in fs && |p| == |path| + 1 && path <= p && p[|path|] == name;
    assert p == path + [name];
  }

  lemma ClearedWithin(fs: Files, path: Path, pending: set<Name>)
    ensures Cleared(fs, path, pending) <= Subtree(fs, path) - {path}
  {
  }

  /** What is left when the limit stops the removal of `path`: only entries strictly below it are gone,
      and fewer than the limit allowed. */
  ghost predicate Stopped(before: Files, after: Files, path: Path, budget: int) {
    var gone := before.Keys - after.Keys;
    && after == before - gone
    && gone <= Subtree(before, path) - {path}
    && (gone == {} || |gone| < budget)
    && WellFormed(after)
  }

  /** Nothing is added or changed, and what is gone was strictly below the path. */
  lemma StoppedSpelled(before: Files, after: Files, path: Path, budget: int)
    requires Stopped(before, after, path, budget)
    ensures forall p :: p in after ==> p in before && after[p] == before[p]
    ensures forall p :: p in before && p !in after ==> path < p
  {
    var gone := before.Keys - after.Keys;
    CutOnly(before, gone, after);
    assert gone <= Subtree(before, path) - {path};
    forall p | p in before && p !in after ensures path < p {
      assert p in gone && p in Subtree(before, path) && p != path;
    }
  }

  lemma CutOnly<K, V>(before: map<K, V>, gone: set<K>, after: map<K, V>)
    requires after == before - gone
    ensures forall p :: p in after ==> p in before && after[p] == before[p]
  {
  }

  lemma CutTwice<K, V>(before: map<K, V>, first: set<K>, second: set<K>)
    ensures before - first - second == before - (first + second)
  {
    var a, b := before - first - second, before - (first + second);
    assert a.Keys == b.Keys;
  }

  lemma CutKeys<K, V>(before: map<K, V>, gone: set<K>)
    requires gone <= before.Keys
    ensures before.Keys - (before - gone).Keys == gone
  {
    assert (before - gone).Keys == before.Keys - gone;
  }

  lemma StoppedGrows(before: Files, middle: Files, after: Files, path: Path, pending: set<Name>, name: Name,
                     budget: int)
    requires name in pending
    requires middle == before - Cleared(before, path, pending)
    requires Stopped(middle, after, path + [name], budget - 1 - |Cleared(before, path, pending)|)
    requires 0 <= budget - 1 - |Cleared(before, path, pending)|
    ensures Stopped(before, after, path, budget)
  {
    var cleared := Cleared(before, path, pending);
    var more := middle.Keys - after.Keys;
    CutTwice(before, cleared, more);
    CutKeys(before, cleared + more);
    CutSize(cleared, more);
    ClearedWithin(before, path, pending);
    ChildWithin(before, path, name);
    SubtreeShrinks(before, cleared, path + [name]);
  }

  lemma CutSize<K>(first: set<K>, second: set<K>)
    requires first !! second
    ensures |first + second| == |first| + |second|
  {
  }

  lemma ChildWithin(fs: Files, path: Path, name: Name)
    ensures Subtree(fs, path + [name]) <= Subtree(fs, path) - {path}
  {
    forall p | p in Subtree(fs, path + [name]) ensures path <= p && p != path {
      assert path == p[..|path|];
    }
  }

  lemma SubtreeShrinks(fs: Files, cut: set<Path>, path: Path)
    ensures Subtree(fs - cut, path) <= Subtree(fs, path)
  {
  }

  lemma SmallerThanWhole(before: Files, path: Path, pending: set<Name>, name: Name)
    requires WellFormed(before) && path in before && name in pending
    ensures var middle := before - Cleared(before, path, pending);
            && Subtree(middle, path + [name]) == Subtree(before, path + [name])
            && 1 + |Cleared(before, path, pending)| + |Subtree(before, path + [name])| <= |Subtree(before, path)|
  {
    ClearedStep(before, path, pending, name);
    ClearedWithin(before, path, pending - {name});
    var some := Cleared(before, path, pending - {name}) + {path};
    assert some <= Subtree(before, path);
    SubsetSize(some, Subtree(before, path));
    var middle := before - Cleared(before, path, pending);
    assert Subtree(middle, path + [name]) == Subtree(before, path + [name]);
  }

  /** A pending child is present, smaller than its parent, and counts in full towards the parent. */
  lemma ChildFits(before: Files, middle: Files, path: Path, pending: set<Name>, name: Name)
    requires WellFormed(before) && path in before && name in pending && pending <= Children(before, path)
    requires middle == before - Cleared(before, path, pending)
    ensures path in middle && path + [name] in middle
    ensures |Subtree(middle, path + [name])| < |Subtree(before, path)|
    ensures |Cleared(before, path, pending)| + |Subtree(middle, path + [name])| <= |Cleared(before, path, {})|
  {
    SmallerThanWhole(before, path, pending, name);
    ChildPresent(before, path, pending, name);
    ClearedEnds(before, path);
  }

  /** After it is gone, one more branch is cleared. */
  lemma ChildCleared(before: Files, middle: Files, after: Files, path: Path, pending: set<Name>, name: Name)
    requires WellFormed(before) && path in before && name in pending
    requires middle == before - Cleared(before, path, pending)
    requires after == middle - Subtree(middle, path + [name])
    ensures after == before - Cleared(before, path, pending - {name})
    ensures |Cleared(before, path, pending - {name})|
         == |Cleared(before, path, pending)| + |Subtree(middle, path + [name])|
  {
    SmallerThanWhole(before, path, pending, name);
    ClearedStep(before, path, pending, name);
    CutTwice(before, Cleared(before, path, pending), Subtree(before, path + [name]));
  }

  lemma {:induction false} SubsetSize<T>(a: set<T>, b: set<T>)
    requires a <= b
    ensures |a| <= |b|
  {
    if a != {} {
      var x :| x in a;
      SubsetSize(a - {x}, b - {x});
    }
  }

  /** Part of the way through the children of `path`, with what is left of a budget of `start`. */
  ghost predicate Midway(before: Files, fs: Files, path: Path, pending: set<Name>, start: int, left: int) {
    && WellFormed(before) && path in before && WellFormed(fs) && pending <= Children(before, path)
    && fs == before - Cleared(before, path, pending)
    && left == start - |Cleared(before, path, pending)| >= 0
  }

  class Workspace {
    var fs: Files

    constructor (fs: Files)
      ensures this.fs == fs
    {
      this.fs := fs;
    }

    /** `budget` is a single cell shared by the whole recursion. Removal succeeds iff the subtree fits
        the budget, and then removes exactly it. */
    method Remove(path: Path, budget: array<int>) returns (r: Result<()>)
      requires WellFormed(fs) && budget.Length == 1
      modifies this, budget
      ensures WellFormed(fs)
      ensures r.Ok? <==> path in old(fs) && |Subtree(old(fs), path)| <= old(budget[0])
      ensures r.Ok? ==>
                && fs == old(fs) - Subtree(old(fs), path)
                && budget[0] == old(budget[0]) - |Subtree(old(fs), path)|
      ensures r.Err? && path in old(fs) ==>
                r == Err(LimitExceeded) && path in fs && Stopped(old(fs), fs, path, old(budget[0])) && budget[0] < 0
      ensures path !in old(fs) ==>
                && fs == old(fs) && budget[0] == old(budget[0]) - 1
                && r == Err(if old(budget[0]) > 0 then NotFound else LimitExceeded)
      decreases |Subtree(fs, path)|, 2
    {
      budget[0] := budget[0] - 1;
      if path in fs {
        ClearedEnds(fs, path);
      }
      if budget[0] < 0 {
        return Err(LimitExceeded);
      }
      if path !in fs {
        return Err(NotFound);
      }
      ghost var before := fs;
      if fs[path] == Directory {
        r := RemoveChildren(path, budget);
        if r.Err? {
          return;
        }
      } else {
        NothingBelowFile(fs, path);
        r := Ok(());
      }
      fs := fs - {path};
      CutTwice(before, Cleared(before, path, {}), {path});
      ClearedWhole(before, path);
    }

    /** The loop over a directory's children, which may come in any order. */
    method RemoveChildren(path: Path, budget: array<int>) returns (r: Result<()>)
      requires WellFormed(fs) && budget.Length == 1 && path in fs && budget[0] >= 0
      modifies this, budget
      ensures WellFormed(fs)
      ensures r.Ok? <==> |Cleared(old(fs), path, {})| <= old(budget[0])
      ensures r.Ok? ==>
                && fs == old(fs) - Cleared(old(fs), path, {})
                && budget[0] == old(budget[0]) - |Cleared(old(fs), path, {})|
      ensures r.Err? ==>
                r == Err(LimitExceeded) && path in fs && Stopped(old(fs), fs, path, old(budget[0]) + 1) && budget[0] < 0
      decreases |Subtree(fs, path)|, 1
    {
      ghost var before := fs;
      var pending := Children(fs, path);
      ClearedEnds(fs, path);
      while pending != {}
        invariant Midway(before, fs, path, pending, old(budget[0]), budget[0])
        decreases |pending|
      {
        var name :| name in pending;
        r := RemoveChild(path, name, budget, before, pending, old(budget[0]));
        if r.Err? {
          return;
        }
        pending := pending - {name};
      }
      r := Ok(());
    }

    /** One turn of that loop. */
    method RemoveChild(path: Path, name: Name, budget: array<int>, ghost before: Files, ghost pending: set<Name>,
                       ghost start: int)
      returns (r: Result<()>)
      requires budget.Length == 1 && name in pending && Midway(before, fs, path, pending, start, budget[0])
      modifies this, budget
      ensures WellFormed(fs)
      ensures r.Ok? ==> Midway(before, fs, path, pending - {name}, start, budget[0])
      ensures r.Err? ==>
                && r == Err(LimitExceeded) && path in fs && Stopped(before, fs, path, start + 1) && budget[0] < 0
                && |Cleared(before, path, {})| > start
      decreases |Subtree(before, path)|, 0
    {
      ghost var middle := fs;
      ChildFits(before, middle, path, pending, name);
      r := Remove(path + [name], budget);
      if r.Err? {
        StoppedGrows(before, middle, fs, path, pending, name, start + 1);
      } else {
        ChildCleared(before, middle, fs, path, pending, name);
      }
    }

    /** Opening one directory after the other finds exactly the present directories. */
    method OpenDirectory(names: Path) returns (r: Result<()>)
      requires WellFormed(fs)
      ensures r.Ok? <==> IsDirectory(fs, names)
      ensures r == Err(NotFound) ==> names !in fs
      ensures r.Ok? || r == Err(NotFound) || r == Err(NotADirectory)
      ensures r == Err(NotFound) ==> exists i: nat :: AbsentAt(fs, names, i)
      ensures r == Err(NotADirectory) <==> exists i: nat :: FileAt(fs, names, i)
    {
      for i := 0 to |names|
        invariant IsDirectory(fs, names[..i])
      {
        var next := names[..i + 1];
        assert names[..|names|] == names;
        if next !in fs {
          if names in fs && i + 1 < |names| {
            AncestorsPresent(fs, names, i + 1);
          }
          assert AbsentAt(fs, names, i);
          AbsentExcludesFile(fs, names, i);
          return Err(NotFound);
        }
        if fs[next] != Directory {
          if names in fs && i + 1 < |names| {
            AncestorsPresent(fs, names, i + 1);
          }
          assert FileAt(fs, names, i + 1);
          return Err(NotADirectory);
        }
      }
      assert names[..|names|] == names;
      DirectoryExcludesFile(fs, names);
      return Ok(());
    }

    /** The remove request: it succeeds iff the path names a present entry whose subtree has at most
        `MAX_ENTRIES` entries, and nothing outside that subtree ever changes. */
    method ExecuteRemove(path: string) returns (r: Result<()>)
      requires WellFormed(fs)
      modifies this
      ensures WellFormed(fs)
      ensures var names := SplitPath(path);
              && (r.Ok? <==> Parts(path).Ok? && names in old(fs) && |Subtree(old(fs), names)| <= MAX_ENTRIES)
              && (r.Ok? ==> fs == old(fs) - Subtree(old(fs), names))
              && (r.Err? ==> fs == old(fs) || (r == Err(LimitExceeded) && Stopped(old(fs), fs, names, MAX_ENTRIES)))
      ensures var names := SplitPath(path);
              && (r == Err(InvalidPath) <==> Parts(path).Err? || names == [])
              && (r == Err(LimitExceeded) <==>
                  Parts(path).Ok? && names in old(fs) && |set p | p in old(fs) && names <= p| > 10000)
              && (r == Err(NotADirectory) <==>
                  Parts(path).Ok? && exists i: nat :: i < |names| && FileAt(old(fs), names, i))
              && (forall p :: p in fs ==> p in old(fs) && fs[p] == old(fs)[p])
              && (r.Ok? ==> forall p :: p in old(fs) ==> (p !in fs <==> names <= p))
              && (r.Err? ==> forall p :: p in old(fs) && p !in fs ==> names < p)
    {
      var parts := Parts(path);
      if parts.Err? {
        return Err(parts.error);
      }
      var names := parts.value;
      if names == [] {
        return Err(InvalidPath);
      }
      FilesAbove(fs, names, names[..|names| - 1]);
      var parent := OpenDirectory(names[..|names| - 1]);
      if parent.Err? {
        return parent;
      }
      var budget := new int[1];
      budget[0] := MAX_ENTRIES;
      ghost var before := fs;
      r := Remove(names, budget);
      if r.Err? && names in before {
        StoppedSpelled(before, fs, names, MAX_ENTRIES);
      }
    }
  }
}
