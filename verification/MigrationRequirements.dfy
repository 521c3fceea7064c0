/** Selecting a migration runner's pinned requirements from a lock file. */
module MigrationRequirements {
  import opened Text

  const SEEDS := ["pydantic", "pyyaml"]
  const PINNED := map["registry" := "https://pypi.org/simple"]

  datatype Distribution = Distribution(hash: Option<string>)

  datatype Package = Package(
    source: Option<map<string, string>>,
    version: Option<string>,
    sdist: Option<Distribution>,
    wheels: seq<Distribution>,
    dependencies: seq<string>)

  /** The lock file by package name. */
  type Lock = map<string, Package>

  datatype Error = KeyError | ValueError
  datatype Result<+T> = Ok(value: T) | Err(error: Error)

  /** Later entries replace earlier ones of the same name. */
  function ByName(items: seq<(string, Package)>): Lock {
    if items == [] then map[]
    else ByName(items[..|items| - 1])[items[|items| - 1].0 := items[|items| - 1].1]
  }

  // ---- Reachability ----------------------------------------------------------------------------

  /** A dependency chain that starts at a seed. */
  ghost predicate Chain(lock: Lock, path: seq<string>) {
    && path != [] && path[0] in SEEDS
    && forall i :: 0 <= i < |path| - 1 ==> DependsOn(lock, path[i], path[i + 1])
  }

  predicate DependsOn(lock: Lock, name: string, dependency: string) {
    name in lock && dependency in lock[name].dependencies
  }

  ghost predicate Reached(lock: Lock, name: string) {
    exists path :: Chain(lock, path) && path[|path| - 1] == name
  }

  predicate Selectable(lock: Lock, name: string) {
    name in lock && lock[name].source == Some(PINNED)
  }

  lemma SeedReached(lock: Lock, name: string)
    requires name in SEEDS
    ensures Reached(lock, name)
  {
    assert Chain(lock, [name]) && [name][|[name]| - 1] == name;
  }

  lemma DependencyReached(lock: Lock, name: string, dependency: string)
    requires Reached(lock, name) && DependsOn(lock, name, dependency)
    ensures Reached(lock, dependency)
  {
    var path :| Chain(lock, path) && path[|path| - 1] == name;
    var longer := path + [dependency];
    forall i | 0 <= i < |longer| - 1 ensures DependsOn(lock, longer[i], longer[i + 1]) {
      if i < |path| - 1 {
        assert DependsOn(lock, path[i], path[i + 1]);
      }
    }
    assert Chain(lock, longer) && longer[|longer| - 1] == dependency;
  }

  ghost predicate Closed(lock: Lock, selected: set<string>) {
    && (forall s :: s in SEEDS ==> s in selected)
    && forall name, d :: name in selected && DependsOn(lock, name, d) ==> d in selected
  }

  lemma {:induction false} ChainStaysInside(lock: Lock, selected: set<string>, path: seq<string>, k: nat)
    requires Closed(lock, selected) && Chain(lock, path) && k < |path|
    ensures path[k] in selected
  {
    if k > 0 {
      ChainStaysInside(lock, selected, path, k - 1);
      assert DependsOn(lock, path[k - 1], path[k - 1 + 1]);
    }
  }

  /** A set that holds the seeds and every dependency of its members holds everything reachable. */
  lemma ClosedHoldsReached(lock: Lock, selected: set<string>, name: string)
    requires Closed(lock, selected) && Reached(lock, name)
    ensures name in selected
  {
    var path :| Chain(lock, path) && path[|path| - 1] == name;
    ChainStaysInside(lock, selected, path, |path| - 1);
  }

  // ---- Selection ---------------------------------------------------------------------------------

  /** Between iterations: whatever is still to come is reachable, and nothing needed is forgotten. */
  ghost predicate Progress(lock: Lock, pending: seq<string>, selected: set<string>) {
    && (forall name :: name in selected ==> Selectable(lock, name) && Reached(lock, name))
    && (forall name :: name in pending ==> Reached(lock, name))
    && (forall s :: s in SEEDS ==> s in selected || s in pending)
    && forall name, d :: name in selected && DependsOn(lock, name, d) ==> d in selected || d in pending
  }

  lemma ProgressSkips(lock: Lock, pending: seq<string>, selected: set<string>)
    requires pending != [] && Progress(lock, pending, selected) && pending[|pending| - 1] in selected
    ensures Progress(lock, pending[..|pending| - 1], selected)
  {
    var rest := pending[..|pending| - 1];
    assert forall x :: x in pending ==> x in rest || x == pending[|pending| - 1];
  }

  lemma ProgressSelects(lock: Lock, pending: seq<string>, selected: set<string>)
    requires pending != [] && Progress(lock, pending, selected) && Selectable(lock, pending[|pending| - 1])
    ensures var name := pending[|pending| - 1];
            Progress(lock, pending[..|pending| - 1] + lock[name].dependencies, selected + {name})
  {
    var name := pending[|pending| - 1];
    var rest := pending[..|pending| - 1];
    var more := lock[name].dependencies;
    assert forall x :: x in pending ==> x in rest || x == name;
    forall d | d in more ensures Reached(lock, d) {
      DependencyReached(lock, name, d);
    }
  }

  /** Selects exactly the reachable packages, in spite of cycles and whatever the order of dependencies;
      fails iff some reachable package is absent or not from the pinned registry. */
  method Select(lock: Lock) returns (r: Result<set<string>>)
    ensures r.Ok? <==> forall name :: Reached(lock, name) ==> Selectable(lock, name)
    ensures r.Ok? ==> forall name :: name in r.value <==> Reached(lock, name)
    ensures r == Err(KeyError) ==> exists name :: Reached(lock, name) && name !in lock
    ensures r == Err(ValueError) ==> exists name :: Reached(lock, name) && name in lock && !Selectable(lock, name)
  {
    var pending, selected: set<string> := SEEDS, {};
    forall s | s in SEEDS ensures Reached(lock, s) {
      SeedReached(lock, s);
    }
    while pending != []
      invariant Progress(lock, pending, selected)
      decreases lock.Keys - selected, |pending|
    {
      var name := pending[|pending| - 1];
      if name in selected {
        ProgressSkips(lock, pending, selected);
        pending := pending[..|pending| - 1];
        continue;
      }
      assert Reached(lock, name);
      if name !in lock {
        return Err(KeyError);
      }
      if lock[name].source != Some(PINNED) {
        return Err(ValueError);
      }
      ProgressSelects(lock, pending, selected);
      assert name in lock.Keys - selected;
      pending, selected := pending[..|pending| - 1] + lock[name].dependencies, selected + {name};
    }
    assert Closed(lock, selected);
    forall name | Reached(lock, name) ensures name in selected {
      ClosedHoldsReached(lock, selected, name);
    }
    r := Ok(selected);
  }

  // ---- Sorting -------------------------------------------------------------------------------------

  /** Strings compare character by character. */
  predicate Less(a: string, b: string) {
    b != "" && (a == "" || a[0] < b[0] || (a[0] == b[0] && Less(a[1..], b[1..])))
  }

  lemma {:induction false} LessTransitive(a: string, b: string, c: string)
    requires Less(a, b) && Less(b, c)
    ensures Less(a, c)
  {
    if a != "" && a[0] == b[0] && b[0] == c[0] {
      LessTransitive(a[1..], b[1..], c[1..]);
    }
  }

  lemma {:induction false} LessTotal(a: string, b: string)
    ensures a == b || Less(a, b) || Less(b, a)
    ensures !(Less(a, b) && Less(b, a)) && !Less(a, a)
  {
    if a != "" && b != "" {
      LessTotal(a[1..], b[1..]);
      LessTotal(a[1..], a[1..]);
      assert a == [a[0]] + a[1..] && b == [b[0]] + b[1..];
    } else if a != "" {
      LessTotal(a[1..], a[1..]);
    }
  }

  ghost predicate Ascending(s: seq<string>) {
    forall i, j :: 0 <= i < j < |s| ==> Less(s[i], s[j])
  }

  /** `r` lists the elements of `s`, each once, in order. */
  ghost predicate Sorts(r: seq<string>, s: set<string>) {
    Ascending(r) && forall x :: x in r <==> x in s
  }

  /** There is only one way to list a set in order. */
  lemma {:induction false} SortsUnique(a: seq<string>, b: seq<string>, s: set<string>)
    requires Sorts(a, s) && Sorts(b, s)
    ensures a == b
    decreases |a|
  {
    FirstInside(b, s);
    if a != [] {
      assert a[0] in b;
      FirstIsLeast(a, s, b[0]);
      FirstIsLeast(b, s, a[0]);
      LessTotal(a[0], b[0]);
      SortsRest(a, s);
      SortsRest(b, s);
      SortsUnique(a[1..], b[1..], s - {a[0]});
      assert a == [a[0]] + a[1..] && b == [b[0]] + b[1..];
    }
  }

  lemma FirstInside(b: seq<string>, s: set<string>)
    requires Sorts(b, s)
    ensures b != [] ==> b[0] in s
  {
  }

  lemma FirstIsLeast(a: seq<string>, s: set<string>, x: string)
    requires a != [] && Sorts(a, s) && x in s
    ensures x == a[0] || Less(a[0], x)
  {
    var k :| 0 <= k < |a| && a[k] == x;
  }

  lemma SortsRest(a: seq<string>, s: set<string>)
    requires a != [] && Sorts(a, s)
    ensures Sorts(a[1..], s - {a[0]})
  {
    forall x | x in a[1..] ensures x in s && x != a[0] {
      var k :| 0 <= k < |a[1..]| && a[1..][k] == x;
      assert a[k + 1] == x;
      LessTotal(a[0], x);
    }
  }

  /** The place before which `x` belongs. */
  method Place(r: seq<string>, x: string) returns (k: nat)
    requires Ascending(r) && x !in r
    ensures k <= |r|
    ensures (forall i :: 0 <= i < k ==> Less(r[i], x)) && forall i :: k <= i < |r| ==> Less(x, r[i])
  {
    k := 0;
    while k < |r| && Less(r[k], x)
      invariant k <= |r| && forall i :: 0 <= i < k ==> Less(r[i], x)
    {
      k := k + 1;
    }
    if k < |r| {
      LessTotal(r[k], x);
      forall i | k <= i < |r| ensures Less(x, r[i]) {
        if i > k {
          LessTransitive(x, r[k], r[i]);
        }
      }
    }
  }

  /** `sorted(s)`. */
  method Sort(s: set<string>) returns (r: seq<string>)
    ensures Sorts(r, s)
  {
    r := [];
    var left := s;
    while left != {}
      invariant left <= s && Sorts(r, s - left)
      decreases |left|
    {
      var x :| x in left;
      var k := Place(r, x);
      InsertSorts(r, s - left, x, k);
      r := r[..k] + [x] + r[k..];
      left := left - {x};
      assert s - left == s - (left + {x}) + {x};
    }
  }

  lemma InsertSorts(r: seq<string>, s: set<string>, x: string, k: nat)
    requires Sorts(r, s) && x !in s && k <= |r|
    requires (forall i :: 0 <= i < k ==> Less(r[i], x)) && forall i :: k <= i < |r| ==> Less(x, r[i])
    ensures Sorts(r[..k] + [x] + r[k..], s + {x})
  {
    var t := r[..k] + [x] + r[k..];
    forall y ensures y in t <==> y in r || y == x {
      if y in r {
        var i :| 0 <= i < |r| && r[i] == y;
        assert t[if i < k then i else i + 1] == y;
      }
      if y == x {
        assert t[k] == x;
      }
    }
  }

  // ---- The requirements file -----------------------------------------------------------------------

  predicate Complete(p: Package) {
    && p.version.Some? && p.sdist.Some? && p.sdist.value.hash.Some?
    && forall i :: 0 <= i < |p.wheels| ==> p.wheels[i].hash.Some?
  }

  predicate Usable(lock: Lock, name: string) {
    Selectable(lock, name) && Complete(lock[name])
  }

  ghost predicate AllUsable(lock: Lock) {
    forall name :: Reached(lock, name) ==> Usable(lock, name)
  }

  ghost predicate SomeUnpinned(lock: Lock) {
    exists name :: Reached(lock, name) && name in lock && !Selectable(lock, name)
  }

  /** Some reachable package is absent, or lacks its version or a hash. */
  ghost predicate SomeLacking(lock: Lock) {
    exists name :: Reached(lock, name) && (name !in lock || !Complete(lock[name]))
  }

  /** All hashes of a package, of its source distribution and its wheels. */
  function Hashes(p: Package): set<string>
    requires Complete(p)
  {
    {p.sdist.value.hash.value} + set i | 0 <= i < |p.wheels| :: p.wheels[i].hash.value
  }

  function Flags(hashes: seq<string>): seq<string> {
    seq(|hashes|, i requires 0 <= i < |hashes| => "--hash=" + hashes[i])
  }

  function Line(name: string, version: string, hashes: seq<string>): string {
    name + "==" + version + " " + Join(Flags(hashes), ' ')
  }

  /** The line of one package: its name, version and every hash once, in order. */
  ghost predicate IsLineOf(lock: Lock, name: string, line: string) {
    && name in lock && Complete(lock[name])
    && exists hashes :: Sorts(hashes, Hashes(lock[name])) && line == Line(name, lock[name].version.value, hashes)
  }

  ghost predicate ListsReached(lock: Lock, names: seq<string>) {
    Ascending(names) && forall name :: name in names <==> Reached(lock, name)
  }

  ghost predicate AreLines(lock: Lock, names: seq<string>, lines: seq<string>) {
    |lines| == |names| && forall i :: 0 <= i < |names| ==> IsLineOf(lock, names[i], lines[i])
  }

  function Document(lines: seq<string>): string {
    Join(lines, '\n') + "\n"
  }

  /** One line for every reachable package, in order, and no other line. */
  ghost predicate IsRequirements(lock: Lock, text: string) {
    exists names, lines :: ListsReached(lock, names) && AreLines(lock, names, lines) && text == Document(lines)
  }

  method AllHashes(p: Package) returns (r: Result<set<string>>)
    requires p.version.Some?
    ensures r.Ok? <==> Complete(p)
    ensures r.Ok? ==> r.value == Hashes(p)
    ensures r.Err? ==> r == Err(KeyError)
  {
    if p.sdist.None? || p.sdist.value.hash.None? {
      return Err(KeyError);
    }
    var hashes := {p.sdist.value.hash.value};
    for i := 0 to |p.wheels|
      invariant forall k :: 0 <= k < i ==> p.wheels[k].hash.Some?
      invariant hashes == {p.sdist.value.hash.value} + set k | 0 <= k < i :: p.wheels[k].hash.value
    {
      if p.wheels[i].hash.None? {
        return Err(KeyError);
      }
      hashes := hashes + {p.wheels[i].hash.value};
    }
    r := Ok(hashes);
  }

  /** The second loop, over the sorted selection. */
  method WriteLines(lock: Lock, names: seq<string>) returns (r: Result<seq<string>>)
    requires forall i :: 0 <= i < |names| ==> names[i] in lock
    ensures r.Ok? <==> forall i :: 0 <= i < |names| ==> Complete(lock[names[i]])
    ensures r.Ok? ==> AreLines(lock, names, r.value)
    ensures r.Err? ==> r == Err(KeyError)
  {
    var lines: seq<string> := [];
    for i := 0 to |names|
      invariant |lines| == i && forall k :: 0 <= k < i ==> IsLineOf(lock, names[k], lines[k])
    {
      var package := lock[names[i]];
      if package.version.None? {
        return Err(KeyError);
      }
      var hashes := AllHashes(package);
      if hashes.Err? {
        return Err(KeyError);
      }
      var sorted := Sort(hashes.value);
      var line := Line(names[i], package.version.value, sorted);
      assert IsLineOf(lock, names[i], line);
      lines := lines + [line];
    }
    r := Ok(lines);
  }

  /** Succeeds iff every reachable package is present, pinned and complete, and then lists exactly those. */
  method FromLock(lock: Lock) returns (r: Result<string>)
    ensures r.Ok? <==> AllUsable(lock)
    ensures r.Ok? ==> IsRequirements(lock, r.value)
    ensures r == Err(ValueError) ==> SomeUnpinned(lock)
    ensures r == Err(KeyError) ==> SomeLacking(lock)
  {
    var selection := Select(lock);
    if selection.Err? {
      return Err(selection.error);
    }
    var names := Sort(selection.value);
    SelectedAreListed(lock, selection.value, names);
    var lines := WriteLines(lock, names);
    if lines.Err? {
      var i :| 0 <= i < |names| && !Complete(lock[names[i]]);
      assert Reached(lock, names[i]);
      return Err(lines.error);
    }
    r := Ok(Document(lines.value));
  }

  /** The lock file lists its packages one by one. */
  method Requirements(items: seq<(string, Package)>) returns (r: Result<string>)
    ensures r.Ok? <==> AllUsable(ByName(items))
    ensures r.Ok? ==> IsRequirements(ByName(items), r.value)
    ensures r == Err(ValueError) ==> SomeUnpinned(ByName(items))
    ensures r == Err(KeyError) ==> SomeLacking(ByName(items))
  {
    r := FromLock(ByName(items));
  }

  lemma SelectedAreListed(lock: Lock, selected: set<string>, names: seq<string>)
    requires Sorts(names, selected)
    requires forall name :: name in selected <==> Reached(lock, name)
    requires forall name :: Reached(lock, name) ==> Selectable(lock, name)
    ensures ListsReached(lock, names)
    ensures forall i :: 0 <= i < |names| ==> names[i] in lock
    ensures (forall name :: Reached(lock, name) ==> Usable(lock, name))
       <==> forall i :: 0 <= i < |names| ==> Complete(lock[names[i]])
  {
    forall name ensures name in names <==> Reached(lock, name) {
      assert name in selected <==> Reached(lock, name);
    }
    forall i | 0 <= i < |names| ensures names[i] in lock && Reached(lock, names[i]) {
      assert names[i] in names;
    }
    if forall i :: 0 <= i < |names| ==> Complete(lock[names[i]]) {
      forall name | Reached(lock, name) ensures Usable(lock, name) {
        var k :| 0 <= k < |names| && names[k] == name;
      }
    } else {
      var i :| 0 <= i < |names| && !Complete(lock[names[i]]);
      assert Reached(lock, names[i]) && !Usable(lock, names[i]);
    }
  }

  lemma LineUnique(lock: Lock, name: string, a: string, b: string)
    requires IsLineOf(lock, name, a) && IsLineOf(lock, name, b)
    ensures a == b
  {
    var p := lock[name];
    var ha :| Sorts(ha, Hashes(p)) && a == Line(name, p.version.value, ha);
    var hb :| Sorts(hb, Hashes(p)) && b == Line(name, p.version.value, hb);
    SortsUnique(ha, hb, Hashes(p));
  }

  lemma NamesUnique(lock: Lock, a: seq<string>, b: seq<string>)
    requires ListsReached(lock, a) && ListsReached(lock, b)
    ensures a == b
  {
    forall name ensures name in a <==> name in b {
      assert name in a <==> Reached(lock, name);
    }
    SortsUnique(a, b, set name | name in a);
  }

  lemma LinesUnique(lock: Lock, names: seq<string>, a: seq<string>, b: seq<string>)
    requires AreLines(lock, names, a) && AreLines(lock, names, b)
    ensures a == b
  {
    forall i | 0 <= i < |names| ensures a[i] == b[i] {
      LineUnique(lock, names[i], a[i], b[i]);
    }
  }

  /** The requirements file is fully determined by the lock file. */
  lemma RequirementsUnique(lock: Lock, a: string, b: string)
    requires IsRequirements(lock, a) && IsRequirements(lock, b)
    ensures a == b
  {
    var na, la :| ListsReached(lock, na) && AreLines(lock, na, la) && a == Document(la);
    var nb, lb :| ListsReached(lock, nb) && AreLines(lock, nb, lb) && b == Document(lb);
    NamesUnique(lock, na, nb);
    LinesUnique(lock, na, la, lb);
  }

  /** Two lock files that differ only in the order in which dependencies are listed. */
  ghost predicate Reordered(a: Lock, b: Lock) {
    a.Keys == b.Keys && forall name :: name in a ==> SamePackage(a[name], b[name])
  }

  ghost predicate SamePackage(p: Package, q: Package) {
    && p.source == q.source && p.version == q.version && p.sdist == q.sdist && p.wheels == q.wheels
    && forall d :: d in p.dependencies <==> d in q.dependencies
  }

  lemma ReorderedReaches(a: Lock, b: Lock, name: string)
    requires Reordered(a, b) && Reached(a, name)
    ensures Reached(b, name)
  {
    var path :| Chain(a, path) && path[|path| - 1] == name;
    forall i | 0 <= i < |path| - 1 ensures DependsOn(b, path[i], path[i + 1]) {
      assert DependsOn(a, path[i], path[i + 1]);
      assert SamePackage(a[path[i]], b[path[i]]);
    }
    assert Chain(b, path);
  }

  lemma ReorderedLine(a: Lock, b: Lock, name: string, line: string)
    requires Reordered(a, b) && IsLineOf(a, name, line)
    ensures IsLineOf(b, name, line)
  {
    assert SamePackage(a[name], b[name]);
    assert Complete(b[name]);
    var hashes :| Sorts(hashes, Hashes(a[name])) && line == Line(name, a[name].version.value, hashes);
    assert Hashes(b[name]) == Hashes(a[name]);
  }

  lemma ReorderedNames(a: Lock, b: Lock, names: seq<string>)
    requires Reordered(a, b) && ListsReached(a, names)
    ensures ListsReached(b, names)
  {
    forall name ensures name in names <==> Reached(b, name) {
      if Reached(a, name) {
        ReorderedReaches(a, b, name);
      }
      if Reached(b, name) {
        assert Reordered(b, a);
        ReorderedReaches(b, a, name);
      }
    }
  }

  /** The order in which dependencies are listed makes no difference to the requirements file. */
  lemma OrderIrrelevant(a: Lock, b: Lock, text: string)
    requires Reordered(a, b) && IsRequirements(a, text)
    ensures IsRequirements(b, text)
  {
    var names, lines :| ListsReached(a, names) && AreLines(a, names, lines) && text == Document(lines);
    ReorderedNames(a, b, names);
    forall i | 0 <= i < |names| ensures IsLineOf(b, names[i], lines[i]) {
      ReorderedLine(a, b, names[i], lines[i]);
    }
    assert AreLines(b, names, lines);
  }

  // ---- The same without the names above ------------------------------------------------------------

  /** Both seeds are reachable, and so is every dependency of a reachable package. */
  lemma ReachedCloses(lock: Lock, name: string, dependency: string)
    ensures Reached(lock, "pydantic") && Reached(lock, "pyyaml")
    ensures Reached(lock, name) && name in lock && dependency in lock[name].dependencies ==> Reached(lock, dependency)
  {
    SeedReached(lock, SEEDS[0]);
    SeedReached(lock, SEEDS[1]);
    if Reached(lock, name) && name in lock && dependency in lock[name].dependencies {
      DependencyReached(lock, name, dependency);
    }
  }

  /** Nothing else is: every set closed like that holds all reachable packages. */
  lemma ReachedIsLeast(lock: Lock, some: set<string>, name: string)
    requires "pydantic" in some && "pyyaml" in some
    requires forall p, d :: p in some && p in lock && d in lock[p].dependencies ==> d in some
    requires Reached(lock, name)
    ensures name in some
  {
    assert Closed(lock, some);
    ClosedHoldsReached(lock, some, name);
  }

  /** A package passes only from the one pinned registry, with a version and with every hash. */
  lemma UsableIff(lock: Lock, name: string)
    ensures Usable(lock, name) <==>
            && name in lock && lock[name].source == Some(map["registry" := "https://pypi.org/simple"])
            && lock[name].version.Some? && lock[name].sdist.Some? && lock[name].sdist.value.hash.Some?
            && forall i :: 0 <= i < |lock[name].wheels| ==> lock[name].wheels[i].hash.Some?
  {
  }

  /** Package `i` is the last one listed under the name. */
  predicate LastNamed(items: seq<(string, Package)>, name: string, i: nat) {
    i < |items| && items[i].0 == name && forall j :: i < j < |items| ==> items[j].0 != name
  }

  /** The package a name stands for is the last one listed under it. */
  lemma {:induction false} ByNameIs(items: seq<(string, Package)>, name: string)
    ensures name in ByName(items) <==> exists i: nat :: LastNamed(items, name, i)
    ensures forall i: nat :: LastNamed(items, name, i) ==> name in ByName(items) && ByName(items)[name] == items[i].1
  {
    if items != [] {
      var front, n := items[..|items| - 1], |items| - 1;
      ByNameIs(front, name);
      if items[n].0 == name {
        assert LastNamed(items, name, n);
      } else {
        forall i: nat ensures LastNamed(items, name, i) <==> LastNamed(front, name, i) {
          LastNamedFront(items, name, i);
        }
      }
    }
  }

  lemma LastNamedFront(items: seq<(string, Package)>, name: string, i: nat)
    requires items != [] && items[|items| - 1].0 != name
    ensures LastNamed(items, name, i) <==> LastNamed(items[..|items| - 1], name, i)
  {
    var front := items[..|items| - 1];
    if LastNamed(front, name, i) {
      forall j | i < j < |items| ensures items[j].0 != name {
        assert j < |front| ==> items[j] == front[j];
      }
    }
  }

  /** Strings are ordered by the first character in which they differ; a proper prefix comes first. */
  lemma {:induction false} LessIff(a: string, b: string)
    ensures Less(a, b) <==> exists k: nat :: DiffersAt(a, b, k)
  {
    if a == "" || b == "" || a[0] != b[0] {
      if Less(a, b) {
        assert DiffersAt(a, b, 0);
      }
      if k: nat :| DiffersAt(a, b, k) {
        DiffersLater(a, b, k);
      }
    } else {
      LessIff(a[1..], b[1..]);
      if k: nat :| DiffersAt(a[1..], b[1..], k) {
        assert a[..k + 1] == [a[0]] + a[1..][..k] && b[..k + 1] == [b[0]] + b[1..][..k];
        assert DiffersAt(a, b, k + 1);
      }
      if k: nat :| DiffersAt(a, b, k) {
        assert k > 0;
        assert a[1..][..k - 1] == a[..k][1..] && b[1..][..k - 1] == b[..k][1..];
        assert DiffersAt(a[1..], b[1..], k - 1);
      }
    }
  }

  lemma DiffersLater(a: string, b: string, k: nat)
    requires DiffersAt(a, b, k)
    ensures k == 0 || (a != "" && b != "" && a[0] == b[0])
  {
    if k > 0 {
      assert a[..k][0] == a[0] && b[..k][0] == b[0];
    }
  }

  ghost predicate DiffersAt(a: string, b: string, k: nat) {
    && k <= |a| && k < |b| && a[..k] == b[..k] && (k == |a| || a[k] < b[k])
  }

  /** `h` is the hash of the source distribution or of one of the wheels. */
  predicate HasHash(p: Package, h: string) {
    || (p.sdist.Some? && p.sdist.value.hash == Some(h))
    || exists i :: 0 <= i < |p.wheels| && p.wheels[i].hash == Some(h)
  }

  /** A line in full: the package, its version, and one flag for each of its hashes, ascending. */
  ghost predicate Spells(p: Package, name: string, line: string, hashes: seq<string>, flags: seq<string>) {
    && p.version.Some? && Ascending(hashes) && (forall h :: h in hashes <==> HasHash(p, h))
    && |flags| == |hashes| && (forall i :: 0 <= i < |flags| ==> flags[i] == "--hash=" + hashes[i])
    && line == name + "==" + p.version.value + " " + Join(flags, ' ')
  }

  ghost predicate SpellsOut(lock: Lock, name: string, line: string) {
    name in lock && exists hashes, flags :: Spells(lock[name], name, line, hashes, flags)
  }

  lemma LineSpelled(lock: Lock, name: string, line: string)
    requires IsLineOf(lock, name, line)
    ensures SpellsOut(lock, name, line)
  {
    var p := lock[name];
    var hashes :| Sorts(hashes, Hashes(p)) && line == Line(name, p.version.value, hashes);
    forall h ensures h in hashes <==> HasHash(p, h) {
      HashesHave(p, h);
    }
    assert Spells(p, name, line, hashes, Flags(hashes));
  }

  lemma HashesHave(p: Package, h: string)
    requires Complete(p)
    ensures h in Hashes(p) <==> HasHash(p, h)
  {
  }

  /** The whole text: one line after the other, each ended by a newline, for exactly the reachable packages in
      ascending order of their names. */
  lemma RequirementsSpelled(lock: Lock, text: string) returns (names: seq<string>, lines: seq<string>)
    requires IsRequirements(lock, text)
    ensures Ascending(names) && |lines| == |names| && forall name :: name in names <==> Reached(lock, name)
    ensures forall i :: 0 <= i < |names| ==> SpellsOut(lock, names[i], lines[i])
    ensures text == Join(lines, '\n') + "\n"
  {
    names, lines :| ListsReached(lock, names) && AreLines(lock, names, lines) && text == Document(lines);
    forall i | 0 <= i < |names| ensures SpellsOut(lock, names[i], lines[i]) {
      LineSpelled(lock, names[i], lines[i]);
    }
  }
}
