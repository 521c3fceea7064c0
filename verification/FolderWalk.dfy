/** The two ways a folder is turned into a flat upload list: dropping it and picking it. */
module FolderWalk {
  import opened Text

  /** A file's content is only ever passed on. */
  datatype Node = File(name: string, content: nat) | Folder(name: string, children: seq<Node>)

  /** One entry of the upload list; markers stand for what the policy skips. */
  datatype Item = Upload(path: string, content: nat) | Marker(path: string)

  const BLOCKLIST := {
    ".git", ".svn", ".hg", ".DS_Store", "Thumbs.db", "node_modules", "__pycache__", ".venv", "venv", "env", ".next",
    "dist", "build", ".cache", ".pytest_cache", ".mypy_cache", "target"
  }

  const SKIPPED := ".puppyone-skipped"

  predicate BlockedSegment(raw: string) {
    Trim(raw) in BLOCKLIST
  }

  /** Some segment of the path is on the blocklist once trimmed. */
  predicate PathBlocked(path: string) {
    AnyBlocked(Split(path, '/'))
  }

  predicate AnyBlocked(segments: seq<string>) {
    exists i :: 0 <= i < |segments| && BlockedSegment(segments[i])
  }

  function Below(path: string, name: string): string {
    path + ['/'] + name
  }

  function MarkerFor(node: Node, path: string): Item {
    Marker(if node.Folder? then Below(path, SKIPPED) else path)
  }

  // ---- What a walk yields ------------------------------------------------------------------------

  /** The items of a node found at `path`, depth first. */
  function Walk(node: Node, path: string): seq<Item>
    decreases node, 0
  {
    if PathBlocked(path) then [MarkerFor(node, path)]
    else match node
      case File(_, content) => [Upload(path, content)]
      case Folder(_, children) => WalkAll(children, path)
  }

  function WalkAll(children: seq<Node>, path: string): seq<Item>
    decreases children, 1
  {
    if children == [] then []
    else Walk(children[0], Below(path, children[0].name)) + WalkAll(children[1..], path)
  }

  lemma WalkAllCons(node: Node, rest: seq<Node>, path: string)
    ensures WalkAll([node] + rest, path) == Walk(node, Below(path, node.name)) + WalkAll(rest, path)
  {
    assert ([node] + rest)[1..] == rest;
  }

  lemma {:induction false} WalkAllConcat(a: seq<Node>, b: seq<Node>, path: string)
    ensures WalkAll(a + b, path) == WalkAll(a, path) + WalkAll(b, path)
  {
    if a == [] {
      assert a + b == b && [] + WalkAll(b, path) == WalkAll(b, path);
    } else {
      var node, t := a[0], a[1..];
      var first := Walk(node, Below(path, node.name));
      calc {
        WalkAll(a + b, path);
        { assert a + b == [node] + (t + b); }
        WalkAll([node] + (t + b), path);
        { WalkAllCons(node, t + b, path); }
        first + WalkAll(t + b, path);
        { WalkAllConcat(t, b, path); }
        first + (WalkAll(t, path) + WalkAll(b, path));
        { ConcatAssociates(first, WalkAll(t, path), WalkAll(b, path)); }
        first + WalkAll(t, path) + WalkAll(b, path);
        { WalkAllCons(node, t, path); assert a == [node] + t; }
        WalkAll(a, path) + WalkAll(b, path);
      }
    }
  }

  // ---- Picking a folder ----------------------------------------------------------------------------

  class Collector {
    var out: seq<Item>

    constructor ()
      ensures out == []
    {
      out := [];
    }

    /** The recursive walk of a picked folder appends to the shared list. */
    method CollectDirectoryFiles(children: seq<Node>, prefix: string)
      modifies this
      ensures out == old(out) + WalkAll(children, prefix)
      decreases children
    {
      for i := 0 to |children|
        invariant out == old(out) + WalkAll(children[..i], prefix)
      {
        var handle := children[i];
        var path := Below(prefix, handle.name);
        WalkAllConcat(children[..i], [handle], prefix);
        assert children[..i + 1] == children[..i] + [handle];
        assert WalkAll([handle], prefix) == Walk(handle, path);
        if PathBlocked(path) {
          out := out + [MarkerFor(handle, path)];
          continue;
        }
        match handle {
          case File(_, content) => out := out + [Upload(path, content)];
          case Folder(_, below) => CollectDirectoryFiles(below, path);
        }
      }
      assert children[..|children|] == children;
    }
  }

  /** Picking never checks the name of the picked folder itself. */
  method PickDirectoryFiles(root: Node) returns (files: seq<Item>)
    requires root.Folder?
    ensures files == WalkAll(root.children, root.name)
  {
    var collector := new Collector();
    collector.CollectDirectoryFiles(root.children, root.name);
    files := collector.out;
  }

  // ---- Dropping folders ----------------------------------------------------------------------------

  /** An asynchronous activity between two of its awaits. A directory reader has delivered `got` so far. */
  datatype Task =
    | Visit(node: Node, path: string)
    | Loading(path: string, content: nat)
    | Reading(path: string, got: seq<Node>, rest: seq<Node>)

  /** The items a task still has to push. */
  function Owes(t: Task): seq<Item> {
    match t
    case Visit(node, path) => Walk(node, path)
    case Loading(path, content) => [Upload(path, content)]
    case Reading(path, got, rest) => WalkAll(got + rest, path)
  }

  function OwesAll(tasks: seq<Task>): multiset<Item> {
    if tasks == [] then multiset{} else multiset(Owes(tasks[0])) + OwesAll(tasks[1..])
  }

  /** An upper bound on the steps a task and everything it starts will take. */
  function NodeCost(node: Node): nat
    decreases node, 0
  {
    match node
    case File(_, _) => 2
    case Folder(_, children) => 2 + |children| + NodesCost(children)
  }

  function NodesCost(nodes: seq<Node>): nat
    decreases nodes, 1
  {
    if nodes == [] then 0 else NodeCost(nodes[0]) + NodesCost(nodes[1..])
  }

  function Cost(t: Task): nat {
    match t
    case Visit(node, _) => NodeCost(node)
    case Loading(_, _) => 1
    case Reading(_, got, rest) => 1 + |rest| + NodesCost(got + rest)
  }

  function CostAll(tasks: seq<Task>): nat {
    if tasks == [] then 0 else Cost(tasks[0]) + CostAll(tasks[1..])
  }

  function Visits(children: seq<Node>, path: string): seq<Task> {
    seq(|children|, i requires 0 <= i < |children| => Visit(children[i], Below(path, children[i].name)))
  }

  /** Replaces task `i` by the tasks it turns into. */
  function Become(tasks: seq<Task>, i: nat, next: seq<Task>): seq<Task>
    requires i < |tasks|
  {
    tasks[..i] + next + tasks[i + 1..]
  }

  lemma {:induction false} OwesConcat(a: seq<Task>, b: seq<Task>)
    ensures OwesAll(a + b) == OwesAll(a) + OwesAll(b)
  {
    if a == [] {
      assert a + b == b;
    } else {
      assert (a + b)[1..] == a[1..] + b;
      OwesConcat(a[1..], b);
    }
  }

  lemma {:induction false} CostConcat(a: seq<Task>, b: seq<Task>)
    ensures CostAll(a + b) == CostAll(a) + CostAll(b)
  {
    if a == [] {
      assert a + b == b;
    } else {
      assert (a + b)[1..] == a[1..] + b;
      CostConcat(a[1..], b);
    }
  }

  lemma TasksAround(tasks: seq<Task>, i: nat)
    requires i < |tasks|
    ensures tasks == Become(tasks, i, [tasks[i]])
  {
  }

  lemma BecomeOwes(tasks: seq<Task>, i: nat, next: seq<Task>)
    requires i < |tasks|
    ensures OwesAll(Become(tasks, i, next)) == OwesAll(tasks[..i]) + OwesAll(next) + OwesAll(tasks[i + 1..])
  {
    OwesConcat(tasks[..i] + next, tasks[i + 1..]);
    OwesConcat(tasks[..i], next);
  }

  lemma BecomeCosts(tasks: seq<Task>, i: nat, next: seq<Task>)
    requires i < |tasks|
    ensures CostAll(Become(tasks, i, next)) == CostAll(tasks[..i]) + CostAll(next) + CostAll(tasks[i + 1..])
  {
    CostConcat(tasks[..i] + next, tasks[i + 1..]);
    CostConcat(tasks[..i], next);
  }

  lemma Exchange(a: multiset<Item>, old1: multiset<Item>, b: multiset<Item>, done: multiset<Item>, next: multiset<Item>)
    requires old1 == done + next
    ensures a + old1 + b == done + (a + next + b)
  {
  }

  /** A task that pushes `done` and turns into `next` leaves the total owed unchanged, and less to do. */
  lemma TurnKeepsSums(tasks: seq<Task>, i: nat, done: seq<Item>, next: seq<Task>)
    requires i < |tasks|
    requires multiset(Owes(tasks[i])) == multiset(done) + OwesAll(next) && CostAll(next) < Cost(tasks[i])
    ensures OwesAll(tasks) == multiset(done) + OwesAll(Become(tasks, i, next))
    ensures CostAll(Become(tasks, i, next)) < CostAll(tasks)
  {
    TasksAround(tasks, i);
    SumsOne(tasks[i]);
    BecomeOwes(tasks, i, [tasks[i]]);
    BecomeOwes(tasks, i, next);
    BecomeCosts(tasks, i, [tasks[i]]);
    BecomeCosts(tasks, i, next);
    Exchange(OwesAll(tasks[..i]), multiset(Owes(tasks[i])), OwesAll(tasks[i + 1..]), multiset(done), OwesAll(next));
  }

  /** How a visit turns: blocked, a file to load, or a directory to read. */
  lemma VisitTurns(node: Node, path: string)
    ensures PathBlocked(path) ==> Owes(Visit(node, path)) == [MarkerFor(node, path)]
    ensures !PathBlocked(path) && node.File? ==> Owes(Visit(node, path)) == Owes(Loading(path, node.content))
    ensures !PathBlocked(path) && node.Folder? ==>
              && Owes(Visit(node, path)) == Owes(Reading(path, [], node.children))
              && Cost(Reading(path, [], node.children)) < Cost(Visit(node, path))
    ensures node.File? ==> Cost(Visit(node, path)) == 2
    ensures Cost(Visit(node, path)) > 0
  {
    if node.Folder? {
      assert [] + node.children == node.children;
    }
  }

  /** How a reader turns when its directory is exhausted. */
  lemma ReadEnds(path: string, got: seq<Node>)
    ensures OwesAll(Visits(got, path)) == multiset(Owes(Reading(path, got, [])))
    ensures CostAll(Visits(got, path)) < Cost(Reading(path, got, []))
  {
    assert got + [] == got;
    VisitsSums(got, path);
  }

  /** How a reader turns when it delivers the next `n` children. */
  lemma ReadTurns(path: string, got: seq<Node>, rest: seq<Node>, n: nat)
    requires 1 <= n <= |rest|
    ensures var next := Reading(path, got + rest[..n], rest[n..]);
            Owes(next) == Owes(Reading(path, got, rest)) && Cost(next) < Cost(Reading(path, got, rest))
  {
    assert (got + rest[..n]) + rest[n..] == got + rest;
  }

  lemma SumsOne(t: Task)
    ensures OwesAll([t]) == multiset(Owes(t)) && CostAll([t]) == Cost(t)
  {
    assert [t][1..] == [];
  }

  /** Visiting all children owes exactly what the folder owes. */
  lemma {:induction false} VisitsSums(children: seq<Node>, path: string)
    ensures OwesAll(Visits(children, path)) == multiset(WalkAll(children, path))
    ensures CostAll(Visits(children, path)) == NodesCost(children)
  {
    if children != [] {
      assert Visits(children, path)[1..] == Visits(children[1..], path);
      VisitsSums(children[1..], path);
    }
  }

  /** The shared list and the pending activities of a drop. */
  class DropWalk {
    var out: seq<Item>
    var tasks: seq<Task>

    constructor (roots: seq<Node>)
      ensures out == [] && OwesAll(tasks) == multiset(WalkRoots(roots))
    {
      out := [];
      tasks := seq(|roots|, i requires 0 <= i < |roots| => Visit(roots[i], roots[i].name));
      new;
      RootsSums(roots);
    }

    /** Task `i` runs until its next await; a directory reader delivers between one and all remaining
        children, or the empty batch that ends it. */
    method Step(i: nat, batch: nat)
      requires i < |tasks|
      modifies this
      ensures multiset(out) + OwesAll(tasks) == multiset(old(out)) + OwesAll(old(tasks))
      ensures CostAll(tasks) < CostAll(old(tasks))
    {
      match tasks[i] {
        case Visit(node, path) =>
          VisitTurns(node, path);
          if PathBlocked(path) {
            Turn(i, [MarkerFor(node, path)], []);
          } else {
            match node {
              case File(_, content) => GoOnAs(i, Loading(path, content));
              case Folder(_, children) => GoOnAs(i, Reading(path, [], children));
            }
          }
        case Loading(path, content) => Turn(i, [Upload(path, content)], []);
        case Reading(path, got, rest) =>
          if rest == [] {
            ReadEnds(path, got);
            Turn(i, [], Visits(got, path));
          } else {
            var n := if batch == 0 then 1 else if batch < |rest| then batch else |rest|;
            ReadTurns(path, got, rest, n);
            GoOnAs(i, Reading(path, got + rest[..n], rest[n..]));
          }
      }
    }

    /** The task goes on as another one. */
    method GoOnAs(i: nat, next: Task)
      requires i < |tasks| && Owes(next) == Owes(tasks[i]) && Cost(next) < Cost(tasks[i])
      modifies this
      ensures multiset(out) + OwesAll(tasks) == multiset(old(out)) + OwesAll(old(tasks))
      ensures CostAll(tasks) < CostAll(old(tasks))
    {
      SumsOne(next);
      Turn(i, [], [next]);
    }

    /** Task `i` pushes `done` and turns into `next`. */
    method Turn(i: nat, done: seq<Item>, next: seq<Task>)
      requires i < |tasks|
      requires multiset(Owes(tasks[i])) == multiset(done) + OwesAll(next) && CostAll(next) < Cost(tasks[i])
      modifies this
      ensures out == old(out) + done && tasks == Become(old(tasks), i, next)
      ensures multiset(out) + OwesAll(tasks) == multiset(old(out)) + OwesAll(old(tasks))
      ensures CostAll(tasks) < CostAll(old(tasks))
    {
      TurnKeepsSums(tasks, i, done, next);
      tasks, out := Become(tasks, i, next), out + done;
    }

    /** Whatever order the activities resume in and however directories are batched, the walk ends and
        its list holds exactly the items of the depth-first walk. */
    method RunAll(pick: nat -> nat, batch: nat -> nat)
      requires out == []
      modifies this
      ensures tasks == [] && multiset(out) == OwesAll(old(tasks))
    {
      var step := 0;
      while tasks != []
        invariant multiset(out) + OwesAll(tasks) == OwesAll(old(tasks))
        decreases CostAll(tasks)
      {
        Step(pick(step) % |tasks|, batch(step));
        step := step + 1;
      }
    }
  }

  function WalkRoots(roots: seq<Node>): seq<Item> {
    if roots == [] then [] else Walk(roots[0], roots[0].name) + WalkRoots(roots[1..])
  }

  lemma {:induction false} RootsSums(roots: seq<Node>)
    ensures OwesAll(seq(|roots|, i requires 0 <= i < |roots| => Visit(roots[i], roots[i].name)))
         == multiset(WalkRoots(roots))
  {
    if roots != [] {
      var all := seq(|roots|, i requires 0 <= i < |roots| => Visit(roots[i], roots[i].name));
      var rest := roots[1..];
      assert all[1..] == seq(|rest|, i requires 0 <= i < |rest| => Visit(rest[i], rest[i].name));
      RootsSums(rest);
    }
  }

  /** Entries win over the browser's own file list, which is only a fallback. */
  method CollectDroppedFiles(items: seq<Node>, fallback: seq<Item>, pick: nat -> nat, batch: nat -> nat)
    returns (files: seq<Item>)
    ensures items != [] ==> multiset(files) == multiset(WalkRoots(items))
    ensures items == [] ==> files == fallback
  {
    if items == [] {
      return fallback;
    }
    var walk := new DropWalk(items);
    walk.RunAll(pick, batch);
    files := walk.out;
  }

  // ---- The two agree -------------------------------------------------------------------------------

  lemma PathBlockedBelow(path: string, name: string)
    ensures PathBlocked(Below(path, name)) <==> PathBlocked(path) || PathBlocked(name)
  {
    SplitConcat(path, name, '/');
    AnyBlockedConcat(Split(path, '/'), Split(name, '/'));
  }

  lemma AnyBlockedConcat(a: seq<string>, b: seq<string>)
    ensures AnyBlocked(a + b) <==> AnyBlocked(a) || AnyBlocked(b)
  {
    if i :| 0 <= i < |a| && BlockedSegment(a[i]) {
      assert (a + b)[i] == a[i];
    }
    if i :| 0 <= i < |b| && BlockedSegment(b[i]) {
      assert (a + b)[|a| + i] == b[i];
    }
  }

  // ---- The walk against the whole tree -----------------------------------------------------------

  /** A node together with the names that lead to it, its own last. */
  datatype Located = Located(names: seq<string>, node: Node)

  /** Every node of a tree, blocked or not. */
  function Everything(node: Node, above: seq<string>): seq<Located>
    decreases node, 0
  {
    [Located(above + [node.name], node)]
    + match node
      case File(_, _) => []
      case Folder(_, children) => EverythingIn(children, above + [node.name])
  }

  function EverythingIn(children: seq<Node>, above: seq<string>): seq<Located>
    decreases children, 1
  {
    if children == [] then [] else Everything(children[0], above) + EverythingIn(children[1..], above)
  }

  predicate Clean(names: seq<string>) {
    forall i :: 0 <= i < |names| ==> !PathBlocked(names[i])
  }

  /** What the policy says about a single node: a clean file is uploaded, a blocked node with clean
      ancestors gets the marker, everything else is silent. */
  function Report(l: Located): seq<Item> {
    if l.names == [] || !Clean(l.names[..|l.names| - 1]) then []
    else if PathBlocked(l.names[|l.names| - 1]) then [MarkerFor(l.node, Join(l.names, '/'))]
    else if l.node.File? then [Upload(Join(l.names, '/'), l.node.content)]
    else []
  }

  function ReportAll(all: seq<Located>): seq<Item> {
    if all == [] then [] else Report(all[0]) + ReportAll(all[1..])
  }

  lemma ReportCons(l: Located, rest: seq<Located>)
    ensures ReportAll([l] + rest) == Report(l) + ReportAll(rest)
  {
    assert ([l] + rest)[1..] == rest;
  }

  lemma {:induction false} ReportConcat(a: seq<Located>, b: seq<Located>)
    ensures ReportAll(a + b) == ReportAll(a) + ReportAll(b)
  {
    if a == [] {
      assert a + b == b && [] + ReportAll(b) == ReportAll(b);
    } else {
      var l, t := a[0], a[1..];
      calc {
        ReportAll(a + b);
        { assert a + b == [l] + (t + b); }
        ReportAll([l] + (t + b));
        { ReportCons(l, t + b); }
        Report(l) + ReportAll(t + b);
        { ReportConcat(t, b); }
        Report(l) + (ReportAll(t) + ReportAll(b));
        { ConcatAssociates(Report(l), ReportAll(t), ReportAll(b)); }
        Report(l) + ReportAll(t) + ReportAll(b);
        { ReportCons(l, t); assert a == [l] + t; }
        ReportAll(a) + ReportAll(b);
      }
    }
  }

  lemma NamesBelow(above: seq<string>, name: string)
    requires above != []
    ensures Join(above + [name], '/') == Below(Join(above, '/'), name)
  {
    JoinConcat(above, [name], '/');
  }

  lemma {:induction false} CleanPath(names: seq<string>)
    requires names != []
    ensures PathBlocked(Join(names, '/')) <==> !Clean(names)
  {
    var front, last := names[..|names| - 1], names[|names| - 1];
    assert names == front + [last];
    if front == [] {
      assert Join(names, '/') == last;
    } else {
      CleanPath(front);
      NamesBelow(front, last);
      PathBlockedBelow(Join(front, '/'), last);
    }
  }

  lemma UncleanGrows(above: seq<string>, name: string)
    requires !Clean(above)
    ensures !Clean(above + [name])
  {
    var i :| 0 <= i < |above| && PathBlocked(above[i]);
    assert (above + [name])[i] == above[i];
  }

  /** Below a blocked name nothing is reported. */
  lemma {:induction false} SilentBelow(children: seq<Node>, above: seq<string>)
    requires !Clean(above)
    ensures ReportAll(EverythingIn(children, above)) == []
    decreases children, 1
  {
    if children != [] {
      SilentNode(children[0], above);
      SilentBelow(children[1..], above);
      ReportConcat(Everything(children[0], above), EverythingIn(children[1..], above));
    }
  }

  lemma {:induction false} SilentNode(node: Node, above: seq<string>)
    requires !Clean(above)
    ensures ReportAll(Everything(node, above)) == []
    decreases node, 0
  {
    var names := above + [node.name];
    assert names[..|names| - 1] == above;
    assert Report(Located(names, node)) == [];
    match node {
      case File(_, _) =>
      case Folder(_, children) =>
        UncleanGrows(above, node.name);
        SilentBelow(children, names);
    }
    ReportFirst(node, above);
  }

  lemma ReportFirst(node: Node, above: seq<string>)
    ensures ReportAll(Everything(node, above))
         == Report(Located(above + [node.name], node))
            + if node.Folder? then ReportAll(EverythingIn(node.children, above + [node.name])) else []
  {
    var first := [Located(above + [node.name], node)];
    assert first[1..] == [];
    ReportConcat(first, if node.Folder? then EverythingIn(node.children, above + [node.name]) else []);
  }

  /** The walk is the report of the whole tree: each maximal blocked subtree has become one marker, and
      every other file is there. */
  lemma {:induction false} WalkIsReport(node: Node, above: seq<string>)
    requires Clean(above)
    ensures Walk(node, Join(above + [node.name], '/')) == ReportAll(Everything(node, above))
    decreases node, 0
  {
    var names := above + [node.name];
    assert names[..|names| - 1] == above;
    CleanPath(names);
    ReportFirst(node, above);
    if PathBlocked(node.name) {
      assert !Clean(names) by {
        assert names[|above|] == node.name;
      }
      if node.Folder? {
        SilentBelow(node.children, names);
      }
    } else {
      assert Clean(names);
      if node.Folder? {
        WalkAllIsReport(node.children, names);
      }
    }
  }

  lemma {:induction false} WalkAllIsReport(children: seq<Node>, above: seq<string>)
    requires Clean(above) && above != []
    ensures WalkAll(children, Join(above, '/')) == ReportAll(EverythingIn(children, above))
    decreases children, 1
  {
    if children != [] {
      WalkIsReport(children[0], above);
      WalkAllIsReport(children[1..], above);
      NamesBelow(above, children[0].name);
      ReportConcat(Everything(children[0], above), EverythingIn(children[1..], above));
    }
  }

  /** One marker for each child. */
  ghost predicate MarksEach(children: seq<Node>, path: string, items: seq<Item>) {
    && |items| == |children|
    && forall i :: 0 <= i < |children| ==> items[i] == MarkerFor(children[i], Below(path, children[i].name))
  }

  lemma MarksCons(node: Node, rest: seq<Node>, path: string, items: seq<Item>)
    requires MarksEach(rest, path, items)
    ensures MarksEach([node] + rest, path, [MarkerFor(node, Below(path, node.name))] + items)
  {
  }

  lemma MarkedChild(node: Node, path: string)
    requires PathBlocked(path)
    ensures Walk(node, Below(path, node.name)) == [MarkerFor(node, Below(path, node.name))]
  {
    PathBlockedBelow(path, node.name);
  }

  lemma {:induction false} BlockedRootMarksEach(children: seq<Node>, path: string)
    requires PathBlocked(path)
    ensures MarksEach(children, path, WalkAll(children, path))
  {
    if children != [] {
      var node, rest := children[0], children[1..];
      assert children == [node] + rest;
      BlockedRootMarksEach(rest, path);
      MarkedChild(node, path);
      WalkAllCons(node, rest, path);
      MarksCons(node, rest, path, WalkAll(rest, path));
    }
  }

  lemma MarkerBelowDiffers(path: string, node: Node)
    ensures MarkerFor(node, Below(path, node.name)) == Marker(Below(path, SKIPPED)) <==>
            node.File? && node.name == SKIPPED
  {
    var prefix := path + ['/'];
    if node.File? && MarkerFor(node, Below(path, node.name)) == Marker(Below(path, SKIPPED)) {
      assert (prefix + node.name)[|prefix|..] == node.name && (prefix + SKIPPED)[|prefix|..] == SKIPPED;
    }
  }

  /** Dropping and picking the same folder yield the same items iff the folder's own name is not blocked,
      apart from one odd folder: blocked, with a file named like the marker as its only child. */
  lemma WalkersAgreeIff(root: Node)
    requires root.Folder?
    ensures multiset(Walk(root, root.name)) == multiset(WalkAll(root.children, root.name))
       <==> || !PathBlocked(root.name)
            || (|root.children| == 1 && root.children[0].File? && root.children[0].name == SKIPPED)
  {
    if PathBlocked(root.name) {
      var dropped, picked := Walk(root, root.name), WalkAll(root.children, root.name);
      BlockedRootMarksEach(root.children, root.name);
      assert dropped == [Marker(Below(root.name, SKIPPED))];
      assert |multiset(dropped)| == 1 && |multiset(picked)| == |picked|;
      if |root.children| == 1 {
        assert picked == [picked[0]];
        assert picked[0] in multiset(picked);
        MarkerBelowDiffers(root.name, root.children[0]);
      }
    }
  }

  /** Both entry points, run on one unblocked folder under any schedule and batching. */
  method DropAndPick(root: Node, pick: nat -> nat, batch: nat -> nat) returns (dropped: seq<Item>, picked: seq<Item>)
    requires root.Folder? && !PathBlocked(root.name)
    ensures multiset(dropped) == multiset(picked)
  {
    dropped := CollectDroppedFiles([root], [], pick, batch);
    picked := PickDirectoryFiles(root);
    assert [root][1..] == [];
    assert WalkRoots([root]) == Walk(root, root.name) + [];
  }

  // ---- The policy spelled out ----------------------------------------------------------------------

  predicate Listed(name: string) {
    name in {".git", ".svn", ".hg", ".DS_Store", "Thumbs.db", "node_modules", "__pycache__", ".venv", "venv", "env",
             ".next", "dist", "build", ".cache", ".pytest_cache", ".mypy_cache", "target"}
  }

  lemma SegmentBlockedIff(raw: string)
    ensures BlockedSegment(raw) <==> Listed(Trim(raw))
  {
  }

  predicate SomeListed(segments: seq<string>) {
    exists i :: 0 <= i < |segments| && Listed(Trim(segments[i]))
  }

  lemma AnyBlockedIff(segments: seq<string>)
    ensures AnyBlocked(segments) <==> SomeListed(segments)
  {
    if i :| 0 <= i < |segments| && BlockedSegment(segments[i]) {
      SegmentBlockedIff(segments[i]);
    }
    if i :| 0 <= i < |segments| && Listed(Trim(segments[i])) {
      SegmentBlockedIff(segments[i]);
    }
  }

  /** A path is blocked exactly if one of its segments, without the white space around it, is a listed name. */
  lemma PathBlockedIff(path: string)
    ensures PathBlocked(path) <==> SomeListed(Split(path, '/'))
  {
    AnyBlockedIff(Split(path, '/'));
  }

  /** A blocked folder becomes one marker whatever is in it, a blocked file one marker for itself, and any other
      file is uploaded. */
  lemma WalkSpelled(name: string, children: seq<Node>, content: nat, path: string)
    ensures PathBlocked(path) ==> Walk(Folder(name, children), path) == [Marker(path + "/.puppyone-skipped")]
    ensures PathBlocked(path) ==> Walk(File(name, content), path) == [Marker(path)]
    ensures !PathBlocked(path) ==> Walk(File(name, content), path) == [Upload(path, content)]
    ensures !PathBlocked(path) ==> Walk(Folder(name, children), path) == WalkAll(children, path)
  {
    assert path + ['/'] + ".puppyone-skipped" == path + "/.puppyone-skipped";
  }

  lemma TrimNothing(s: string)
    requires s == "" || (!IsSpace(s[0]) && !IsSpace(s[|s| - 1]))
    ensures Trim(s) == s
  {
  }

  lemma OneSegment(name: string)
    requires BlockedSegment(name) && '/' !in name
    ensures PathBlocked(name)
  {
    SplitWhole(name, '/');
    assert BlockedSegment(Split(name, '/')[0]);
  }

  lemma PackagesBlocked()
    ensures BlockedSegment("node_modules")
  {
    TrimNothing("node_modules");
  }

  /** Dropping a folder of packages uploads nothing of it. */
  lemma PackagesSkipped(children: seq<Node>)
    ensures var name := "node_modules";
            Walk(Folder(name, children), name) == [Marker(name + "/.puppyone-skipped")]
  {
    var name := "node_modules";
    PackagesBlocked();
    OneSegment(name);
    WalkSpelled(name, children, 0, name);
  }

  /** Items come child by child, in the order of the listing. */
  lemma WalkInOrder(before: seq<Node>, node: Node, rest: seq<Node>, path: string)
    ensures WalkAll(before + [node] + rest, path)
         == WalkAll(before, path) + Walk(node, path + "/" + node.name) + WalkAll(rest, path)
    ensures WalkAll([], path) == []
  {
    ConcatAssociates(before, [node], rest);
    WalkAllConcat(before, [node] + rest, path);
    WalkAllCons(node, rest, path);
    assert path + "/" + node.name == Below(path, node.name);
    ConcatAssociates(WalkAll(before, path), Walk(node, Below(path, node.name)), WalkAll(rest, path));
  }

  /** Dropped entries are walked one by one, each under its own name. */
  lemma RootsInOrder(root: Node, rest: seq<Node>)
    ensures WalkRoots([root] + rest) == Walk(root, root.name) + WalkRoots(rest)
    ensures WalkRoots([]) == []
  {
    assert ([root] + rest)[1..] == rest;
  }
}
