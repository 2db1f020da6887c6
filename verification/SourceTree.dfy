/** `requireHashedSourceTree`: a worklist over a directory graph in which symbolic links may
    alias directories or form cycles. */
module SourceTree {
  import opened Wrappers

  /** Where a directory entry resolves to. */
  datatype Target = Directory(id: nat) | File | Special | Unresolved

  datatype Child = Child(name: string, target: Target)

  datatype Listing = Unreadable | Readable(children: seq<Child>)

  /** Physical directories and what they list. */
  type Graph = map<nat, Listing>

  /** Names below the selected root; the source joins them with slashes. */
  type Path = seq<string>

  /** Every directory that is listed exists, and a directory lists a name once. */
  ghost predicate ValidGraph(g: Graph) {
    forall d :: d in g && g[d].Readable? ==>
      && (forall i, j :: 0 <= i < j < |g[d].children| ==> g[d].children[i].name != g[d].children[j].name)
      && (forall c :: c in g[d].children && c.target.Directory? ==> c.target.id in g)
  }

  function Lookup(children: seq<Child>, name: string): Option<Target> {
    if children == [] then None
    else if children[|children| - 1].name == name then Some(children[|children| - 1].target)
    else Lookup(children[..|children| - 1], name)
  }

  /** What a relative path reaches, links followed; None when it names nothing. */
  function Walk(g: Graph, root: nat, path: Path): Option<Target> {
    if path == [] then Some(Directory(root))
    else
      var parent := Walk(g, root, path[..|path| - 1]);
      if parent.Some? && parent.value.Directory? && parent.value.id in g && g[parent.value.id].Readable?
      then Lookup(g[parent.value.id].children, path[|path| - 1])
      else None
  }

  /** The tree is fully hashed: every directory is readable and has one relative path, every
      file is listed, and nothing else is reachable. */
  ghost predicate FullyHashed(g: Graph, root: nat, hashed: set<Path>) {
    && (forall p, d :: Walk(g, root, p) == Some(Directory(d)) ==> d in g && g[d].Readable?)
    && (forall p, q, d :: Walk(g, root, p) == Some(Directory(d)) && Walk(g, root, q) == Some(Directory(d)) ==> p == q)
    && (forall p :: Walk(g, root, p) == Some(File) ==> p in hashed)
    && (forall p :: Walk(g, root, p) != Some(Special) && Walk(g, root, p) != Some(Unresolved))
  }

  datatype Item = Item(path: Path, dir: nat)

  /** The directories among some children, as worklist items. */
  function Subdirectories(children: seq<Child>, path: Path): seq<Item> {
    if children == [] then []
    else
      var last := children[|children| - 1];
      Subdirectories(children[..|children| - 1], path)
      + (if last.target.Directory? then [Item(path + [last.name], last.target.id)] else [])
  }

  /** No child is a reason to fail. */
  predicate Acceptable(children: seq<Child>, path: Path, hashed: set<Path>) {
    forall c :: c in children ==> c.target.Directory? || (c.target.File? && path + [c.name] in hashed)
  }

  // ------------------------------------------------------------------- small facts

  lemma {:induction false} LookupFinds(children: seq<Child>, name: string)
    requires forall i, j :: 0 <= i < j < |children| ==> children[i].name != children[j].name
    ensures forall t :: Lookup(children, name) == Some(t) <==> Child(name, t) in children
  {
    if children != [] {
      var front, last := children[..|children| - 1], children[|children| - 1];
      assert children == front + [last];
      LookupFinds(front, name);
    }
  }

  predicate IsSubdirectory(children: seq<Child>, path: Path, it: Item) {
    && it.path != [] && it.path[..|it.path| - 1] == path
    && Child(it.path[|it.path| - 1], Directory(it.dir)) in children
  }

  lemma {:induction false} SubdirectoriesAre(children: seq<Child>, path: Path)
    ensures forall it :: it in Subdirectories(children, path) <==> IsSubdirectory(children, path, it)
  {
    if children != [] {
      var front, last := children[..|children| - 1], children[|children| - 1];
      assert children == front + [last];
      SubdirectoriesAre(front, path);
      forall it
        ensures it in Subdirectories(children, path) <==> IsSubdirectory(children, path, it)
      {
        if it.path != [] && it.path[..|it.path| - 1] == path {
          assert it.path == path + [it.path[|it.path| - 1]];
        }
        assert IsSubdirectory(children, path, it)
            <==> IsSubdirectory(front, path, it) || IsSubdirectory([last], path, it);
        assert IsSubdirectory([last], path, it)
            <==> last.target.Directory? && it == Item(path + [last.name], last.target.id);
      }
    }
  }

  lemma {:induction false} SubdirectoriesAreDistinct(children: seq<Child>, path: Path)
    requires forall i, j :: 0 <= i < j < |children| ==> children[i].name != children[j].name
    ensures forall i, j :: 0 <= i < j < |Subdirectories(children, path)| ==>
      Subdirectories(children, path)[i].path != Subdirectories(children, path)[j].path
  {
    if children != [] {
      var front, last := children[..|children| - 1], children[|children| - 1];
      SubdirectoriesAreDistinct(front, path);
      SubdirectoriesAre(front, path);
      var before := Subdirectories(front, path);
      forall i | 0 <= i < |before|
        ensures before[i].path != path + [last.name]
      {
        assert before[i] in before && IsSubdirectory(front, path, before[i]);
      }
    }
  }

  // ---------------------------------------------------------------------- the worklist

  /** Every directory found so far, visited or pending, with the path it was found by. */
  predicate Found(visited: map<nat, Path>, pending: seq<Item>, it: Item) {
    it in pending || (it.dir in visited && visited[it.dir] == it.path)
  }

  function ChildrenOf(g: Graph, d: nat): seq<Child> {
    if d in g && g[d].Readable? then g[d].children else []
  }

  ghost predicate Walks(g: Graph, root: nat, visited: map<nat, Path>, pending: seq<Item>) {
    forall it :: Found(visited, pending, it) ==> Walk(g, root, it.path) == Some(Directory(it.dir))
  }

  ghost predicate Checked(g: Graph, hashed: set<Path>, visited: map<nat, Path>) {
    forall d :: d in visited ==> d in g && g[d].Readable? && Acceptable(g[d].children, visited[d], hashed)
  }

  ghost predicate OncePerPath(visited: map<nat, Path>, pending: seq<Item>) {
    && (forall i, j :: 0 <= i < j < |pending| ==> pending[i].path != pending[j].path)
    && (forall it, d :: it in pending && d in visited ==> it.path != visited[d])
  }

  ghost predicate Closed(g: Graph, visited: map<nat, Path>, pending: seq<Item>) {
    forall d, it :: d in visited && IsSubdirectory(ChildrenOf(g, d), visited[d], it) ==> Found(visited, pending, it)
  }

  ghost predicate ParentsVisited(visited: map<nat, Path>, pending: seq<Item>) {
    forall it :: Found(visited, pending, it) && it.path != [] ==> it.path[..|it.path| - 1] in visited.Values
  }

  ghost predicate Inv(g: Graph, root: nat, hashed: set<Path>, visited: map<nat, Path>, pending: seq<Item>) {
    && Walks(g, root, visited, pending)
    && Checked(g, hashed, visited)
    && OncePerPath(visited, pending)
    && Found(visited, pending, Item([], root))
    && Closed(g, visited, pending)
    && ParentsVisited(visited, pending)
  }

  lemma InvAtStart(g: Graph, root: nat, hashed: set<Path>)
    ensures Inv(g, root, hashed, map[], [Item([], root)])
  {
  }

  /** What was found before is found still, and only the subdirectories are new. */
  lemma FoundAfterVisiting(visited: map<nat, Path>, rest: seq<Item>, current: Item, subs: seq<Item>)
    requires current.dir !in visited
    ensures forall it ::
      (Found(visited[current.dir := current.path], rest + subs, it) <==>
       Found(visited, rest + [current], it) || it in subs)
  {
    assert (rest + [current])[|rest|] == current;
    assert forall it :: it in rest + [current] <==> it in rest || it == current;
  }

  lemma SubdirectoriesWalk(g: Graph, root: nat, current: Item)
    requires ValidGraph(g) && current.dir in g && g[current.dir].Readable?
    requires Walk(g, root, current.path) == Some(Directory(current.dir))
    ensures forall it :: IsSubdirectory(g[current.dir].children, current.path, it) ==>
      Walk(g, root, it.path) == Some(Directory(it.dir))
  {
    forall it | IsSubdirectory(g[current.dir].children, current.path, it)
      ensures Walk(g, root, it.path) == Some(Directory(it.dir))
    {
      LookupFinds(g[current.dir].children, it.path[|it.path| - 1]);
    }
  }

  lemma NewPathsAreNew(visited: map<nat, Path>, rest: seq<Item>, current: Item, subs: seq<Item>)
    requires OncePerPath(visited, rest + [current]) && ParentsVisited(visited, rest + [current])
    requires current.dir !in visited
    requires forall i, j :: 0 <= i < j < |subs| ==> subs[i].path != subs[j].path
    requires forall it :: it in subs ==> it.path != [] && it.path[..|it.path| - 1] == current.path
    ensures OncePerPath(visited[current.dir := current.path], rest + subs)
  {
    var all := rest + [current];
    assert all[|rest|] == current && current in all;
    assert forall i :: 0 <= i < |rest| ==> all[i] == rest[i] && rest[i] in all;
    assert current.path !in visited.Values;
    forall it, s | it in rest && s in subs
      ensures it.path != s.path
    {
      assert it in all && Found(visited, all, it);
    }
    forall d, s | d in visited && s in subs
      ensures visited[d] != s.path
    {
      assert Found(visited, all, Item(visited[d], d));
    }
  }

  /** Visiting a fresh directory whose children raise no objection keeps the invariant. */
  lemma Visiting(g: Graph, root: nat, hashed: set<Path>, visited: map<nat, Path>, rest: seq<Item>, current: Item)
    requires ValidGraph(g) && Inv(g, root, hashed, visited, rest + [current])
    requires current.dir !in visited && current.dir in g && g[current.dir].Readable?
    requires Acceptable(g[current.dir].children, current.path, hashed)
    ensures Inv(g, root, hashed, visited[current.dir := current.path],
                rest + Subdirectories(g[current.dir].children, current.path))
  {
    var children := g[current.dir].children;
    var subs := Subdirectories(children, current.path);
    SubdirectoriesAre(children, current.path);
    SubdirectoriesAreDistinct(children, current.path);
    FoundAfterVisiting(visited, rest, current, subs);
    assert current in rest + [current] && Found(visited, rest + [current], current);
    SubdirectoriesWalk(g, root, current);
    assert forall it :: it in subs ==> IsSubdirectory(children, current.path, it);
    NewPathsAreNew(visited, rest, current, subs);
    ParentsAreVisited(visited, rest, current, subs);
  }

  lemma ParentsAreVisited(visited: map<nat, Path>, rest: seq<Item>, current: Item, subs: seq<Item>)
    requires ParentsVisited(visited, rest + [current]) && current.dir !in visited
    requires forall it :: Found(visited[current.dir := current.path], rest + subs, it) ==>
      Found(visited, rest + [current], it) || it in subs
    requires forall it :: it in subs ==> it.path != [] && it.path[..|it.path| - 1] == current.path
    ensures ParentsVisited(visited[current.dir := current.path], rest + subs)
  {
    var visited' := visited[current.dir := current.path];
    assert visited'[current.dir] == current.path && current.path in visited'.Values;
    forall p | p in visited.Values
      ensures p in visited'.Values
    {
      var d :| d in visited && visited[d] == p;
      assert visited'[d] == p;
    }
  }

  // ----------------------------------------------------------------------------- verdicts

  lemma SubdirectoryWasVisited(g: Graph, visited: map<nat, Path>, d: nat, name: string, child: nat)
    requires Closed(g, visited, []) && d in visited && Child(name, Directory(child)) in ChildrenOf(g, d)
    ensures child in visited && visited[child] == visited[d] + [name]
  {
    var it := Item(visited[d] + [name], child);
    assert IsSubdirectory(ChildrenOf(g, d), visited[d], it) && Found(visited, [], it);
  }

  /** With nothing pending, every path to a directory is the one it was visited by. */
  lemma {:induction false} EveryPathWasVisited(g: Graph, root: nat, visited: map<nat, Path>, path: Path)
    requires ValidGraph(g) && Found(visited, [], Item([], root)) && Closed(g, visited, [])
    ensures var t := Walk(g, root, path);
      t.Some? && t.value.Directory? ==> t.value.id in visited && visited[t.value.id] == path
    decreases |path|
  {
    if path == [] {
      assert Found(visited, [], Item([], root));
    } else {
      var parent, name := path[..|path| - 1], path[|path| - 1];
      EveryPathWasVisited(g, root, visited, parent);
      var t := Walk(g, root, path);
      if t.Some? && t.value.Directory? {
        var d := Walk(g, root, parent).value.id;
        LookupFinds(g[d].children, name);
        SubdirectoryWasVisited(g, visited, d, name, t.value.id);
        assert path == parent + [name];
      }
    }
  }

  /** What may stand at the end of a path: a readable directory visited by it, a listed file, or nothing. */
  ghost predicate EndsWell(g: Graph, hashed: set<Path>, visited: map<nat, Path>, path: Path, t: Option<Target>) {
    match t
    case None => true
    case Some(Directory(d)) => d in visited && visited[d] == path && d in g && g[d].Readable?
    case Some(File) => path in hashed
    case _ => false
  }

  lemma EveryPathEndsWell(g: Graph, root: nat, hashed: set<Path>, visited: map<nat, Path>, path: Path)
    requires ValidGraph(g) && Inv(g, root, hashed, visited, [])
    ensures EndsWell(g, hashed, visited, path, Walk(g, root, path))
  {
    EveryPathWasVisited(g, root, visited, path);
    var t := Walk(g, root, path);
    if path != [] && t.Some? {
      var parent, name := path[..|path| - 1], path[|path| - 1];
      EveryPathWasVisited(g, root, visited, parent);
      var d := Walk(g, root, parent).value.id;
      LookupFinds(g[d].children, name);
      assert Child(name, t.value) in g[d].children;
      assert path == visited[d] + [name];
    }
  }

  lemma AllEndWell(g: Graph, root: nat, hashed: set<Path>, visited: map<nat, Path>)
    requires forall p :: EndsWell(g, hashed, visited, p, Walk(g, root, p))
    ensures FullyHashed(g, root, hashed)
  {
    assert forall p, d :: Walk(g, root, p) == Some(Directory(d)) ==>
      EndsWell(g, hashed, visited, p, Some(Directory(d)));
  }

  lemma FinishedMeansHashed(g: Graph, root: nat, hashed: set<Path>, visited: map<nat, Path>)
    requires ValidGraph(g) && Inv(g, root, hashed, visited, [])
    ensures FullyHashed(g, root, hashed)
  {
    forall p
      ensures EndsWell(g, hashed, visited, p, Walk(g, root, p))
    {
      EveryPathEndsWell(g, root, hashed, visited, p);
    }
    AllEndWell(g, root, hashed, visited);
  }

  /** A child is reached by its parent's path and its own name. */
  lemma ChildIsReached(g: Graph, root: nat, current: Item, c: Child)
    requires ValidGraph(g) && current.dir in g && g[current.dir].Readable? && c in g[current.dir].children
    requires Walk(g, root, current.path) == Some(Directory(current.dir))
    ensures Walk(g, root, current.path + [c.name]) == Some(c.target)
  {
    var path := current.path + [c.name];
    assert path[..|path| - 1] == current.path;
    LookupFinds(g[current.dir].children, c.name);
  }

  lemma ObjectionMeansUnhashed(g: Graph, root: nat, hashed: set<Path>, current: Item)
    requires ValidGraph(g) && current.dir in g && g[current.dir].Readable?
    requires Walk(g, root, current.path) == Some(Directory(current.dir))
    requires !Acceptable(g[current.dir].children, current.path, hashed)
    ensures !FullyHashed(g, root, hashed)
  {
    var c :| c in g[current.dir].children && !c.target.Directory?
        && !(c.target.File? && current.path + [c.name] in hashed);
    ChildIsReached(g, root, current, c);
  }

  /** A directory met a second time has two relative paths. */
  lemma SecondVisitMeansAlias(g: Graph, root: nat, hashed: set<Path>, visited: map<nat, Path>, pending: seq<Item>,
                              current: Item)
    requires Inv(g, root, hashed, visited, pending)
    requires current in pending && current.dir in visited
    ensures !FullyHashed(g, root, hashed)
  {
    assert Found(visited, pending, current) && Found(visited, pending, Item(visited[current.dir], current.dir));
    assert current.path != visited[current.dir];
  }

  lemma UnreadableMeansUnhashed(g: Graph, root: nat, hashed: set<Path>, current: Item)
    requires Walk(g, root, current.path) == Some(Directory(current.dir))
    requires !(current.dir in g && g[current.dir].Readable?)
    ensures !FullyHashed(g, root, hashed)
  {
  }

  /** One directory's children: the subdirectories join the worklist in order, and any other
      entry must be a listed file. */
  method QueueChildren(children: seq<Child>, path: Path, payload: set<Path>, allowed: set<Path>, queue: seq<Item>)
    returns (ok: bool, pending: seq<Item>)
    ensures ok <==> Acceptable(children, path, payload + allowed)
    ensures ok ==> pending == queue + Subdirectories(children, path)
  {
    pending := queue;
    var index := 0;
    while index < |children|
      invariant index <= |children|
      invariant pending == queue + Subdirectories(children[..index], path)
      invariant forall i :: 0 <= i < index ==>
        children[i].target.Directory? || (children[i].target.File? && path + [children[i].name] in payload + allowed)
    {
      var child := children[index];
      assert children[..index + 1][..index] == children[..index];
      match child.target {
        case Directory(id) =>
          pending := pending + [Item(path + [child.name], id)];
        case File =>
          if path + [child.name] !in payload && path + [child.name] !in allowed {
            return false, pending;
          }
        case Special => return false, pending;
        case Unresolved => return false, pending;
      }
      index := index + 1;
    }
    assert children[..index] == children;
    return true, pending;
  }

  /** The worklist terminates on every finite graph and accepts exactly the fully hashed trees. */
  method RequireHashedSourceTree(g: Graph, root: nat, payload: set<Path>, allowed: set<Path>) returns (ok: bool)
    requires ValidGraph(g) && root in g
    ensures ok <==> FullyHashed(g, root, payload + allowed)
  {
    ghost var hashed := payload + allowed;
    var pending := [Item([], root)];
    var visited: set<nat> := {};
    ghost var paths: map<nat, Path> := map[];
    InvAtStart(g, root, hashed);
    while |pending| > 0
      invariant visited == paths.Keys && visited <= g.Keys
      invariant Inv(g, root, hashed, paths, pending)
      invariant forall it :: it in pending ==> it.dir in g
      decreases g.Keys - visited
    {
      var current, rest := pending[|pending| - 1], pending[..|pending| - 1];
      assert pending == rest + [current] && Found(paths, pending, current);
      if current.dir in visited {
        SecondVisitMeansAlias(g, root, hashed, paths, pending, current);
        return false;
      }
      visited := visited + {current.dir};
      if g[current.dir].Unreadable? {
        UnreadableMeansUnhashed(g, root, hashed, current);
        return false;
      }
      var clean, queued := QueueChildren(g[current.dir].children, current.path, payload, allowed, rest);
      if !clean {
        ObjectionMeansUnhashed(g, root, hashed, current);
        return false;
      }
      Visiting(g, root, hashed, paths, rest, current);
      SubdirectoriesAre(g[current.dir].children, current.path);
      pending := queued;
      paths := paths[current.dir := current.path];
    }
    FinishedMeansHashed(g, root, hashed, paths);
    return true;
  }
}
