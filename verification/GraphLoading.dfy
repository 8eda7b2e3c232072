/**
 cmd/write-a/main.go: discovering the closure of .bst files from one root, and loading an
 explicit list of files into a sorted element graph.
 */
module GraphLoading {
  import opened ElementGraph
  import opened ElementNames
  import opened Ordering
  import opened Sequences
  import RootedPaths
  import opened TopoOrder

  datatype Loaded = Parsed(bst: BstFile) | Malformed

  /** The loader's view of the file system; the element root is empty when there is no project. */
  datatype Disk = Disk(files: map<string, Loaded>, elementRoot: string) {
    function Target(cur: string, fn: string): string {
      Resolve(elementRoot, cur, fn)
    }

    function NameOf(p: string): KeyResult {
      KeyOf(elementRoot, p)
    }
  }

  datatype LoadError =
    | LoadFailed(path: string)
    | JunctionUnsupported(path: string)
    | Dangling(path: string, target: string)
    | OutsideRoot(path: string)
    | DeclaredTwice(name: string)
    | InGraph(error: GraphError)

  datatype LoadResult<+T> = Done(value: T) | Failed(error: LoadError)

  // ------------------------------------------------------------- discoverBstGraph

  ghost predicate Edge(disk: Disk, p: string, q: string) {
    && p in disk.files && disk.files[p].Parsed?
    && exists fn :: Refers(disk.files[p].bst, fn) && disk.Target(p, fn) == q
  }

  ghost predicate IsWalk(disk: Disk, walk: seq<string>) {
    walk != [] && forall i | 0 <= i < |walk| - 1 :: Edge(disk, walk[i], walk[i + 1])
  }

  /** `p` can be reached from `root` along dependency references. */
  ghost predicate Reaches(disk: Disk, root: string, p: string) {
    exists walk :: IsWalk(disk, walk) && walk[0] == root && walk[|walk| - 1] == p
  }

  lemma ReachesSelf(disk: Disk, root: string)
    ensures Reaches(disk, root, root)
  {
    hide Resolve;
    assert IsWalk(disk, [root]);
  }

  lemma {:induction false} ReachesStep(disk: Disk, root: string, p: string, q: string)
    requires Reaches(disk, root, p) && Edge(disk, p, q)
    ensures Reaches(disk, root, q)
  {
    hide Resolve;
    var walk :| IsWalk(disk, walk) && walk[0] == root && walk[|walk| - 1] == p;
    assert IsWalk(disk, walk + [q]);
  }

  function AllDeps(bst: BstFile): seq<BstDep> {
    bst.depends + bst.buildDepends + bst.runtimeDepends
  }

  /** The file cannot be used: unreadable, behind a junction, or naming a file that is not there. */
  ghost predicate Faulty(disk: Disk, p: string) {
    || p !in disk.files
    || disk.files[p].Malformed?
    || (exists d :: d in AllDeps(disk.files[p].bst) && d.junction != "")
    || (exists fn :: Refers(disk.files[p].bst, fn) && disk.Target(p, fn) !in disk.files)
  }

  /** A set of files that contains the root and follows every reference contains all of the closure. */
  lemma {:induction false} ClosedUnderEdges(disk: Disk, root: string, s: set<string>, walk: seq<string>)
    requires root in s && forall p, q | p in s && Edge(disk, p, q) :: q in s
    requires IsWalk(disk, walk) && walk[0] == root
    ensures walk[|walk| - 1] in s
  {
    hide Resolve;
    var n := |walk| - 1;
    if n > 0 {
      ClosedUnderEdges(disk, root, s, walk[..n]);
      assert Edge(disk, walk[n - 1], walk[n]);
    }
  }

  lemma ClosureIsCovered(disk: Disk, root: string, s: set<string>)
    requires root in s && forall p, q | p in s && Edge(disk, p, q) :: q in s
    ensures forall p | Reaches(disk, root, p) :: p in s
  {
    hide Edge;
    forall p | Reaches(disk, root, p)
      ensures p in s
    {
      var walk :| IsWalk(disk, walk) && walk[0] == root && walk[|walk| - 1] == p;
      ClosedUnderEdges(disk, root, s, walk);
    }
  }

  /** Where a list of references leads from one file. */
  ghost function Images(disk: Disk, cur: string, fns: seq<string>): (s: set<string>)
    ensures forall fn | fn in fns :: disk.Target(cur, fn) in s
  {
    set fn | fn in fns :: disk.Target(cur, fn)
  }

  ghost predicate AllOnDisk(disk: Disk, cur: string, fns: seq<string>) {
    forall fn | fn in fns :: disk.Target(cur, fn) in disk.files
  }

  /** The queue grew by exactly the newly visited files, each once. */
  ghost predicate Advanced(visited0: set<string>, queue0: seq<string>, visited: set<string>, queue: seq<string>) {
    && queue0 <= queue
    && Distinct(queue[|queue0|..])
    && (forall q | q in queue[|queue0|..] :: q in visited && q !in visited0)
    && (forall q | q in visited && q !in visited0 :: q in queue[|queue0|..])
  }

  lemma AdvanceOne(visited0: set<string>, queue0: seq<string>, visited: set<string>, queue: seq<string>, q: string)
    requires Advanced(visited0, queue0, visited, queue) && visited0 <= visited && q !in visited
    ensures Advanced(visited0, queue0, visited + {q}, queue + [q])
  {
    assert (queue + [q])[|queue0|..] == queue[|queue0|..] + [q];
  }

  lemma ImagesAppend(disk: Disk, cur: string, a: seq<string>, b: seq<string>)
    ensures Images(disk, cur, a + b) == Images(disk, cur, a) + Images(disk, cur, b)
    ensures AllOnDisk(disk, cur, a + b) <==> AllOnDisk(disk, cur, a) && AllOnDisk(disk, cur, b)
  {
    assert forall fn :: fn in a + b <==> fn in a || fn in b;
  }

  /** enqueue for each expanded file name of one entry, until one is not on disk. */
  method FollowNames(disk: Disk, cur: string, fns: seq<string>,
                     ghost visited0: set<string>, ghost queue0: seq<string>,
                     visited1: set<string>, queue1: seq<string>)
    returns (missing: seq<string>, visited: set<string>, queue: seq<string>)
    requires Advanced(visited0, queue0, visited1, queue1) && visited0 <= visited1
    ensures missing == [] <==> AllOnDisk(disk, cur, fns)
    ensures missing != [] ==> missing[0] !in disk.files
    ensures missing == [] ==> visited == visited1 + Images(disk, cur, fns)
    ensures missing == [] ==> Advanced(visited0, queue0, visited, queue) && visited0 <= visited
  {
    hide Resolve;
    visited, queue := visited1, queue1;
    for j := 0 to |fns|
      invariant AllOnDisk(disk, cur, fns[..j])
      invariant visited == visited1 + Images(disk, cur, fns[..j])
      invariant Advanced(visited0, queue0, visited, queue) && visited0 <= visited
    {
      var depPath := disk.Target(cur, fns[j]);
      ImagesAppend(disk, cur, fns[..j], [fns[j]]);
      PrefixStep(fns, j);
      if depPath !in disk.files {
        assert fns[j] in fns;
        return [depPath], visited, queue;
      }
      if depPath !in visited {
        AdvanceOne(visited0, queue0, visited, queue, depPath);
        visited := visited + {depPath};
        queue := queue + [depPath];
      }
    }
    WholePrefix(fns);
    missing := [];
  }

  /** Enqueues every reference of one file, or reports the first entry that cannot be followed. */
  method Follow(disk: Disk, cur: string, deps: seq<BstDep>, visited0: set<string>, queue0: seq<string>)
    returns (r: LoadResult<()>, visited: set<string>, queue: seq<string>)
    ensures r.Done? <==> (forall d | d in deps :: d.junction == "") && AllOnDisk(disk, cur, References(deps))
    ensures r.Failed? ==> r.error.JunctionUnsupported? || r.error.Dangling?
    ensures r.Done? ==> visited == visited0 + Images(disk, cur, References(deps))
    ensures r.Done? ==> Advanced(visited0, queue0, visited, queue)
  {
    hide Resolve;
    visited, queue := visited0, queue0;
    for i := 0 to |deps|
      invariant forall d | d in deps[..i] :: d.junction == ""
      invariant AllOnDisk(disk, cur, References(deps[..i]))
      invariant visited == visited0 + Images(disk, cur, References(deps[..i]))
      invariant Advanced(visited0, queue0, visited, queue) && visited0 <= visited
    {
      var dep := deps[i];
      ReferencesStep(deps, i);
      ImagesAppend(disk, cur, References(deps[..i]), dep.ExpandedFilenames());
      if dep.junction != "" {
        assert dep in deps;
        return Failed(JunctionUnsupported(cur)), visited, queue;
      }
      var missing;
      missing, visited, queue := FollowNames(disk, cur, dep.ExpandedFilenames(), visited0, queue0, visited, queue);
      if missing != [] {
        ReferencesInclude(deps, i);
        return Failed(Dangling(cur, missing[0])), visited, queue;
      }
    }
    WholePrefix(deps);
    r := Done(());
  }

  /** Every visited file is either loaded already or waiting, never both, never twice. */
  ghost predicate Frontier(loads: seq<string>, queue: seq<string>, visited: set<string>) {
    && Distinct(loads) && Distinct(queue)
    && (forall p | p in loads :: p in visited && p !in queue)
    && (forall p | p in queue :: p in visited)
    && (forall p | p in visited :: p in loads || p in queue)
  }

  lemma FrontierPops(loads: seq<string>, queue: seq<string>, visited: set<string>)
    requires Frontier(loads, queue, visited) && queue != []
    ensures Frontier(loads + [queue[0]], queue[1..], visited)
  {
    assert queue == [queue[0]] + queue[1..];
    DistinctAppend(loads, [queue[0]]);
  }

  lemma FrontierGrows(loads: seq<string>, queue: seq<string>, visited: set<string>,
                      queue': seq<string>, visited': set<string>)
    requires Frontier(loads, queue, visited) && Advanced(visited, queue, visited', queue') && visited <= visited'
    ensures Frontier(loads, queue', visited')
    ensures |visited| < |visited'| || (visited' == visited && queue' == queue)
  {
    SubsetSize(visited, visited');
    assert |queue'| > |queue| ==> queue'[|queue|] in queue'[|queue|..];
    assert queue' == queue + queue'[|queue|..];
    DistinctAppend(queue, queue'[|queue|..]);
  }

  lemma {:induction false} AllReached(disk: Disk, root: string, cur: string, visited: set<string>, visited': set<string>)
    requires Reaches(disk, root, cur) && cur in disk.files && disk.files[cur].Parsed?
    requires forall p | p in visited :: Reaches(disk, root, p)
    requires visited' == visited + Images(disk, cur, AllReferences(disk.files[cur].bst))
    ensures forall p | p in visited' :: Reaches(disk, root, p)
  {
    hide Resolve;
    forall q | q in visited' && q !in visited
      ensures Reaches(disk, root, q)
    {
      assert Edge(disk, cur, q);
      ReachesStep(disk, root, cur, q);
    }
  }

  lemma PartsOfFile(bst: BstFile)
    ensures References(AllDeps(bst)) == AllReferences(bst)
  {
    ReferencesAppend(bst.depends, bst.buildDepends);
    ReferencesAppend(bst.depends + bst.buildDepends, bst.runtimeDepends);
  }

  lemma Unusable(disk: Disk, p: string)
    ensures p !in disk.files || disk.files[p].Malformed? ==> Faulty(disk, p)
  {
  }

  /** A file is sound exactly when its references can be followed, and then they lead where its edges do. */
  lemma Followed(disk: Disk, cur: string)
    requires cur in disk.files && disk.files[cur].Parsed?
    ensures var deps := AllDeps(disk.files[cur].bst);
      && (Faulty(disk, cur) <==>
            !((forall d | d in deps :: d.junction == "") && AllOnDisk(disk, cur, AllReferences(disk.files[cur].bst))))
      && forall q :: Edge(disk, cur, q) <==> q in Images(disk, cur, AllReferences(disk.files[cur].bst))
  {
    hide Resolve, AllReferences;
    ReferencesAre(disk.files[cur].bst);
  }

  /**
   discoverBstGraph.  On success: exactly the files reachable from the root, sorted, each
   loaded once.  It fails exactly when some reachable file is faulty.
   */
  method DiscoverBstGraph(disk: Disk, root: string) returns (r: LoadResult<seq<string>>, ghost loads: seq<string>)
    ensures r.Done? <==> forall p | Reaches(disk, root, p) :: !Faulty(disk, p)
    ensures r.Done? ==> StrictlySorted(r.value) && forall p :: p in r.value <==> Reaches(disk, root, p)
    ensures Distinct(loads) && (r.Done? ==> forall p :: p in loads <==> p in r.value)
  {
    hide Resolve, Reaches, Edge, Faulty, References, AllReferences, Advanced;
    var visited, queue := {root}, [root];
    loads := [];
    ReachesSelf(disk, root);
    while queue != []
      invariant root in visited && visited <= disk.files.Keys + {root}
      invariant Frontier(loads, queue, visited)
      invariant forall p | p in visited :: Reaches(disk, root, p)
      invariant forall p | p in loads :: !Faulty(disk, p)
      invariant forall p, q | p in loads && Edge(disk, p, q) :: q in visited
      decreases |disk.files.Keys + {root}| - |visited|, |queue|
    {
      var cur := queue[0];
      assert cur in visited;
      SubsetSize(visited, disk.files.Keys + {root});
      loads := loads + [cur];
      assert loads[..|loads| - 1] + [cur] == loads;
      if cur !in disk.files || disk.files[cur].Malformed? {
        Unusable(disk, cur);
        FrontierPops(loads[..|loads| - 1], queue, visited);
        return Failed(LoadFailed(cur)), loads;
      }
      var deps := AllDeps(disk.files[cur].bst);
      PartsOfFile(disk.files[cur].bst);
      Followed(disk, cur);
      FrontierPops(loads[..|loads| - 1], queue, visited);
      var step, visited', queue' := Follow(disk, cur, deps, visited, queue[1..]);
      if step.Failed? {
        return Failed(step.error), loads;
      }
      FrontierGrows(loads, queue[1..], visited, queue', visited');
      AllReached(disk, root, cur, visited, visited');
      SubsetSize(visited', disk.files.Keys + {root});
      visited, queue := visited', queue';
    }
    ClosureIsCovered(disk, root, visited);
    var paths := SortedKeys(visited);
    r := Done(paths);
  }

  // ------------------------------------------------------------- loadGraph

  /** The element was made from that file: parsed, keyed by the file's element name, not wired yet. */
  ghost predicate MadeFrom(disk: Disk, path: string, e: Element) {
    && path in disk.files && disk.files[path].Parsed?
    && disk.NameOf(path) == Key(e.name)
    && e.bst == disk.files[path].bst
  }

  ghost predicate TableOf(elems: seq<Element>, byName: map<string, Element>) {
    && DistinctNames(elems)
    && (forall e | e in elems :: e.name in byName && byName[e.name] == e)
    && (forall n | n in byName :: byName[n] in elems && byName[n].name == n)
  }

  /** The loading loop of loadGraph: one fresh element per path, names kept unique. */
  method LoadElements(disk: Disk, paths: seq<string>)
    returns (r: LoadResult<()>, elems: seq<Element>, byName: map<string, Element>)
    ensures fresh(elems)
    ensures r.Done? ==> TableOf(elems, byName) && Distinct(elems)
    ensures r.Done? ==> |elems| == |paths| && forall i | 0 <= i < |paths| :: MadeFrom(disk, paths[i], elems[i])
    ensures r.Done? ==> forall e | e in elems :: e.deps == [] && e.buildDeps == []
    ensures r.Failed? ==> match r.error
      case LoadFailed(p) => p in paths && (p !in disk.files || disk.files[p].Malformed?)
      case OutsideRoot(p) => p in paths && disk.NameOf(p) == Outside
      case DeclaredTwice(n) => exists i, j | 0 <= i < j < |paths| ::
        disk.NameOf(paths[i]) == Key(n) && disk.NameOf(paths[j]) == Key(n)
      case _ => false
  {
    hide KeyOf;
    elems, byName := [], map[];
    for i := 0 to |paths|
      invariant fresh(elems) && |elems| == i
      invariant TableOf(elems, byName) && Distinct(elems)
      invariant forall k | 0 <= k < i :: MadeFrom(disk, paths[k], elems[k])
      invariant forall e | e in elems :: e.deps == [] && e.buildDeps == []
    {
      var p := paths[i];
      assert p in paths;
      if p !in disk.files || disk.files[p].Malformed? {
        return Failed(LoadFailed(p)), elems, byName;
      }
      var key := disk.NameOf(p);
      if key == Outside {
        return Failed(OutsideRoot(p)), elems, byName;
      }
      if key.name in byName {
        var k :| 0 <= k < |elems| && elems[k] == byName[key.name];
        assert disk.NameOf(paths[k]) == Key(key.name) && disk.NameOf(paths[i]) == Key(key.name);
        return Failed(DeclaredTwice(key.name)), elems, byName;
      }
      var e := new Element(key.name, disk.files[p].bst);
      byName := byName[key.name := e];
      elems := elems + [e];
    }
    r := Done(());
  }

  /** `fn` is a reference of one of the files. */
  ghost predicate Mentions(disk: Disk, paths: seq<string>, p: string, fn: string) {
    p in paths && p in disk.files && disk.files[p].Parsed? && Refers(disk.files[p].bst, fn)
  }

  /** Every reference leads to a listed file. */
  ghost predicate ClosedList(disk: Disk, paths: seq<string>) {
    forall p, fn | Mentions(disk, paths, p, fn) :: disk.Target(p, fn) in paths
  }

  ghost predicate AllClean(disk: Disk, paths: seq<string>) {
    forall p, fn | Mentions(disk, paths, p, fn) :: CleanReference(disk.elementRoot, fn)
  }

  /** The element root is a directory, not one of the files. */
  ghost predicate RootIsNoFile(disk: Disk, paths: seq<string>) {
    forall p | p in paths :: RootedPaths.Segments(p) != RootedPaths.Segments(disk.elementRoot)
  }

  ghost predicate NoJunctions(disk: Disk, paths: seq<string>) {
    forall p, d | p in paths && p in disk.files && disk.files[p].Parsed? && d in AllDeps(disk.files[p].bst) ::
      d.junction == ""
  }

  lemma PartsResolvable(disk: Disk, p: string, bst: BstFile, byName: map<string, Element>)
    requires forall d | d in AllDeps(bst) :: d.junction == ""
    requires forall fn | fn in AllReferences(bst) :: TrimBst(fn) in byName
    ensures AllResolvable(byName, bst)
  {
    assert forall d | d in bst.depends :: d in AllDeps(bst);
    assert forall d | d in bst.buildDepends :: d in AllDeps(bst);
    assert forall d | d in bst.runtimeDepends :: d in AllDeps(bst);
    assert forall fn | fn in References(bst.depends) :: fn in AllReferences(bst);
    assert forall fn | fn in References(bst.buildDepends) :: fn in AllReferences(bst);
    assert forall fn | fn in References(bst.runtimeDepends) :: fn in AllReferences(bst);
  }

  /** Clean references of a closed list are names in the table. */
  lemma CleanResolves(disk: Disk, paths: seq<string>, elems: seq<Element>, byName: map<string, Element>)
    requires TableOf(elems, byName) && |elems| == |paths|
    requires forall i | 0 <= i < |paths| :: MadeFrom(disk, paths[i], elems[i])
    requires ClosedList(disk, paths) && AllClean(disk, paths) && NoJunctions(disk, paths)
    ensures forall e | e in elems :: AllResolvable(byName, e.bst)
  {
    forall e | e in elems
      ensures AllResolvable(byName, e.bst)
    {
      var i :| 0 <= i < |elems| && elems[i] == e;
      var p := paths[i];
      assert MadeFrom(disk, p, e);
      forall fn | fn in AllReferences(e.bst)
        ensures TrimBst(fn) in byName
      {
        assert Mentions(disk, paths, p, fn);
        ReferenceExact(disk.elementRoot, p, fn);
        var k :| 0 <= k < |paths| && paths[k] == disk.Target(p, fn);
        assert MadeFrom(disk, paths[k], elems[k]);
        assert elems[k] in elems;
      }
      PartsResolvable(disk, p, e.bst, byName);
    }
  }

  lemma ReferencesResolve(byName: map<string, Element>, bst: BstFile, fn: string)
    requires AllResolvable(byName, bst) && fn in AllReferences(bst)
    ensures TrimBst(fn) in byName
  {
  }

  /** A table of listed files that resolves every reference holds only clean references. */
  lemma ResolvesClean(disk: Disk, paths: seq<string>, elems: seq<Element>, byName: map<string, Element>)
    requires TableOf(elems, byName) && |elems| == |paths| && RootIsNoFile(disk, paths)
    requires forall i | 0 <= i < |paths| :: MadeFrom(disk, paths[i], elems[i])
    requires forall e | e in elems :: AllResolvable(byName, e.bst)
    ensures AllClean(disk, paths)
  {
    forall p, fn | Mentions(disk, paths, p, fn)
      ensures CleanReference(disk.elementRoot, fn)
    {
      var i :| 0 <= i < |paths| && paths[i] == p;
      assert MadeFrom(disk, p, elems[i]) && elems[i] in elems;
      ReferencesResolve(byName, elems[i].bst, fn);
      var target := byName[TrimBst(fn)];
      var k :| 0 <= k < |elems| && elems[k] == target;
      assert MadeFrom(disk, paths[k], target);
      if !CleanReference(disk.elementRoot, fn) {
        UncleanIsNoName(disk.elementRoot, paths[k], fn);
      }
    }
  }

  lemma ReferencesDecide(disk: Disk, paths: seq<string>, elems: seq<Element>, byName: map<string, Element>)
    requires TableOf(elems, byName) && |elems| == |paths|
    requires forall i | 0 <= i < |paths| :: MadeFrom(disk, paths[i], elems[i])
    ensures ClosedList(disk, paths) && AllClean(disk, paths) && NoJunctions(disk, paths) ==>
      forall e | e in elems :: AllResolvable(byName, e.bst)
    ensures RootIsNoFile(disk, paths) && (forall e | e in elems :: AllResolvable(byName, e.bst)) ==>
      AllClean(disk, paths)
  {
    if ClosedList(disk, paths) && AllClean(disk, paths) && NoJunctions(disk, paths) {
      CleanResolves(disk, paths, elems, byName);
    }
    if RootIsNoFile(disk, paths) && forall e | e in elems :: AllResolvable(byName, e.bst) {
      ResolvesClean(disk, paths, elems, byName);
    }
  }

  predicate IsCycleError(r: LoadResult<seq<Element>>) {
    r.Failed? && r.error.InGraph? && r.error.error.DependencyCycle?
  }

  /** The second half of loadGraph, on loaded elements: it gets as far as the sort exactly when every reference resolves. */
  method WireAndSort(elems: seq<Element>, byName: map<string, Element>) returns (r: LoadResult<seq<Element>>)
    requires TableOf(elems, byName) && Distinct(elems) && forall e | e in elems :: e.deps == [] && e.buildDeps == []
    modifies elems
    ensures r.Failed? ==> r.error.InGraph?
    ensures r.Done? || IsCycleError(r) <==> forall e | e in elems :: AllResolvable(byName, e.bst)
    ensures r.Done? ==> IsTopoOrder(GraphOf(elems), r.value)
    ensures r.Done? ==> forall t: seq<Element> | IsTopoOrder(GraphOf(elems), t) :: NamesAtMost(GraphOf(elems), r.value, t)
    ensures IsCycleError(r) ==> exists c: seq<Element> :: IsCycle(GraphOf(elems), c)
  {
    var wiring := ResolveDependencies(elems, byName);
    if wiring.Fail? {
      return Failed(InGraph(wiring.error));
    }
    WiredIsClosed(elems, byName);
    var sorted := TopoSort(elems);
    r := match sorted case Ok(order) => Done(order) case Err(e) => Failed(InGraph(e));
  }

  /**
   loadGraph.  `loaded` lists the elements in input order; on success the value is their least
   topological order.  References matter only by being clean: with clean references in a closed
   list the one graph error left is a cycle, and nothing but clean references gets that far.
   */
  method LoadGraph(disk: Disk, paths: seq<string>)
    returns (r: LoadResult<seq<Element>>, ghost loaded: seq<Element>)
    ensures r.Done? || (r.Failed? && r.error.InGraph?) ==>
      && |loaded| == |paths| && DistinctNames(loaded)
      && forall i | 0 <= i < |paths| :: MadeFrom(disk, paths[i], loaded[i])
    ensures r.Done? ==> IsTopoOrder(GraphOf(loaded), r.value)
    ensures r.Done? ==> forall t: seq<Element> | IsTopoOrder(GraphOf(loaded), t) ::
      NamesAtMost(GraphOf(loaded), r.value, t)
    ensures IsCycleError(r) ==> exists c: seq<Element> :: IsCycle(GraphOf(loaded), c)
    ensures r.Failed? && r.error.InGraph? && ClosedList(disk, paths) && AllClean(disk, paths) && NoJunctions(disk, paths) ==>
      IsCycleError(r)
    ensures (r.Done? || IsCycleError(r)) && RootIsNoFile(disk, paths) ==> AllClean(disk, paths)
  {
    hide KeyOf, Resolve, CleanReference;
    var step, elems, byName := LoadElements(disk, paths);
    loaded := elems;
    if step.Failed? {
      return Failed(step.error), loaded;
    }
    ReferencesDecide(disk, paths, elems, byName);
    r := WireAndSort(elems, byName);
  }

  /**
   Discovery feeds loading: the discovered list is closed, and has no junction and no unreadable
   file left for loadGraph to trip over; every reference is keyed by its own text if and only if
   all references are clean.
   */
  lemma {:induction false} DiscoveredIsLoadable(disk: Disk, root: string, paths: seq<string>)
    requires forall p | Reaches(disk, root, p) :: !Faulty(disk, p)
    requires forall p :: p in paths <==> Reaches(disk, root, p)
    ensures ClosedList(disk, paths) && NoJunctions(disk, paths)
    ensures forall p | p in paths :: p in disk.files && disk.files[p].Parsed?
    ensures (forall p, fn | Mentions(disk, paths, p, fn) :: disk.NameOf(disk.Target(p, fn)) == Key(TrimBst(fn)))
      <==> AllClean(disk, paths)
  {
    forall p, fn | Mentions(disk, paths, p, fn)
      ensures disk.Target(p, fn) in paths
      ensures disk.NameOf(disk.Target(p, fn)) == Key(TrimBst(fn)) <==> CleanReference(disk.elementRoot, fn)
    {
      assert Edge(disk, p, disk.Target(p, fn));
      ReachesStep(disk, root, p, disk.Target(p, fn));
      ReferenceExact(disk.elementRoot, p, fn);
    }
    forall p | p in paths
      ensures p in disk.files && disk.files[p].Parsed?
      ensures forall d | d in AllDeps(disk.files[p].bst) :: d.junction == ""
    {
      assert Reaches(disk, root, p) && !Faulty(disk, p);
    }
  }

  // ------------------------------------------------------------- a concrete project

  const FILE_A := "/p/a.bst"
  const FILE_B := "/p/b.bst"

  function Depending(fn: string): BstFile {
    BstFile([BstDep(fn, [], "")], [], [])
  }

  /** Two elements below /p; the first depends on the second as `./b.bst`. */
  function DottedProject(): Disk {
    Disk(map[FILE_A := Parsed(Depending("./b.bst")), FILE_B := Parsed(BstFile([], [], []))], "/p")
  }

  /** A file that mentions one other file, which mentions none. */
  ghost predicate Chain(disk: Disk, a: string, fn: string, b: string) {
    && a in disk.files && disk.files[a].Parsed? && b in disk.files && disk.files[b].Parsed?
    && (forall x :: Refers(disk.files[a].bst, x) <==> x == fn) && (forall x :: !Refers(disk.files[b].bst, x))
    && (forall d | d in AllDeps(disk.files[a].bst) :: d.junction == "")
    && AllDeps(disk.files[b].bst) == [] && disk.Target(a, fn) == b
  }

  lemma ChainIsDiscovered(disk: Disk, a: string, fn: string, b: string)
    requires Chain(disk, a, fn, b) && a != b
    ensures Reaches(disk, a, b)
    ensures forall p | Reaches(disk, a, p) :: p in {a, b} && !Faulty(disk, p)
  {
    hide Resolve, Refers, AllReferences, References;
    forall p | Reaches(disk, a, p)
      ensures p in {a, b}
    {
      var walk :| IsWalk(disk, walk) && walk[0] == a && walk[|walk| - 1] == p;
      ClosedUnderEdges(disk, a, {a, b}, walk);
    }
    ReachesSelf(disk, a);
    assert Edge(disk, a, b) by {
      assert Refers(disk.files[a].bst, fn);
    }
    ReachesStep(disk, a, a, b);
  }

  lemma DependingMentions(fn: string)
    requires fn != ""
    ensures forall x :: Refers(Depending(fn), x) <==> x == fn
    ensures AllDeps(Depending(fn)) == [BstDep(fn, [], "")]
  {
    var d := BstDep(fn, [], "");
    assert d in Depending(fn).depends && NamedBy(d, fn);
  }

  lemma ProjectChain(disk: Disk, a: string, fn: string, b: string)
    requires disk.files == map[a := Parsed(Depending(fn)), b := Parsed(BstFile([], [], []))]
    requires a != b && fn != "" && disk.Target(a, fn) == b
    ensures Chain(disk, a, fn, b)
  {
    hide Resolve;
    DependingMentions(fn);
  }

  lemma DottedChain()
    ensures Chain(DottedProject(), FILE_A, "./b.bst", FILE_B) && FILE_A != FILE_B
  {
    hide Resolve, Chain;
    assert FILE_A[3] != FILE_B[3];
    DottedReference(FILE_A);
    ProjectChain(DottedProject(), FILE_A, "./b.bst", FILE_B);
  }

  /** Discovery accepts the project and lists both files, but no file is keyed by the name the reference asks for. */
  lemma DottedProjectIsDiscovered()
    ensures Reaches(DottedProject(), FILE_A, FILE_B)
    ensures forall p | Reaches(DottedProject(), FILE_A, p) :: p in {FILE_A, FILE_B} && !Faulty(DottedProject(), p)
    ensures forall p | RootedPaths.Segments(p) != RootedPaths.Segments("/p") ::
      DottedProject().NameOf(p) != Key(TrimBst("./b.bst"))
  {
    DottedChain();
    ChainIsDiscovered(DottedProject(), FILE_A, "./b.bst", FILE_B);
    forall p | RootedPaths.Segments(p) != RootedPaths.Segments("/p")
      ensures DottedProject().NameOf(p) != Key(TrimBst("./b.bst"))
    {
      DottedReference(p);
      UncleanIsNoName("/p", p, "./b.bst");
    }
  }
}
