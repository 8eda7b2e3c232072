/**
 cmd/write-a/main.go: dependency wiring and the name-stable Kahn sort over mutable elements.
 */
module ElementGraph {
  import opened ElementNames
  import opened Ordering
  import opened Sequences
  import opened TopoOrder

  /** One entry of a depends list: exactly one of `filename`, `filenames` is populated. */
  datatype BstDep = BstDep(filename: string, filenames: seq<string>, junction: string) {
    function ExpandedFilenames(): seq<string> {
      if filenames != [] then filenames
      else if filename != "" then [filename]
      else []
    }
  }

  datatype BstFile = BstFile(depends: seq<BstDep>, buildDepends: seq<BstDep>, runtimeDepends: seq<BstDep>)

  class Element {
    const name: string
    const bst: BstFile
    var deps: seq<Element>
    var buildDeps: seq<Element>

    constructor (name: string, bst: BstFile)
      ensures this.name == name && this.bst == bst && deps == [] && buildDeps == []
    {
      this.name := name;
      this.bst := bst;
      deps := [];
      buildDeps := [];
    }
  }

  datatype GraphError =
    | UnsupportedJunction(element: string, junction: string)
    | NotInGraph(element: string, dep: string)
    | DependencyCycle(size: nat)

  datatype Result<+T> = Ok(value: T) | Err(error: GraphError)

  // ------------------------------------------------------------- topoSort

  ghost predicate DistinctNames(elems: seq<Element>) {
    forall i, j | 0 <= i < j < |elems| :: elems[i].name != elems[j].name
  }

  ghost function GraphOf(elems: seq<Element>): (g: Graph<Element>)
    requires DistinctNames(elems)
    reads elems
    ensures WellFormed(g)
  {
    Graph(set e | e in elems, map e | e in elems :: e.deps, map e | e in elems :: e.name)
  }

  /** How many entries of a dependency list (counted with repeats) are not emitted yet. */
  function Pending<T(==)>(deps: seq<T>, done: seq<T>): nat {
    if deps == [] then 0
    else Pending(deps[..|deps| - 1], done) + if deps[|deps| - 1] in done then 0 else 1
  }

  lemma {:induction false} PendingZero<T>(deps: seq<T>, done: seq<T>)
    ensures Pending(deps, done) == 0 <==> forall d | d in deps :: d in done
  {
    if deps != [] {
      PendingZero(deps[..|deps| - 1], done);
      assert deps == deps[..|deps| - 1] + [deps[|deps| - 1]];
    }
  }

  /** The part of `deps` from `j` on, still counted against `done`. */
  function PendingFrom<T(==)>(deps: seq<T>, done: seq<T>, j: nat): nat
    requires j <= |deps|
    decreases |deps| - j
  {
    if j == |deps| then 0
    else (if deps[j] in done then 0 else 1) + PendingFrom(deps, done, j + 1)
  }

  lemma {:induction false} PendingSplit<T>(deps: seq<T>, done: seq<T>, j: nat)
    requires j <= |deps|
    ensures Pending(deps, done) == Pending(deps[..j], done) + PendingFrom(deps, done, j)
    decreases |deps| - j
  {
    if j == |deps| {
      assert deps[..j] == deps;
    } else {
      PendingSplit(deps, done, j + 1);
      PrefixStep(deps, j);
    }
  }

  /** The inner loop of the sort for one dependent: one decrement per edge `e -> other`. */
  method Release(other: Element, deps: seq<Element>, e: Element,
                 indeg0: map<Element, int>, ready0: seq<Element>, ghost done: seq<Element>)
    returns (indeg: map<Element, int>, ready: seq<Element>)
    requires other in indeg0 && indeg0[other] == Pending(deps, done) && e !in done
    ensures indeg == indeg0[other := Pending(deps, done + [e])]
    ensures ready == if e in deps && Pending(deps, done + [e]) == 0 then ready0 + [other] else ready0
  {
    indeg, ready := indeg0, ready0;
    ghost var now := done + [e];
    PendingSplit(deps, done, 0);
    for j := 0 to |deps|
      invariant indeg == indeg0[other := Pending(deps[..j], now) + PendingFrom(deps, done, j)]
      invariant ready == if e in deps[..j] && indeg[other] == 0 then ready0 + [other] else ready0
    {
      PrefixStep(deps, j);
      if deps[j] == e {
        indeg := indeg[other := indeg[other] - 1];
        if indeg[other] == 0 {
          ready := ready + [other];
        }
      }
    }
    WholePrefix(deps);
  }

  predicate SortedByName(s: seq<Element>) {
    forall i, j | 0 <= i < j < |s| :: Less(s[i].name, s[j].name)
  }

  function InsertByName(e: Element, s: seq<Element>): (r: seq<Element>)
    requires SortedByName(s) && forall x | x in s :: x.name != e.name
    ensures SortedByName(r)
    ensures (forall x | x in r :: x == e || x in s) && e in r && forall x | x in s :: x in r
  {
    if s == [] then [e]
    else
      assert s == [s[0]] + s[1..];
      LessTotal(e.name, s[0].name);
      if Less(e.name, s[0].name) then
        assert forall i | 0 < i < |s| :: Less(e.name, s[i].name) by {
          forall i | 0 < i < |s| { LessTransitive(e.name, s[0].name, s[i].name); }
        }
        [e] + s
      else
        var rest := InsertByName(e, s[1..]);
        assert forall i | 0 <= i < |rest| :: rest[i] in rest;
        [s[0]] + rest
  }

  /** sort.Slice by name on a list of elements with different names. */
  function SortByName(s: seq<Element>): (r: seq<Element>)
    requires DistinctNames(s)
    ensures SortedByName(r)
    ensures (forall x | x in r :: x in s) && forall x | x in s :: x in r
  {
    if s == [] then []
    else
      assert s == s[..|s| - 1] + [s[|s| - 1]];
      InsertByName(s[|s| - 1], SortByName(s[..|s| - 1]))
  }

  ghost predicate ReadyNow(g: Graph<Element>, done: seq<Element>, ready: seq<Element>)
    requires WellFormed(g)
  {
    && (forall x | x in ready :: IsReady(g, done, x))
    && (forall x | x in g.nodes && IsReady(g, done, x) :: x in ready)
    && SortedByName(ready)
  }

  ghost predicate Counts(g: Graph<Element>, done: seq<Element>, indeg: map<Element, int>)
    requires WellFormed(g)
  {
    indeg.Keys == g.nodes && forall x | x in g.nodes :: indeg[x] == Pending(g.deps[x], done)
  }

  lemma NodeCount(elems: seq<Element>)
    requires Distinct(elems)
    ensures |set e | e in elems| == |elems|
  {
    DistinctSet(elems);
  }

  lemma GreedyExtends<T>(g: Graph<T>, out: seq<T>, e: T)
    requires WellFormed(g) && IsGreedyRun(g, out) && IsLeastReady(g, out, e)
    ensures IsGreedyRun(g, out + [e]) && |out| < |g.nodes|
  {
    var longer := out + [e];
    forall k | 0 <= k < |longer|
      ensures IsLeastReady(g, longer[..k], longer[k])
    {
      assert longer[..k] == if k < |out| then out[..k] else out;
    }
    GreedyRunShape(g, longer);
    FullLength(g, longer);
  }

  /** The head of the sorted ready list is the greedy choice. */
  lemma TakeLeast(g: Graph<Element>, out: seq<Element>, ready: seq<Element>)
    requires WellFormed(g) && IsGreedyRun(g, out) && ReadyNow(g, out, ready) && ready != []
    requires forall x | x in g.nodes :: g.name[x] == x.name
    ensures ready[0] !in out && ReadyNow(g, out, [ready[0]] + ready[1..])
    ensures IsGreedyRun(g, out + [ready[0]]) && |out| < |g.nodes|
  {
    assert [ready[0]] + ready[1..] == ready;
    assert ready[0] in ready;
    forall y | y in g.nodes && IsReady(g, out, y)
      ensures y == ready[0] || Less(g.name[ready[0]], g.name[y])
    {
      assert y in ready;
    }
    GreedyExtends(g, out, ready[0]);
  }

  /** The inner counting loop: one for every dependency entry of `e`. */
  method CountEntries(e: Element, indeg0: map<Element, int>) returns (indeg: map<Element, int>)
    requires e in indeg0
    ensures indeg == indeg0[e := indeg0[e] + |e.deps|]
  {
    indeg := indeg0;
    for j := 0 to |e.deps|
      invariant indeg == indeg0[e := indeg0[e] + j]
    {
      indeg := indeg[e := indeg[e] + 1];
    }
  }

  method ZeroDegrees(elems: seq<Element>) returns (indeg: map<Element, int>)
    ensures indeg.Keys == set e | e in elems
    ensures forall e | e in indeg :: indeg[e] == 0
  {
    indeg := map[];
    for i := 0 to |elems|
      invariant forall e :: e in indeg <==> e in elems[..i]
      invariant forall e | e in indeg :: indeg[e] == 0
    {
      PrefixStep(elems, i);
      indeg := indeg[elems[i] := 0];
    }
    WholePrefix(elems);
  }

  lemma {:induction false} PendingAll<T>(deps: seq<T>)
    ensures Pending(deps, []) == |deps|
  {
    if deps != [] {
      PendingAll(deps[..|deps| - 1]);
    }
  }

  /** The counting loops: indeg[e] starts at 0 and gains one per dependency entry. */
  method InDegrees(elems: seq<Element>, ghost g: Graph<Element>) returns (indeg: map<Element, int>)
    requires Distinct(elems) && DistinctNames(elems) && g == GraphOf(elems)
    ensures Counts(g, [], indeg) && g == GraphOf(elems)
  {
    indeg := ZeroDegrees(elems);
    for i := 0 to |elems|
      invariant indeg.Keys == g.nodes
      invariant forall k | 0 <= k < |elems| :: indeg[elems[k]] == if k < i then |g.deps[elems[k]]| else 0
    {
      indeg := CountEntries(elems[i], indeg);
    }
    forall x | x in elems
      ensures indeg[x] == Pending(g.deps[x], [])
    {
      var k :| 0 <= k < |elems| && elems[k] == x;
      PendingAll(g.deps[x]);
    }
  }

  /** The elements whose in-degree is already zero, in input order. */
  method SourcesOf(elems: seq<Element>, indeg: map<Element, int>, ghost g: Graph<Element>)
    returns (ready: seq<Element>)
    requires Distinct(elems) && DistinctNames(elems) && g == GraphOf(elems) && Counts(g, [], indeg)
    ensures DistinctNames(ready) && g == GraphOf(elems)
    ensures forall x :: x in ready <==> x in elems && IsReady(g, [], x)
  {
    ready := [];
    for i := 0 to |elems|
      invariant DistinctNames(ready)
      invariant forall x :: x in ready <==> x in elems[..i] && indeg[x] == 0
    {
      PrefixStep(elems, i);
      if indeg[elems[i]] == 0 {
        assert forall x | x in ready :: x.name != elems[i].name;
        ready := ready + [elems[i]];
      }
    }
    WholePrefix(elems);
    forall x | x in elems
      ensures indeg[x] == 0 <==> IsReady(g, [], x)
    {
      PendingZero(g.deps[x], []);
    }
  }

  ghost predicate CountsSettled(g: Graph<Element>, elems: seq<Element>, i: nat, e: Element, out: seq<Element>,
                                indeg: map<Element, int>)
    requires WellFormed(g) && g.nodes == (set x | x in elems) && i <= |elems|
  {
    && indeg.Keys == g.nodes
    && (forall k | 0 <= k < i :: indeg[elems[k]] == Pending(g.deps[elems[k]], out + [e]))
    && (forall k | i <= k < |elems| :: indeg[elems[k]] == Pending(g.deps[elems[k]], out))
  }

  /** `x` waits for `e` and, once `e` is out, for nothing else. */
  ghost predicate FreedBy(g: Graph<Element>, x: Element, e: Element, now: seq<Element>)
    requires x in g.deps
  {
    e in g.deps[x] && Pending(g.deps[x], now) == 0
  }

  ghost predicate ReadySettled(g: Graph<Element>, elems: seq<Element>, i: nat, e: Element, out: seq<Element>,
                               ready0: seq<Element>, ready: seq<Element>)
    requires WellFormed(g) && g.nodes == (set x | x in elems) && i <= |elems|
  {
    && DistinctNames(ready)
    && (forall x | x in ready :: x in elems && (x in ready0 || (x in elems[..i] && FreedBy(g, x, e, out + [e]))))
    && (forall x | x in ready0 :: x in ready)
    && (forall x | x in elems[..i] && FreedBy(g, x, e, out + [e]) :: x in ready)
  }

  /** Half-way through the release loop: the first `i` elements have been settled. */
  ghost predicate Releasing(g: Graph<Element>, elems: seq<Element>, i: nat, e: Element, out: seq<Element>,
                            ready0: seq<Element>, indeg: map<Element, int>, ready: seq<Element>)
    requires WellFormed(g) && g.nodes == (set x | x in elems) && i <= |elems|
  {
    CountsSettled(g, elems, i, e, out, indeg) && ReadySettled(g, elems, i, e, out, ready0, ready)
  }

  lemma CountsStep(g: Graph<Element>, elems: seq<Element>, i: nat, e: Element, out: seq<Element>,
                   indeg: map<Element, int>)
    requires WellFormed(g) && g.nodes == (set x | x in elems) && i < |elems| && Distinct(elems)
    requires CountsSettled(g, elems, i, e, out, indeg)
    ensures CountsSettled(g, elems, i + 1, e, out, indeg[elems[i] := Pending(g.deps[elems[i]], out + [e])])
  {
    assert forall k | 0 <= k < |elems| && k != i :: elems[k] != elems[i];
  }

  lemma NewName(elems: seq<Element>, ready: seq<Element>, x: Element)
    requires DistinctNames(elems) && DistinctNames(ready) && x in elems
    requires forall y | y in ready :: y in elems
    ensures x !in ready ==> DistinctNames(ready + [x])
  {
    forall i | 0 <= i < |ready| && ready[i].name == x.name
      ensures ready[i] == x
    {
      assert ready[i] in elems;
    }
  }

  lemma ReadyStep(g: Graph<Element>, elems: seq<Element>, i: nat, e: Element, out: seq<Element>,
                  ready0: seq<Element>, ready: seq<Element>)
    requires WellFormed(g) && g.nodes == (set x | x in elems) && i < |elems|
    requires Distinct(elems) && DistinctNames(elems)
    requires ReadySettled(g, elems, i, e, out, ready0, ready)
    requires FreedBy(g, elems[i], e, out + [e]) ==> elems[i] !in ready0
    ensures ReadySettled(g, elems, i + 1, e, out, ready0,
              if FreedBy(g, elems[i], e, out + [e]) then ready + [elems[i]] else ready)
  {
    PrefixStep(elems, i);
    assert elems[i] !in elems[..i];
    NewName(elems, ready, elems[i]);
  }

  lemma ReleasingStep(g: Graph<Element>, elems: seq<Element>, i: nat, e: Element, out: seq<Element>,
                      ready0: seq<Element>, indeg: map<Element, int>, ready: seq<Element>,
                      indeg': map<Element, int>, ready': seq<Element>)
    requires WellFormed(g) && g.nodes == (set x | x in elems) && i < |elems|
    requires Distinct(elems) && DistinctNames(elems)
    requires Releasing(g, elems, i, e, out, ready0, indeg, ready)
    requires FreedBy(g, elems[i], e, out + [e]) ==> elems[i] !in ready0
    requires indeg' == indeg[elems[i] := Pending(g.deps[elems[i]], out + [e])]
    requires ready' == if FreedBy(g, elems[i], e, out + [e]) then ready + [elems[i]] else ready
    ensures Releasing(g, elems, i + 1, e, out, ready0, indeg', ready')
  {
    CountsStep(g, elems, i, e, out, indeg);
    ReadyStep(g, elems, i, e, out, ready0, ready);
  }

  lemma FreedIsNew(g: Graph<Element>, out: seq<Element>, e: Element, ready0: seq<Element>, x: Element)
    requires WellFormed(g) && x in g.nodes && e !in out
    requires ReadyNow(g, out, [e] + ready0)
    ensures e in g.deps[x] ==> x !in ready0
  {
    if x in ready0 {
      assert x in [e] + ready0;
    }
  }

  lemma OthersStayReady(g: Graph<Element>, out: seq<Element>, e: Element, ready0: seq<Element>, x: Element)
    requires WellFormed(g) && ReadyNow(g, out, [e] + ready0) && x in ready0
    ensures IsReady(g, out + [e], x)
  {
    var all := [e] + ready0;
    var k :| 0 <= k < |ready0| && ready0[k] == x;
    assert all[k + 1] in all;
    assert Less(all[0].name, all[k + 1].name);
    LessIrreflexive(e.name);
  }

  lemma DoneNeedsOnlyDone(g: Graph<Element>, out: seq<Element>, x: Element)
    requires WellFormed(g) && IsGreedyRun(g, out) && x in out
    ensures x in g.nodes && forall d | d in g.deps[x] :: d in out
  {
    GreedyRunShape(g, out);
    var k :| 0 <= k < |out| && out[k] == x;
    assert forall d | d in g.deps[x] :: d in out[..k];
  }

  lemma ReadyAfter(g: Graph<Element>, out: seq<Element>, e: Element, ready0: seq<Element>, x: Element)
    requires WellFormed(g) && x in g.nodes
    requires IsGreedyRun(g, out) && e !in out
    requires ReadyNow(g, out, [e] + ready0)
    ensures (x in ready0 || FreedBy(g, x, e, out + [e])) <==> IsReady(g, out + [e], x)
  {
    PendingZero(g.deps[x], out + [e]);
    if x in ready0 {
      OthersStayReady(g, out, e, ready0, x);
    }
    if x in out {
      DoneNeedsOnlyDone(g, out, x);
    }
    if IsReady(g, out + [e], x) && e !in g.deps[x] {
      assert IsReady(g, out, x);
      assert x in [e] + ready0;
    }
  }

  lemma ReadyTail(g: Graph<Element>, out: seq<Element>, e: Element, ready0: seq<Element>)
    requires WellFormed(g) && ReadyNow(g, out, [e] + ready0)
    ensures DistinctNames(ready0)
    ensures forall x | x in ready0 :: x in g.nodes
  {
    var all := [e] + ready0;
    forall i, j | 0 <= i < j < |ready0|
      ensures ready0[i].name != ready0[j].name
    {
      assert Less(all[i + 1].name, all[j + 1].name);
      LessIrreflexive(ready0[i].name);
    }
    assert forall x | x in ready0 :: x in all;
  }

  /** The two nested loops that decrement every dependent of the element just emitted. */
  method ReleaseDependents(elems: seq<Element>, e: Element, ready0: seq<Element>,
                           indeg0: map<Element, int>, ghost g: Graph<Element>, ghost out: seq<Element>)
    returns (ready: seq<Element>, indeg: map<Element, int>)
    requires Distinct(elems) && DistinctNames(elems) && g == GraphOf(elems)
    requires IsGreedyRun(g, out) && e !in out
    requires ReadyNow(g, out, [e] + ready0)
    requires Counts(g, out, indeg0)
    ensures DistinctNames(ready)
    ensures forall x :: x in ready <==> x in elems && IsReady(g, out + [e], x)
    ensures Counts(g, out + [e], indeg) && g == GraphOf(elems)
  {
    ghost var now := out + [e];
    ready, indeg := ready0, indeg0;
    ReadyTail(g, out, e, ready0);
    for i := 0 to |elems|
      invariant Releasing(g, elems, i, e, out, ready0, indeg, ready)
    {
      ghost var indegBefore, readyBefore := indeg, ready;
      FreedIsNew(g, out, e, ready0, elems[i]);
      indeg, ready := Release(elems[i], elems[i].deps, e, indeg, ready, out);
      ReleasingStep(g, elems, i, e, out, ready0, indegBefore, readyBefore, indeg, ready);
    }
    WholePrefix(elems);
    forall x | x in elems
      ensures (x in ready0 || FreedBy(g, x, e, now)) <==> IsReady(g, now, x)
    {
      ReadyAfter(g, out, e, ready0, x);
    }
  }

  /** The body of topoSort up to its final length test. */
  method KahnRun(elems: seq<Element>) returns (out: seq<Element>)
    requires Distinct(elems) && DistinctNames(elems)
    ensures IsGreedyRun(GraphOf(elems), out) && IsStuck(GraphOf(elems), out)
  {
    ghost var g := GraphOf(elems);
    var indeg := InDegrees(elems, g);
    var ready := SourcesOf(elems, indeg, g);
    ready := SortByName(ready);
    out := [];
    NodeCount(elems);
    while ready != []
      invariant g == GraphOf(elems)
      invariant IsGreedyRun(g, out)
      invariant ReadyNow(g, out, ready)
      invariant Counts(g, out, indeg)
      decreases |elems| - |out|
    {
      var e := ready[0];
      TakeLeast(g, out, ready);
      ready, indeg := ReleaseDependents(elems, e, ready[1..], indeg, g, out);
      ready := SortByName(ready);
      out := out + [e];
    }
  }

  /** What a finished run says about the graph, whichever way the length test goes. */
  lemma Verdict(elems: seq<Element>, out: seq<Element>)
    requires Distinct(elems) && DistinctNames(elems)
    requires IsGreedyRun(GraphOf(elems), out) && IsStuck(GraphOf(elems), out)
    ensures |out| == |elems| ==> IsTopoOrder(GraphOf(elems), out)
    ensures |out| == |elems| ==> forall t: seq<Element> | IsTopoOrder(GraphOf(elems), t) ::
      NamesAtMost(GraphOf(elems), out, t)
    ensures |out| != |elems| ==> forall t: seq<Element> :: !IsTopoOrder(GraphOf(elems), t)
    ensures Closed(GraphOf(elems)) ==>
      (|out| != |elems| <==> exists c: seq<Element> :: IsCycle(GraphOf(elems), c))
  {
    var g := GraphOf(elems);
    GreedyRunShape(g, out);
    FullLength(g, out);
    NodeCount(elems);
    if |out| == |elems| {
      forall t: seq<Element> | IsTopoOrder(g, t)
        ensures NamesAtMost(g, out, t)
      {
        GreedyIsLeast(g, out, t);
      }
      forall c: seq<Element>
        ensures !IsCycle(g, c)
      {
        if IsCycle(g, c) {
          CycleExcludesOrder(g, c, out);
        }
      }
    } else {
      forall t: seq<Element>
        ensures !IsTopoOrder(g, t)
      {
        if IsTopoOrder(g, t) {
          OrderImpliesComplete(g, out, t);
        }
      }
      if Closed(g) {
        var c := StuckImpliesCycle(g, out);
      }
    }
  }

  /**
   topoSort.  On success the result is the lexicographically least topological order by
   name; an error means that no topological order exists at all.
   */
  method TopoSort(elems: seq<Element>) returns (r: Result<seq<Element>>)
    requires Distinct(elems) && DistinctNames(elems)
    ensures r.Ok? ==>
      && IsTopoOrder(GraphOf(elems), r.value)
      && IsGreedyRun(GraphOf(elems), r.value)
    ensures r.Ok? ==> forall t: seq<Element> | IsTopoOrder(GraphOf(elems), t) ::
      NamesAtMost(GraphOf(elems), r.value, t)
    ensures r.Err? ==> r.error == DependencyCycle(|elems|)
    ensures r.Err? ==> forall t: seq<Element> :: !IsTopoOrder(GraphOf(elems), t)
    ensures Closed(GraphOf(elems)) ==>
      (r.Err? <==> exists c: seq<Element> :: IsCycle(GraphOf(elems), c))
  {
    var out := KahnRun(elems);
    Verdict(elems, out);
    if |out| != |elems| {
      r := Err(DependencyCycle(|elems|));
    } else {
      r := Ok(out);
    }
  }

  lemma SameElementsSameGraph(a: seq<Element>, b: seq<Element>)
    requires DistinctNames(a) && DistinctNames(b) && forall x :: x in a <==> x in b
    ensures GraphOf(a) == GraphOf(b)
  {
    assert GraphOf(a).nodes == GraphOf(b).nodes;
    assert GraphOf(a).deps == GraphOf(b).deps;
    assert GraphOf(a).name == GraphOf(b).name;
  }

  /** Listing the same elements in another order gives the same result. */
  lemma InputOrderIrrelevant(a: seq<Element>, b: seq<Element>, ra: seq<Element>, rb: seq<Element>)
    requires DistinctNames(a) && DistinctNames(b) && forall x :: x in a <==> x in b
    requires IsTopoOrder(GraphOf(a), ra) && IsGreedyRun(GraphOf(a), ra)
    requires IsTopoOrder(GraphOf(b), rb) && IsGreedyRun(GraphOf(b), rb)
    ensures ra == rb
  {
    SameElementsSameGraph(a, b);
    GreedyDetermined(GraphOf(a), ra, rb);
  }

  // ------------------------------------------------------------- resolveDependencies

  /** An entry names every file of its list or, without a list, its single file. */
  ghost predicate NamedBy(d: BstDep, fn: string) {
    if d.filenames != [] then fn in d.filenames else d.filename != "" && fn == d.filename
  }

  ghost predicate Lists(deps: seq<BstDep>, fn: string) {
    exists d | d in deps :: NamedBy(d, fn)
  }

  lemma ListsStep(deps: seq<BstDep>, d: BstDep)
    ensures forall fn :: Lists(deps + [d], fn) <==> Lists(deps, fn) || fn in d.ExpandedFilenames()
  {
    forall fn
      ensures Lists(deps + [d], fn) <==> Lists(deps, fn) || NamedBy(d, fn)
    {
      assert forall x :: x in deps + [d] <==> x in deps || x == d;
    }
  }

  /** Every file name a dependency list mentions, list-form entries expanded in place. */
  function References(deps: seq<BstDep>): (r: seq<string>)
    ensures forall fn :: fn in r <==> Lists(deps, fn)
  {
    if deps == [] then []
    else
      ListsStep(deps[..|deps| - 1], deps[|deps| - 1]);
      assert deps == deps[..|deps| - 1] + [deps[|deps| - 1]];
      References(deps[..|deps| - 1]) + deps[|deps| - 1].ExpandedFilenames()
  }

  lemma {:induction false} ReferencesAppend(a: seq<BstDep>, b: seq<BstDep>)
    ensures References(a + b) == References(a) + References(b)
  {
    if b == [] {
      assert a + b == a;
    } else {
      assert (a + b)[..|a + b| - 1] == a + b[..|b| - 1];
      ReferencesAppend(a, b[..|b| - 1]);
      Assoc(References(a), References(b[..|b| - 1]), b[|b| - 1].ExpandedFilenames());
    }
  }

  lemma OneEntry(d: BstDep)
    ensures References([d]) == d.ExpandedFilenames()
  {
    assert [d][..0] == [] && References([]) == [];
    assert [] + d.ExpandedFilenames() == d.ExpandedFilenames();
  }

  /** An entry's names stand together and in their order, between those of the entries around it. */
  lemma ReferencesInOrder(a: seq<BstDep>, d: BstDep, b: seq<BstDep>)
    ensures d.filenames != [] ==> References(a + [d] + b) == References(a) + d.filenames + References(b)
    ensures d.filenames == [] && d.filename != "" ==> References(a + [d] + b) == References(a) + [d.filename] + References(b)
    ensures d.filenames == [] && d.filename == "" ==> References(a + [d] + b) == References(a) + References(b)
  {
    ReferencesAppend(a + [d], b);
    ReferencesAppend(a, [d]);
    OneEntry(d);
    hide References;
  }

  ghost predicate AllKnown(byName: map<string, Element>, fns: seq<string>) {
    forall fn | fn in fns :: TrimBst(fn) in byName
  }

  /** The dependency list can be wired: no junctions, every name is in the graph. */
  ghost predicate Resolvable(byName: map<string, Element>, deps: seq<BstDep>) {
    && (forall d | d in deps :: d.junction == "")
    && forall fn | Lists(deps, fn) :: TrimBst(fn) in byName
  }

  function AddOnce<T(==)>(s: seq<T>, x: T): seq<T> {
    if x in s then s else s + [x]
  }

  /** The edges in `acc` plus one edge per reference, each kept at its first occurrence. */
  ghost function Wire(acc: seq<Element>, byName: map<string, Element>, fns: seq<string>): seq<Element>
    requires AllKnown(byName, fns)
  {
    if fns == [] then acc
    else AddOnce(Wire(acc, byName, fns[..|fns| - 1]), byName[TrimBst(fns[|fns| - 1])])
  }

  lemma {:induction false} WireAppend(acc: seq<Element>, byName: map<string, Element>, a: seq<string>, b: seq<string>)
    requires AllKnown(byName, a) && AllKnown(byName, b)
    ensures AllKnown(byName, a + b)
    ensures Wire(acc, byName, a + b) == Wire(Wire(acc, byName, a), byName, b)
  {
    if b == [] {
      assert a + b == a;
    } else {
      WireAppend(acc, byName, a, b[..|b| - 1]);
      assert (a + b)[..|a + b| - 1] == a + b[..|b| - 1];
    }
  }

  /** Position `k` is where the reference list first leads to its element. */
  ghost predicate FirstAt(byName: map<string, Element>, fns: seq<string>, k: nat, x: Element)
    requires AllKnown(byName, fns)
  {
    && k < |fns| && byName[TrimBst(fns[k])] == x
    && forall m | 0 <= m < k :: byName[TrimBst(fns[m])] != x
  }

  /** Wired from nothing: each edge once, no edge lost, none invented. */
  lemma {:induction false} WireMeaning(byName: map<string, Element>, fns: seq<string>)
    requires AllKnown(byName, fns)
    ensures Distinct(Wire([], byName, fns))
    ensures forall fn | fn in fns :: byName[TrimBst(fn)] in Wire([], byName, fns)
    ensures forall x | x in Wire([], byName, fns) :: exists fn :: fn in fns && byName[TrimBst(fn)] == x
  {
    if fns != [] {
      var init, last := fns[..|fns| - 1], fns[|fns| - 1];
      assert fns == init + [last];
      WireMeaning(byName, init);
      forall x | x in Wire([], byName, init)
        ensures exists fn :: fn in fns && byName[TrimBst(fn)] == x
      {
        var fn :| fn in init && byName[TrimBst(fn)] == x;
        assert fn in fns;
      }
    }
  }

  /** The wired edges stand in the order in which the references first lead to them. */
  lemma {:induction false} WireOrder(byName: map<string, Element>, fns: seq<string>, i: nat, j: nat, k: nat, m: nat)
    requires AllKnown(byName, fns) && i < j < |Wire([], byName, fns)|
    requires FirstAt(byName, fns, k, Wire([], byName, fns)[i])
    requires FirstAt(byName, fns, m, Wire([], byName, fns)[j])
    ensures k < m
  {
    var init, last := fns[..|fns| - 1], fns[|fns| - 1];
    assert fns == init + [last];
    WireMeaning(byName, init);
    var before := Wire([], byName, init);
    assert forall q | 0 <= q < |init| :: init[q] in init;
    assert before[i] in before;
    var fn :| fn in init && byName[TrimBst(fn)] == before[i];
    assert k < |init| && FirstAt(byName, init, k, before[i]);
    if j < |before| {
      assert before[j] in before;
      var fn' :| fn' in init && byName[TrimBst(fn')] == before[j];
      assert m < |init| && FirstAt(byName, init, m, before[j]);
      WireOrder(byName, init, i, j, k, m);
    }
  }

  ghost predicate AllResolvable(byName: map<string, Element>, bst: BstFile) {
    Resolvable(byName, bst.depends) && Resolvable(byName, bst.buildDepends) && Resolvable(byName, bst.runtimeDepends)
  }

  function BuildReferences(bst: BstFile): seq<string> {
    References(bst.depends) + References(bst.buildDepends)
  }

  function AllReferences(bst: BstFile): seq<string> {
    BuildReferences(bst) + References(bst.runtimeDepends)
  }

  /** The files a build of the element needs, and all it refers to. */
  ghost predicate BuildRefers(bst: BstFile, fn: string) {
    Lists(bst.depends, fn) || Lists(bst.buildDepends, fn)
  }

  ghost predicate Refers(bst: BstFile, fn: string) {
    Lists(bst.depends, fn) || Lists(bst.buildDepends, fn) || Lists(bst.runtimeDepends, fn)
  }

  lemma ReferencesAre(bst: BstFile)
    ensures forall fn :: fn in AllReferences(bst) <==> Refers(bst, fn)
    ensures forall fn :: fn in BuildReferences(bst) <==> BuildRefers(bst, fn)
  {
  }

  /** The edges are the elements the entries name: of all three lists for deps, of the first two for buildDeps. */
  ghost predicate EdgesNamed(byName: map<string, Element>, bst: BstFile, deps: seq<Element>, buildDeps: seq<Element>) {
    && (forall fn | Refers(bst, fn) :: TrimBst(fn) in byName && byName[TrimBst(fn)] in deps)
    && (forall fn | BuildRefers(bst, fn) :: TrimBst(fn) in byName && byName[TrimBst(fn)] in buildDeps)
    && (forall x | x in deps :: exists fn :: Refers(bst, fn) && byName[TrimBst(fn)] == x)
    && (forall x | x in buildDeps :: exists fn :: BuildRefers(bst, fn) && byName[TrimBst(fn)] == x)
  }

  /** What wiring one element yields, in the order of first reference. */
  ghost predicate Wired(byName: map<string, Element>, bst: BstFile, deps: seq<Element>, buildDeps: seq<Element>) {
    && EdgesNamed(byName, bst, deps, buildDeps)
    && AllKnown(byName, AllReferences(bst)) && AllKnown(byName, BuildReferences(bst))
    && deps == Wire([], byName, AllReferences(bst))
    && buildDeps == Wire([], byName, BuildReferences(bst))
  }

  lemma WireIsNamed(byName: map<string, Element>, bst: BstFile)
    requires AllKnown(byName, AllReferences(bst)) && AllKnown(byName, BuildReferences(bst))
    ensures Wired(byName, bst, Wire([], byName, AllReferences(bst)), Wire([], byName, BuildReferences(bst)))
  {
    ReferencesAre(bst);
    WireMeaning(byName, AllReferences(bst));
    WireMeaning(byName, BuildReferences(bst));
  }

  /** Build-time edges are a subset of all edges. */
  lemma BuildDepsSubset(byName: map<string, Element>, bst: BstFile, deps: seq<Element>, buildDeps: seq<Element>)
    requires Wired(byName, bst, deps, buildDeps)
    ensures forall x | x in buildDeps :: x in deps
    ensures Distinct(deps) && Distinct(buildDeps)
  {
    WireMeaning(byName, AllReferences(bst));
    WireMeaning(byName, BuildReferences(bst));
    forall x | x in buildDeps
      ensures x in deps
    {
      var fn :| fn in BuildReferences(bst) && byName[TrimBst(fn)] == x;
      assert fn in AllReferences(bst);
    }
  }

  /** An error names an element and one of its own entries that really is the problem. */
  ghost predicate Justified(byName: map<string, Element>, name: string, deps: seq<BstDep>, err: GraphError) {
    match err
    case UnsupportedJunction(e, j) => e == name && j != "" && exists d :: d in deps && d.junction == j
    case NotInGraph(e, n) => e == name && n !in byName && exists fn :: Lists(deps, fn) && TrimBst(fn) == n
    case DependencyCycle(_) => false
  }

  datatype Outcome = Pass | Fail(error: GraphError)

  /** The innermost loop: one edge per expanded file name, until a name is unknown. */
  method ResolveNames(elem: Element, fns: seq<string>, isBuild: bool, byName: map<string, Element>)
    returns (unknown: seq<string>)
    modifies elem
    ensures unknown == [] <==> AllKnown(byName, fns)
    ensures unknown != [] ==> unknown[0] !in byName && exists fn :: fn in fns && TrimBst(fn) == unknown[0]
    ensures unknown == [] ==>
      && elem.deps == Wire(old(elem.deps), byName, fns)
      && elem.buildDeps == if isBuild then Wire(old(elem.buildDeps), byName, fns) else old(elem.buildDeps)
  {
    var deps, buildDeps := elem.deps, elem.buildDeps;
    for j := 0 to |fns|
      invariant AllKnown(byName, fns[..j])
      invariant elem.deps == Wire(deps, byName, fns[..j])
      invariant elem.buildDeps == if isBuild then Wire(buildDeps, byName, fns[..j]) else buildDeps
    {
      var depName := TrimBst(fns[j]);
      if depName !in byName {
        assert fns[j] in fns;
        return [depName];
      }
      var depElem := byName[depName];
      PrefixStep(fns, j);
      if depElem !in elem.deps {
        elem.deps := elem.deps + [depElem];
      }
      if isBuild && depElem !in elem.buildDeps {
        elem.buildDeps := elem.buildDeps + [depElem];
      }
    }
    WholePrefix(fns);
    unknown := [];
  }

  lemma ReferencesStep(list: seq<BstDep>, i: nat)
    requires i < |list|
    ensures References(list[..i + 1]) == References(list[..i]) + list[i].ExpandedFilenames()
    ensures forall d :: d in list[..i + 1] <==> d in list[..i] || d == list[i]
  {
    PrefixStep(list, i);
  }

  lemma {:induction false} ReferencesMember(list: seq<BstDep>, i: nat, fn: string)
    requires i < |list| && fn in list[i].ExpandedFilenames()
    ensures fn in References(list)
  {
    var n := |list| - 1;
    if i < n {
      ReferencesMember(list[..n], i, fn);
    }
  }

  lemma ReferencesInclude(list: seq<BstDep>, i: nat)
    requires i < |list|
    ensures forall fn | fn in list[i].ExpandedFilenames() :: fn in References(list)
  {
    forall fn | fn in list[i].ExpandedFilenames() {
      ReferencesMember(list, i, fn);
    }
  }

  /** One dependency class of one element: depends, build-depends or runtime-depends. */
  method ResolveClass(elem: Element, list: seq<BstDep>, isBuild: bool, byName: map<string, Element>)
    returns (r: Outcome)
    modifies elem
    ensures r.Pass? <==> Resolvable(byName, list)
    ensures r.Pass? ==>
      && elem.deps == Wire(old(elem.deps), byName, References(list))
      && elem.buildDeps == if isBuild then Wire(old(elem.buildDeps), byName, References(list)) else old(elem.buildDeps)
    ensures r.Fail? ==> Justified(byName, elem.name, list, r.error)
  {
    var deps, buildDeps := elem.deps, elem.buildDeps;
    for i := 0 to |list|
      invariant Resolvable(byName, list[..i])
      invariant elem.deps == Wire(deps, byName, References(list[..i]))
      invariant elem.buildDeps == if isBuild then Wire(buildDeps, byName, References(list[..i])) else buildDeps
    {
      var dep := list[i];
      ReferencesStep(list, i);
      if dep.junction != "" {
        assert dep in list;
        return Fail(UnsupportedJunction(elem.name, dep.junction));
      }
      var unknown := ResolveNames(elem, dep.ExpandedFilenames(), isBuild, byName);
      if unknown != [] {
        ReferencesInclude(list, i);
        return Fail(NotInGraph(elem.name, unknown[0]));
      }
      WireAppend(deps, byName, References(list[..i]), dep.ExpandedFilenames());
      WireAppend(buildDeps, byName, References(list[..i]), dep.ExpandedFilenames());
    }
    WholePrefix(list);
    r := Pass;
  }

  ghost predicate ElementAtFault(byName: map<string, Element>, e: Element, err: GraphError) {
    || Justified(byName, e.name, e.bst.depends, err)
    || Justified(byName, e.name, e.bst.buildDepends, err)
    || Justified(byName, e.name, e.bst.runtimeDepends, err)
  }

  ghost predicate IsWired(byName: map<string, Element>, e: Element)
    reads e
  {
    Wired(byName, e.bst, e.deps, e.buildDeps)
  }

  method ResolveElement(elem: Element, byName: map<string, Element>) returns (r: Outcome)
    requires elem.deps == [] && elem.buildDeps == []
    modifies elem
    ensures r.Pass? <==> AllResolvable(byName, elem.bst)
    ensures r.Pass? ==> IsWired(byName, elem)
    ensures r.Fail? ==> ElementAtFault(byName, elem, r.error)
  {
    var bst := elem.bst;
    r := ResolveClass(elem, bst.depends, true, byName);
    if r.Pass? {
      r := ResolveClass(elem, bst.buildDepends, true, byName);
    }
    if r.Pass? {
      r := ResolveClass(elem, bst.runtimeDepends, false, byName);
    }
    if r.Pass? {
      WireAppend([], byName, References(bst.depends), References(bst.buildDepends));
      WireAppend([], byName, BuildReferences(bst), References(bst.runtimeDepends));
      WireIsNamed(byName, bst);
    }
  }

  /** The loop of resolveDependencies, up to the first element it cannot wire. */
  method ResolveUpTo(elems: seq<Element>, byName: map<string, Element>) returns (r: Outcome, at: nat)
    requires Distinct(elems) && forall k | 0 <= k < |elems| :: elems[k].deps == [] && elems[k].buildDeps == []
    modifies elems
    ensures at <= |elems| && (r.Pass? <==> at == |elems|)
    ensures forall k | 0 <= k < at :: AllResolvable(byName, elems[k].bst) && IsWired(byName, elems[k])
    ensures r.Fail? ==> !AllResolvable(byName, elems[at].bst) && ElementAtFault(byName, elems[at], r.error)
  {
    hide IsWired, ElementAtFault;
    at := 0;
    while at < |elems|
      invariant at <= |elems|
      invariant forall k | at <= k < |elems| :: elems[k].deps == [] && elems[k].buildDeps == []
      invariant forall k | 0 <= k < at :: AllResolvable(byName, elems[k].bst) && IsWired(byName, elems[k])
    {
      r := ResolveElement(elems[at], byName);
      if r.Fail? {
        return;
      }
      at := at + 1;
    }
    r := Pass;
  }

  /** resolveDependencies: wires every element or reports one real problem. */
  method ResolveDependencies(elems: seq<Element>, byName: map<string, Element>) returns (r: Outcome)
    requires Distinct(elems) && forall e | e in elems :: e.deps == [] && e.buildDeps == []
    modifies elems
    ensures r.Pass? <==> forall e | e in elems :: AllResolvable(byName, e.bst)
    ensures r.Pass? ==> forall e | e in elems :: IsWired(byName, e)
    ensures r.Fail? ==> exists e | e in elems :: ElementAtFault(byName, e, r.error)
  {
    var at;
    r, at := ResolveUpTo(elems, byName);
    if r.Fail? {
      assert elems[at] in elems;
    }
  }

  /** Once wired against a name table over the loaded elements, the graph is closed. */
  lemma {:induction false} WiredIsClosed(elems: seq<Element>, byName: map<string, Element>)
    requires DistinctNames(elems) && forall n | n in byName :: byName[n] in elems
    requires forall e | e in elems :: IsWired(byName, e)
    ensures Closed(GraphOf(elems))
  {
    forall e, d | e in elems && d in e.deps
      ensures d in elems
    {
      WireMeaning(byName, AllReferences(e.bst));
      var fn :| fn in AllReferences(e.bst) && byName[TrimBst(fn)] == d;
    }
  }
}
