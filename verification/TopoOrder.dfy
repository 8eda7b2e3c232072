/**
 Topological orders of a dependency graph, and what the greedy "least ready name first"
 choice of Kahn's algorithm computes.  Values only; `ElementGraph` runs the algorithm.
 */
module TopoOrder {
  import opened Ordering

  /** `nodes` are the elements being sorted; a dependency list may name outsiders or repeat. */
  datatype Graph<T> = Graph(nodes: set<T>, deps: map<T, seq<T>>, name: map<T, string>)

  ghost predicate WellFormed<T>(g: Graph<T>) {
    && g.deps.Keys == g.nodes
    && g.name.Keys == g.nodes
    && forall x, y | x in g.nodes && y in g.nodes && g.name[x] == g.name[y] :: x == y
  }

  ghost predicate Closed<T>(g: Graph<T>)
    requires WellFormed(g)
  {
    forall x, d | x in g.nodes && d in g.deps[x] :: d in g.nodes
  }

  ghost predicate Distinct<T>(s: seq<T>) {
    forall i, j | 0 <= i < j < |s| :: s[i] != s[j]
  }

  /** Every dependency of `t[i]` stands strictly before position `i`. */
  ghost predicate DepsFirst<T>(g: Graph<T>, t: seq<T>)
    requires WellFormed(g) && forall x | x in t :: x in g.nodes
  {
    forall i, d | 0 <= i < |t| && d in g.deps[t[i]] :: d in t[..i]
  }

  /** `t` lists every element exactly once, dependencies before dependents. */
  ghost predicate IsTopoOrder<T>(g: Graph<T>, t: seq<T>)
    requires WellFormed(g)
  {
    && Distinct(t)
    && (forall x | x in t :: x in g.nodes)
    && (forall x | x in g.nodes :: x in t)
    && DepsFirst(g, t)
  }

  /** `c` is a dependency cycle: each element depends on the next, the last on the first. */
  ghost predicate IsCycle<T>(g: Graph<T>, c: seq<T>)
    requires WellFormed(g)
  {
    && c != []
    && (forall x | x in c :: x in g.nodes)
    && (forall i | 0 <= i < |c| - 1 :: c[i + 1] in g.deps[c[i]])
    && c[0] in g.deps[c[|c| - 1]]
  }

  /** Lexicographic order by name on lists of elements: equal, or less at the first difference. */
  ghost predicate NamesAtMost<T>(g: Graph<T>, a: seq<T>, b: seq<T>)
    requires WellFormed(g) && (forall x | x in a :: x in g.nodes) && forall x | x in b :: x in g.nodes
  {
    || a <= b
    || exists k ::
        && 0 <= k < |a| && k < |b|
        && a[..k] == b[..k]
        && Less(g.name[a[k]], g.name[b[k]])
  }

  // ------------------------------------------------------------- the greedy run

  ghost predicate IsReady<T>(g: Graph<T>, done: seq<T>, x: T)
    requires WellFormed(g)
  {
    x in g.nodes && x !in done && forall d | d in g.deps[x] :: d in done
  }

  ghost predicate IsLeastReady<T>(g: Graph<T>, done: seq<T>, x: T)
    requires WellFormed(g)
  {
    && IsReady(g, done, x)
    && forall y | y in g.nodes && IsReady(g, done, y) :: y == x || Less(g.name[x], g.name[y])
  }

  /** Each element of `out` was the least-named ready one when it was taken. */
  ghost predicate IsGreedyRun<T>(g: Graph<T>, out: seq<T>)
    requires WellFormed(g)
  {
    forall k | 0 <= k < |out| :: IsLeastReady(g, out[..k], out[k])
  }

  ghost predicate IsStuck<T>(g: Graph<T>, done: seq<T>)
    requires WellFormed(g)
  {
    forall x | x in g.nodes :: !IsReady(g, done, x)
  }

  lemma GreedyRunShape<T>(g: Graph<T>, out: seq<T>)
    requires WellFormed(g) && IsGreedyRun(g, out)
    ensures Distinct(out)
    ensures forall x | x in out :: x in g.nodes
    ensures DepsFirst(g, out)
  {
    forall i, j | 0 <= i < j < |out|
      ensures out[i] != out[j]
    {
      assert IsLeastReady(g, out[..j], out[j]);
      assert out[i] in out[..j];
    }
    forall x | x in out
      ensures x in g.nodes
    {
      var k :| 0 <= k < |out| && out[k] == x;
      assert IsLeastReady(g, out[..k], out[k]);
    }
  }

  lemma DistinctAppend<T>(a: seq<T>, b: seq<T>)
    requires Distinct(a) && Distinct(b) && forall x | x in a :: x !in b
    ensures Distinct(a + b)
  {
    forall i, j | 0 <= i < j < |a + b|
      ensures (a + b)[i] != (a + b)[j]
    {
      if i < |a| <= j {
        assert a[i] in a && b[j - |a|] in b;
      }
    }
  }

  lemma DistinctSet<T>(s: seq<T>)
    requires Distinct(s)
    ensures |set x | x in s| == |s|
  {
    if s != [] {
      var rest := s[..|s| - 1];
      DistinctSet(rest);
      assert (set x | x in s) == (set x | x in rest) + {s[|s| - 1]};
    }
  }

  lemma SubsetSize<T>(a: set<T>, b: set<T>)
    requires a <= b
    ensures |a| <= |b|
    ensures |a| == |b| <==> a == b
  {
    assert b == a + (b - a) && a !! (b - a);
  }

  /** The run covers all elements exactly when it is as long as the element list. */
  lemma FullLength<T>(g: Graph<T>, out: seq<T>)
    requires WellFormed(g) && Distinct(out) && forall x | x in out :: x in g.nodes
    ensures |out| <= |g.nodes|
    ensures |out| == |g.nodes| <==> forall x | x in g.nodes :: x in out
  {
    DistinctSet(out);
    var s := set x | x in out;
    assert s <= g.nodes;
    SubsetSize(s, g.nodes);
  }

  // ------------------------------------------------------------- main results

  lemma {:induction false} PrefixCovered<T>(g: Graph<T>, out: seq<T>, t: seq<T>, n: nat)
    requires WellFormed(g) && IsStuck(g, out)
    requires IsTopoOrder(g, t) && n <= |t|
    ensures forall x | x in t[..n] :: x in out
  {
    if n > 0 {
      PrefixCovered(g, out, t, n - 1);
      var x := t[n - 1];
      assert t[..n] == t[..n - 1] + [x];
      if x !in out {
        assert IsReady(g, out, x);
      }
    }
  }

  /** A topological order exists only if the greedy run reaches every element. */
  lemma {:induction false} OrderImpliesComplete<T>(g: Graph<T>, out: seq<T>, t: seq<T>)
    requires WellFormed(g) && IsGreedyRun(g, out) && IsStuck(g, out)
    requires IsTopoOrder(g, t)
    ensures IsTopoOrder(g, out)
  {
    GreedyRunShape(g, out);
    PrefixCovered(g, out, t, |t|);
    forall x | x in g.nodes
      ensures x in out
    {
      assert x in t[..|t|];
    }
  }

  ghost function CommonPrefix<T>(a: seq<T>, b: seq<T>): (k: nat)
    ensures k <= |a| && k <= |b| && a[..k] == b[..k]
    ensures k < |a| && k < |b| ==> a[k] != b[k]
  {
    if a == [] || b == [] || a[0] != b[0] then 0
    else
      var k := CommonPrefix(a[1..], b[1..]);
      assert a[..k + 1] == [a[0]] + a[1..][..k] && b[..k + 1] == [b[0]] + b[1..][..k];
      k + 1
  }

  /** Nothing topological precedes the greedy run: it is the least order by name. */
  lemma GreedyIsLeast<T>(g: Graph<T>, out: seq<T>, t: seq<T>)
    requires WellFormed(g) && IsGreedyRun(g, out)
    requires IsTopoOrder(g, t)
    ensures (forall x | x in out :: x in g.nodes) && NamesAtMost(g, out, t)
  {
    GreedyRunShape(g, out);
    FullLength(g, out);
    FullLength(g, t);
    var k := CommonPrefix(out, t);
    if k < |out| {
      assert k < |t|;
      assert IsLeastReady(g, out[..k], out[k]);
      assert forall i | 0 <= i < k :: t[i] in t[..k];
      assert t[k] !in t[..k];
      assert IsReady(g, out[..k], t[k]);
      assert out[..k] == t[..k] && Less(g.name[out[k]], g.name[t[k]]);
    } else {
      assert out == t[..k];
    }
  }

  lemma FirstDifferenceUnique<T>(a: seq<T>, b: seq<T>, i: nat, j: nat, name: map<T, string>)
    requires i < |a| && i < |b| && a[..i] == b[..i] && a[i] in name && b[i] in name && Less(name[a[i]], name[b[i]])
    requires j < |a| && j < |b| && a[..j] == b[..j] && a[j] in name && b[j] in name && Less(name[b[j]], name[a[j]])
    ensures i == j
  {
    LessIrreflexive(name[a[i]]);
    LessIrreflexive(name[a[j]]);
    assert forall k | 0 <= k < i :: a[k] == a[..i][k] == b[k];
    assert forall k | 0 <= k < j :: a[k] == a[..j][k] == b[k];
  }

  /** The least order is unique, so the result cannot depend on how the input was listed. */
  lemma LeastOrderUnique<T>(g: Graph<T>, a: seq<T>, b: seq<T>)
    requires WellFormed(g) && IsTopoOrder(g, a) && IsTopoOrder(g, b)
    requires NamesAtMost(g, a, b) && NamesAtMost(g, b, a)
    ensures a == b
  {
    FullLength(g, a);
    FullLength(g, b);
    if !(a <= b) && !(b <= a) {
      var i :| 0 <= i < |a| && i < |b| && a[..i] == b[..i] && Less(g.name[a[i]], g.name[b[i]]);
      var j :| 0 <= j < |a| && j < |b| && b[..j] == a[..j] && Less(g.name[b[j]], g.name[a[j]]);
      FirstDifferenceUnique(a, b, i, j, g.name);
      LessAsymmetric(g.name[a[i]], g.name[b[i]]);
    }
  }

  lemma GreedyDetermined<T>(g: Graph<T>, a: seq<T>, b: seq<T>)
    requires WellFormed(g) && IsTopoOrder(g, a) && IsTopoOrder(g, b)
    requires IsGreedyRun(g, a) && IsGreedyRun(g, b)
    ensures a == b
  {
    GreedyIsLeast(g, a, b);
    GreedyIsLeast(g, b, a);
    LeastOrderUnique(g, a, b);
  }

  lemma DependencyBefore<T>(g: Graph<T>, t: seq<T>, q: nat, p: nat)
    requires WellFormed(g) && IsTopoOrder(g, t)
    requires p < |t| && q < |t| && t[p] in g.deps[t[q]]
    ensures p < q
  {
    assert t[p] in t[..q];
  }

  lemma {:induction false} CycleDescends<T>(g: Graph<T>, c: seq<T>, t: seq<T>, p: nat, k: nat) returns (q: nat)
    requires WellFormed(g) && IsCycle(g, c) && IsTopoOrder(g, t)
    requires p < |t| && t[p] == c[0] && k < |c|
    ensures q <= p && t[q] == c[k]
  {
    if k == 0 {
      q := p;
    } else {
      var q' := CycleDescends(g, c, t, p, k - 1);
      assert c[k - 1 + 1] in g.deps[c[k - 1]];
      assert c[k] in t[..q'];
      q :| 0 <= q < q' && t[q] == c[k];
    }
  }

  /** A cycle rules out every topological order. */
  lemma CycleExcludesOrder<T>(g: Graph<T>, c: seq<T>, t: seq<T>)
    requires WellFormed(g) && IsCycle(g, c)
    ensures !IsTopoOrder(g, t)
  {
    if IsTopoOrder(g, t) {
      assert c[0] in t;
      var p :| 0 <= p < |t| && t[p] == c[0];
      var q := CycleDescends(g, c, t, p, |c| - 1);
      DependencyBefore(g, t, q, p);
    }
  }

  lemma WalkSuffix<T>(g: Graph<T>, walk: seq<T>, i: nat)
    requires WellFormed(g) && i < |walk|
    requires forall x | x in walk :: x in g.nodes
    requires forall k | 0 <= k < |walk| - 1 :: walk[k + 1] in g.deps[walk[k]]
    requires walk[i] in g.deps[walk[|walk| - 1]]
    ensures IsCycle(g, walk[i..])
  {
    var c := walk[i..];
    forall k | 0 <= k < |c| - 1
      ensures c[k + 1] in g.deps[c[k]]
    {
      assert walk[i + k + 1] in g.deps[walk[i + k]];
    }
  }

  lemma WalkExtends<T>(g: Graph<T>, out: seq<T>, walk: seq<T>, d: T)
    requires WellFormed(g) && Closed(g)
    requires walk != [] && Distinct(walk) && d !in walk && d !in out
    requires forall x | x in walk :: x in g.nodes && x !in out
    requires forall i | 0 <= i < |walk| - 1 :: walk[i + 1] in g.deps[walk[i]]
    requires d in g.deps[walk[|walk| - 1]]
    ensures Distinct(walk + [d]) && |walk| < |g.nodes|
    ensures forall x | x in walk + [d] :: x in g.nodes && x !in out
    ensures forall i | 0 <= i < |walk + [d]| - 1 :: (walk + [d])[i + 1] in g.deps[(walk + [d])[i]]
  {
    var longer := walk + [d];
    forall i | 0 <= i < |longer| - 1
      ensures longer[i] in g.nodes && longer[i + 1] in g.deps[longer[i]]
    {
      assert longer[i] in walk;
      if i < |walk| - 1 {
        assert walk[i + 1] in g.deps[walk[i]];
      }
    }
    FullLength(g, longer);
  }

  /** Follow unmet dependencies until an element repeats. */
  lemma {:induction false} FindCycle<T>(g: Graph<T>, out: seq<T>, walk: seq<T>) returns (c: seq<T>)
    requires WellFormed(g) && Closed(g) && IsStuck(g, out)
    requires walk != [] && Distinct(walk)
    requires forall x | x in walk :: x in g.nodes && x !in out
    requires forall i | 0 <= i < |walk| - 1 :: walk[i + 1] in g.deps[walk[i]]
    ensures IsCycle(g, c)
    decreases |g.nodes| - |walk|
  {
    var last := walk[|walk| - 1];
    assert !IsReady(g, out, last);
    var d :| d in g.deps[last] && d !in out;
    if d in walk {
      var i :| 0 <= i < |walk| && walk[i] == d;
      c := walk[i..];
      WalkSuffix(g, walk, i);
    } else {
      var longer := walk + [d];
      WalkExtends(g, out, walk, d);
      c := FindCycle(g, out, longer);
    }
  }

  /** On a closed graph, a run that stops short leaves a cycle among the elements left over. */
  lemma StuckImpliesCycle<T>(g: Graph<T>, out: seq<T>) returns (c: seq<T>)
    requires WellFormed(g) && Closed(g) && IsStuck(g, out)
    requires exists x :: x in g.nodes && x !in out
    ensures IsCycle(g, c)
  {
    var x :| x in g.nodes && x !in out;
    c := FindCycle(g, out, [x]);
  }
}
