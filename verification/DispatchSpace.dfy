/**
 cmd/write-a/conditional.go: the dispatch space of an element (which variables its (?):
 branches dispatch over) and the enumeration of that space.
 */
module DispatchSpace {
  import opened Conditional
  import opened Ordering
  import opened Sequences

  datatype BstOption = BstOption(isBool: bool, values: seq<string>)

  datatype DispatchVar = DispatchVar(name: string, values: seq<string>, isPlatform: bool)

  predicate Dispatchable(varname: string, options: map<string, BstOption>) {
    varname != "" && (varname == TARGET_ARCH || varname in options)
  }

  /** The variables one branch mentions: every constraint's for mixed-LHS, else its own. */
  function Mentioned(b: Branch): seq<string> {
    if b.constraints != [] then seq(|b.constraints|, i requires 0 <= i < |b.constraints| => b.constraints[i].varname)
    else [b.varname]
  }

  function VarFor(name: string, options: map<string, BstOption>): DispatchVar
    requires Dispatchable(name, options)
  {
    if name == TARGET_ARCH then DispatchVar(name, SUPPORTED_ARCHES, true)
    else if options[name].isBool && options[name].values == [] then DispatchVar(name, ["True", "False"], false)
    else DispatchVar(name, options[name].values, false)
  }

  function Names(vars: seq<DispatchVar>): seq<string> {
    if vars == [] then [] else Names(vars[..|vars| - 1]) + [vars[|vars| - 1].name]
  }

  lemma NamesAppend(vars: seq<DispatchVar>, v: DispatchVar)
    ensures Names(vars + [v]) == Names(vars) + [v.name]
  {
    assert (vars + [v])[..|vars|] == vars;
  }

  /** The second loop of dispatchSpaceForElement: one dispatchVar per name. */
  method VarsFor(names: seq<string>, options: map<string, BstOption>) returns (out: seq<DispatchVar>)
    requires forall n | n in names :: Dispatchable(n, options)
    ensures Names(out) == names
    ensures forall v | v in out :: Dispatchable(v.name, options) && v == VarFor(v.name, options)
  {
    out := [];
    for i := 0 to |names|
      invariant Names(out) == names[..i]
      invariant forall v | v in out :: Dispatchable(v.name, options) && v == VarFor(v.name, options)
    {
      assert names[i] in names;
      NamesAppend(out, VarFor(names[i], options));
      out := out + [VarFor(names[i], options)];
      PrefixStep(names, i);
    }
    WholePrefix(names);
  }

  /** The dispatch space of some branches. */
  ghost predicate SpaceOf(dispatch: seq<DispatchVar>, branches: seq<Branch>, options: map<string, BstOption>) {
    && StrictlySorted(Names(dispatch))
    && (forall n :: n in Names(dispatch) <==> Dispatchable(n, options) && exists b :: b in branches && n in Mentioned(b))
    && (forall v | v in dispatch :: Dispatchable(v.name, options) && v == VarFor(v.name, options))
  }

  /** dispatchSpaceForElement: one dimension per dispatchable variable some branch mentions, sorted. */
  method DispatchSpaceFor(branches: seq<Branch>, options: map<string, BstOption>) returns (out: seq<DispatchVar>)
    ensures SpaceOf(out, branches, options)
  {
    var seen: set<string> := {};
    for i := 0 to |branches|
      invariant forall n :: n in seen <==> Dispatchable(n, options) && exists b :: b in branches[..i] && n in Mentioned(b)
    {
      ghost var before := seen;
      var vars := Mentioned(branches[i]);
      for j := 0 to |vars|
        invariant forall n :: n in seen <==> n in before || (Dispatchable(n, options) && n in vars[..j])
      {
        PrefixStep(vars, j);
        if Dispatchable(vars[j], options) {
          seen := seen + {vars[j]};
        }
      }
      WholePrefix(vars);
      PrefixStep(branches, i);
    }
    WholePrefix(branches);
    var names := SortedKeys(seen);
    out := VarsFor(names, options);
  }

  lemma {:induction false} NamesAre(vars: seq<DispatchVar>)
    ensures |Names(vars)| == |vars| && forall i | 0 <= i < |vars| :: Names(vars)[i] == vars[i].name
  {
    if vars != [] {
      NamesAre(vars[..|vars| - 1]);
    }
  }

  // ------------------------------------------------------------- cartesianTuples

  /** One tuple extended by each value of `v` in turn. */
  function Row(t: Tuple, v: DispatchVar, n: nat): seq<Tuple>
    requires n <= |v.values|
  {
    seq(n, j requires 0 <= j < n => t[v.name := v.values[j]])
  }

  function Expand(ts: seq<Tuple>, v: DispatchVar): seq<Tuple> {
    if ts == [] then [] else Expand(ts[..|ts| - 1], v) + Row(ts[|ts| - 1], v, |v.values|)
  }

  function Product(vars: seq<DispatchVar>): seq<Tuple> {
    if vars == [] then [map[]] else Expand(Product(vars[..|vars| - 1]), vars[|vars| - 1])
  }

  method CartesianTuples(vars: seq<DispatchVar>) returns (tuples: seq<Tuple>)
    ensures tuples == if vars == [] then [] else Product(vars)
  {
    if vars == [] {
      return [];
    }
    tuples := [map[]];
    for i := 0 to |vars|
      invariant tuples == Product(vars[..i])
    {
      var v := vars[i];
      var next: seq<Tuple> := [];
      for q := 0 to |tuples|
        invariant next == Expand(tuples[..q], v)
      {
        PrefixStep(tuples, q);
        var t := tuples[q];
        for j := 0 to |v.values|
          invariant next == Expand(tuples[..q], v) + Row(t, v, j)
        {
          next := next + [t[v.name := v.values[j]]];
        }
      }
      WholePrefix(tuples);
      PrefixStep(vars, i);
      tuples := next;
    }
    WholePrefix(vars);
  }

  ghost predicate DistinctVars(vars: seq<DispatchVar>) {
    forall i, j | 0 <= i < j < |vars| :: vars[i].name != vars[j].name
  }

  ghost predicate DistinctValues(vars: seq<DispatchVar>) {
    forall v, i, j | v in vars && 0 <= i < j < |v.values| :: v.values[i] != v.values[j]
  }

  /** A value for every dimension, and nothing else. */
  ghost predicate TotalAssignment(vars: seq<DispatchVar>, t: Tuple) {
    && (forall k :: k in t <==> exists v :: v in vars && v.name == k)
    && (forall v | v in vars :: v.name in t && t[v.name] in v.values)
  }

  function Size(vars: seq<DispatchVar>): nat {
    if vars == [] then 1 else Size(vars[..|vars| - 1]) * |vars[|vars| - 1].values|
  }

  lemma {:induction false} ExpandSize(ts: seq<Tuple>, v: DispatchVar)
    ensures |Expand(ts, v)| == |ts| * |v.values|
  {
    if ts != [] {
      ExpandSize(ts[..|ts| - 1], v);
      assert |ts| * |v.values| == (|ts| - 1) * |v.values| + |v.values|;
    }
  }

  /** The enumeration has as many entries as the product of the value counts. */
  lemma {:induction false} ProductSize(vars: seq<DispatchVar>)
    ensures |Product(vars)| == Size(vars)
  {
    if vars != [] {
      ProductSize(vars[..|vars| - 1]);
      ExpandSize(Product(vars[..|vars| - 1]), vars[|vars| - 1]);
    }
  }

  lemma {:induction false} ExpandMember(ts: seq<Tuple>, v: DispatchVar, t: Tuple)
    ensures t in Expand(ts, v) <==> exists q, j :: 0 <= q < |ts| && 0 <= j < |v.values| && t == ts[q][v.name := v.values[j]]
  {
    if ts != [] {
      var init, last := ts[..|ts| - 1], ts[|ts| - 1];
      ExpandMember(init, v, t);
      if t in Row(last, v, |v.values|) {
        var j :| 0 <= j < |v.values| && Row(last, v, |v.values|)[j] == t;
        assert t == ts[|ts| - 1][v.name := v.values[j]];
      }
      if t in Expand(init, v) {
        var q, j :| 0 <= q < |init| && 0 <= j < |v.values| && t == init[q][v.name := v.values[j]];
        assert t == ts[q][v.name := v.values[j]];
      }
      if q, j :| 0 <= q < |ts| && 0 <= j < |v.values| && t == ts[q][v.name := v.values[j]] {
        if q < |init| {
          assert t == init[q][v.name := v.values[j]];
        } else {
          assert Row(last, v, |v.values|)[j] == t;
        }
      }
    }
  }

  lemma LastNameIsNew(vars: seq<DispatchVar>)
    requires vars != [] && DistinctVars(vars)
    ensures forall v | v in vars[..|vars| - 1] :: v.name != vars[|vars| - 1].name
  {
    var init := vars[..|vars| - 1];
    forall v | v in init
      ensures v.name != vars[|vars| - 1].name
    {
      var i :| 0 <= i < |init| && init[i] == v;
      assert vars[i].name != vars[|vars| - 1].name;
    }
  }

  lemma Extension(vars: seq<DispatchVar>, t: Tuple, j: nat)
    requires vars != [] && DistinctVars(vars) && j < |vars[|vars| - 1].values|
    requires TotalAssignment(vars[..|vars| - 1], t)
    ensures TotalAssignment(vars, t[vars[|vars| - 1].name := vars[|vars| - 1].values[j]])
  {
    assert vars == vars[..|vars| - 1] + [vars[|vars| - 1]];
    LastNameIsNew(vars);
  }

  lemma {:induction false} ProductSound(vars: seq<DispatchVar>, t: Tuple)
    requires DistinctVars(vars) && t in Product(vars)
    ensures TotalAssignment(vars, t)
  {
    if vars != [] {
      var init, last := vars[..|vars| - 1], vars[|vars| - 1];
      ExpandMember(Product(init), last, t);
      var q, j :| 0 <= q < |Product(init)| && 0 <= j < |last.values| && t == Product(init)[q][last.name := last.values[j]];
      ProductSound(init, Product(init)[q]);
      Extension(vars, Product(init)[q], j);
    }
  }

  ghost predicate ExtendedBy(t': Tuple, v: DispatchVar, t: Tuple) {
    exists j :: 0 <= j < |v.values| && t == t'[v.name := v.values[j]]
  }

  lemma ExpandHas(ts: seq<Tuple>, v: DispatchVar, t': Tuple, t: Tuple)
    requires t' in ts && ExtendedBy(t', v, t)
    ensures t in Expand(ts, v)
  {
    var q :| 0 <= q < |ts| && ts[q] == t';
    var j :| 0 <= j < |v.values| && t == t'[v.name := v.values[j]];
    assert t == ts[q][v.name := v.values[j]];
    ExpandMember(ts, v, t);
  }

  lemma LastValue(v: DispatchVar, t: Tuple)
    requires v.name in t && t[v.name] in v.values
    ensures ExtendedBy(t - {v.name}, v, t)
  {
    var j :| 0 <= j < |v.values| && v.values[j] == t[v.name];
    assert t == (t - {v.name})[v.name := v.values[j]];
  }

  lemma Restriction(vars: seq<DispatchVar>, t: Tuple)
    requires vars != [] && DistinctVars(vars) && TotalAssignment(vars, t)
    ensures TotalAssignment(vars[..|vars| - 1], t - {vars[|vars| - 1].name})
    ensures ExtendedBy(t - {vars[|vars| - 1].name}, vars[|vars| - 1], t)
  {
    assert vars == vars[..|vars| - 1] + [vars[|vars| - 1]];
    LastNameIsNew(vars);
    LastValue(vars[|vars| - 1], t);
  }

  lemma {:induction false} ProductComplete(vars: seq<DispatchVar>, t: Tuple)
    requires DistinctVars(vars) && TotalAssignment(vars, t)
    ensures t in Product(vars)
  {
    if vars == [] {
      assert t == map[];
    } else {
      var init, last := vars[..|vars| - 1], vars[|vars| - 1];
      Restriction(vars, t);
      var t' := t - {last.name};
      ProductComplete(init, t');
      ExpandHas(Product(init), last, t', t);
    }
  }

  /** Exactly the total assignments are enumerated. */
  lemma ProductMember(vars: seq<DispatchVar>, t: Tuple)
    requires DistinctVars(vars)
    ensures t in Product(vars) <==> TotalAssignment(vars, t)
  {
    if t in Product(vars) {
      ProductSound(vars, t);
    }
    if TotalAssignment(vars, t) {
      ProductComplete(vars, t);
    }
  }

  ghost predicate BeforeAt(vars: seq<DispatchVar>, t: Tuple, u: Tuple, d: nat, a: nat, b: nat) {
    && d < |vars| && a < b < |vars[d].values|
    && (forall e | 0 <= e < d :: vars[e].name in t && vars[e].name in u && t[vars[e].name] == u[vars[e].name])
    && vars[d].name in t && t[vars[d].name] == vars[d].values[a]
    && vars[d].name in u && u[vars[d].name] == vars[d].values[b]
  }

  /** `t` comes before `u`: equal on the first dimensions, then an earlier value on the next one. */
  ghost predicate Before(vars: seq<DispatchVar>, t: Tuple, u: Tuple) {
    exists d, a, b :: BeforeAt(vars, t, u, d, a, b)
  }

  /** Where an entry of an expansion comes from: positions keep the order of (old tuple, value). */
  lemma {:induction false} ExpandOrigin(ts: seq<Tuple>, v: DispatchVar, i: nat, j: nat)
      returns (q: nat, a: nat, p: nat, b: nat)
    requires i < j < |Expand(ts, v)|
    ensures q < |ts| && a < |v.values| && Expand(ts, v)[i] == ts[q][v.name := v.values[a]]
    ensures p < |ts| && b < |v.values| && Expand(ts, v)[j] == ts[p][v.name := v.values[b]]
    ensures q < p || (q == p && a < b)
  {
    var init, n := ts[..|ts| - 1], |ts| - 1;
    var cut := |Expand(init, v)|;
    if j < cut {
      q, a, p, b := ExpandOrigin(init, v, i, j);
    } else if cut <= i {
      q, a, p, b := n, i - cut, n, j - cut;
    } else {
      ExpandMember(init, v, Expand(init, v)[i]);
      q, a :| 0 <= q < |init| && 0 <= a < |v.values| && Expand(init, v)[i] == init[q][v.name := v.values[a]];
      p, b := n, j - cut;
    }
  }

  lemma EarlierDiffers(vars: seq<DispatchVar>, t: Tuple, u: Tuple, a: string, b: string, d: nat, x: nat, y: nat)
    requires vars != [] && DistinctVars(vars) && BeforeAt(vars[..|vars| - 1], t, u, d, x, y)
    ensures BeforeAt(vars, t[vars[|vars| - 1].name := a], u[vars[|vars| - 1].name := b], d, x, y)
  {
    assert forall e | 0 <= e <= d :: vars[e].name != vars[|vars| - 1].name;
  }

  lemma LastDiffers(vars: seq<DispatchVar>, t: Tuple, a: nat, b: nat)
    requires vars != [] && DistinctVars(vars) && a < b < |vars[|vars| - 1].values|
    requires TotalAssignment(vars[..|vars| - 1], t)
    ensures var v := vars[|vars| - 1];
      BeforeAt(vars, t[v.name := v.values[a]], t[v.name := v.values[b]], |vars| - 1, a, b)
  {
    var init := vars[..|vars| - 1];
    forall e | 0 <= e < |init|
      ensures vars[e].name in t && vars[e].name != vars[|vars| - 1].name
    {
      assert init[e] in init;
    }
  }

  /** The enumeration is lexicographic, the first variable outermost. */
  lemma {:induction false} ProductOrdered(vars: seq<DispatchVar>, i: nat, j: nat)
    requires DistinctVars(vars) && i < j < |Product(vars)|
    ensures Before(vars, Product(vars)[i], Product(vars)[j])
  {
    hide TotalAssignment, Expand;
    if vars != [] {
      var init, last := vars[..|vars| - 1], vars[|vars| - 1];
      var ts := Product(init);
      var q, a, p, b := ExpandOrigin(ts, last, i, j);
      if q < p {
        ProductOrdered(init, q, p);
        var d: nat, x: nat, y: nat :| BeforeAt(init, ts[q], ts[p], d, x, y);
        EarlierDiffers(vars, ts[q], ts[p], last.values[a], last.values[b], d, x, y);
      } else {
        ProductMember(init, ts[q]);
        LastDiffers(vars, ts[q], a, b);
      }
    }
  }

  /** With duplicate-free values no assignment is enumerated twice. */
  lemma ProductDistinct(vars: seq<DispatchVar>, i: nat, j: nat)
    requires DistinctVars(vars) && DistinctValues(vars) && i < j < |Product(vars)|
    ensures Product(vars)[i] != Product(vars)[j]
  {
    ProductOrdered(vars, i, j);
    var d: nat, a: nat, b: nat :| BeforeAt(vars, Product(vars)[i], Product(vars)[j], d, a, b);
    assert vars[d] in vars;
  }

  /** The computed dispatch space has distinct variables, so the results above apply to it. */
  lemma SpaceIsDistinct(vars: seq<DispatchVar>)
    requires StrictlySorted(Names(vars))
    ensures DistinctVars(vars)
  {
    NamesAre(vars);
    forall i, j | 0 <= i < j < |vars|
      ensures vars[i].name != vars[j].name
    {
      LessIrreflexive(vars[i].name);
      assert Less(Names(vars)[i], Names(vars)[j]);
    }
  }

  lemma NamesHold(dispatch: seq<DispatchVar>)
    ensures forall v | v in dispatch :: v.name in Names(dispatch)
    ensures forall n | n in Names(dispatch) :: exists v :: v in dispatch && v.name == n
  {
    NamesAre(dispatch);
    forall v | v in dispatch
      ensures v.name in Names(dispatch)
    {
      var i :| 0 <= i < |dispatch| && dispatch[i] == v;
      assert Names(dispatch)[i] == v.name;
    }
    forall n | n in Names(dispatch)
      ensures exists v :: v in dispatch && v.name == n
    {
      var i :| 0 <= i < |Names(dispatch)| && Names(dispatch)[i] == n;
      assert dispatch[i] in dispatch;
    }
  }

  lemma NamesSpan(dispatch: seq<DispatchVar>, t: Tuple)
    requires TotalAssignment(dispatch, t)
    ensures forall k :: k in t <==> k in Names(dispatch)
  {
    NamesAre(dispatch);
    forall k | k in Names(dispatch)
      ensures k in t
    {
      var i :| 0 <= i < |Names(dispatch)| && Names(dispatch)[i] == k;
      assert dispatch[i] in dispatch;
    }
    forall k | k in t
      ensures k in Names(dispatch)
    {
      var v :| v in dispatch && v.name == k;
      var i :| 0 <= i < |dispatch| && dispatch[i] == v;
      assert Names(dispatch)[i] == k;
    }
  }

  // ------------------------------------------------------------- what is enumerated, from branches and options

  ghost predicate Mentions(b: Branch, name: string) {
    if b.constraints != [] then exists c | c in b.constraints :: c.varname == name else b.varname == name
  }

  /** The values a build may give a variable: the closed architecture set, true and false, or what is declared. */
  ghost predicate Allowed(name: string, value: string, options: map<string, BstOption>) {
    if name == TARGET_ARCH then value in SUPPORTED_ARCHES
    else
      && name in options
      && if options[name].isBool && options[name].values == [] then value == "True" || value == "False"
         else value in options[name].values
  }

  lemma MentionedIs(b: Branch, name: string)
    ensures name in Mentioned(b) <==> Mentions(b, name)
  {
    if c :| c in b.constraints && c.varname == name {
      var i :| 0 <= i < |b.constraints| && b.constraints[i] == c;
      assert Mentioned(b)[i] == name;
    }
  }

  lemma ValuesAllowed(name: string, value: string, options: map<string, BstOption>)
    requires Dispatchable(name, options)
    ensures value in VarFor(name, options).values <==> Allowed(name, value, options)
  {
  }

  /** The variable is an option or the architecture, and some branch mentions it. */
  ghost predicate IsMentioned(branches: seq<Branch>, options: map<string, BstOption>, n: string) {
    n != "" && (n == TARGET_ARCH || n in options) && exists b :: b in branches && Mentions(b, n)
  }

  ghost predicate GivesMentioned(branches: seq<Branch>, options: map<string, BstOption>, t: Tuple) {
    forall n :: n in t <==> IsMentioned(branches, options, n)
  }

  ghost predicate GivesNames(dispatch: seq<DispatchVar>, t: Tuple) {
    forall n :: n in t <==> n in Names(dispatch)
  }

  /** A tuple of the space gives every such variable an allowed value, and nothing else. */
  ghost predicate Dispatches(branches: seq<Branch>, options: map<string, BstOption>, t: Tuple) {
    && GivesMentioned(branches, options, t)
    && (forall n | n in t :: Allowed(n, t[n], options))
  }

  lemma NamesAreMentioned(dispatch: seq<DispatchVar>, branches: seq<Branch>, options: map<string, BstOption>, n: string)
    requires SpaceOf(dispatch, branches, options)
    ensures n in Names(dispatch) <==> IsMentioned(branches, options, n)
  {
    hide Mentioned, Mentions;
    forall b
      ensures n in Mentioned(b) <==> Mentions(b, n)
    {
      MentionedIs(b, n);
    }
  }

  /** With the right names, the values are those of the space exactly when they are allowed. */
  lemma ValuesAreAllowed(dispatch: seq<DispatchVar>, branches: seq<Branch>, options: map<string, BstOption>, t: Tuple)
    requires SpaceOf(dispatch, branches, options) && GivesNames(dispatch, t)
    ensures TotalAssignment(dispatch, t) <==> forall n | n in t :: Allowed(n, t[n], options)
  {
    hide Names, Mentioned, Allowed, VarFor;
    NamesHold(dispatch);
    forall v | v in dispatch
      ensures t[v.name] in v.values <==> Allowed(v.name, t[v.name], options)
    {
      ValuesAllowed(v.name, t[v.name], options);
    }
  }

  lemma SpaceNames(dispatch: seq<DispatchVar>, branches: seq<Branch>, options: map<string, BstOption>, t: Tuple)
    requires SpaceOf(dispatch, branches, options)
    ensures GivesNames(dispatch, t) <==> GivesMentioned(branches, options, t)
    ensures TotalAssignment(dispatch, t) ==> GivesNames(dispatch, t)
  {
    hide Names, IsMentioned, SpaceOf, TotalAssignment;
    if TotalAssignment(dispatch, t) {
      NamesSpan(dispatch, t);
    }
    forall n
      ensures n in Names(dispatch) <==> IsMentioned(branches, options, n)
    {
      NamesAreMentioned(dispatch, branches, options, n);
    }
  }

  /** A dimension lists the architectures, True before False, or an option's values as declared. */
  lemma ValuesInOrder(dispatch: seq<DispatchVar>, branches: seq<Branch>, options: map<string, BstOption>, v: DispatchVar)
    requires SpaceOf(dispatch, branches, options) && v in dispatch
    ensures v.isPlatform <==> v.name == "target_arch"
    ensures v.isPlatform ==> v.values == ["x86_64", "aarch64", "i686", "ppc64le", "riscv64", "loongarch64"]
    ensures !v.isPlatform ==> v.name in options && var o := options[v.name];
      v.values == if o.isBool && o.values == [] then ["True", "False"] else o.values
  {
  }

  /** Exactly these are enumerated. */
  lemma SpaceCovers(dispatch: seq<DispatchVar>, branches: seq<Branch>, options: map<string, BstOption>, t: Tuple)
    requires SpaceOf(dispatch, branches, options)
    ensures t in Product(dispatch) <==> Dispatches(branches, options, t)
  {
    SpaceIsDistinct(dispatch);
    hide TotalAssignment, Names, Product, Allowed, SpaceOf, DistinctVars, GivesMentioned, GivesNames;
    ProductMember(dispatch, t);
    SpaceNames(dispatch, branches, options, t);
    if GivesNames(dispatch, t) {
      ValuesAreAllowed(dispatch, branches, options, t);
    }
  }
}
