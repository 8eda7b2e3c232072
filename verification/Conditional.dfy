/**
 cmd/write-a/conditional.go: what (?): branches mean.  Branches on load-time variables are
 folded into the variable map when the graph is loaded; the others are applied once per
 dispatch tuple.
 */
module Conditional {
  import opened Options
  import opened Sequences

  datatype Constraint = Constraint(varname: string, values: seq<string>)

  /** `varname` is empty for mixed-LHS branches (which carry constraints) and unrecognised ones. */
  datatype Branch = Branch(varname: string, arches: seq<string>, constraints: seq<Constraint>,
                           overrides: map<string, string>)

  type Vars = map<string, string>
  type Tuple = map<string, string>

  const TARGET_ARCH := "target_arch"
  const SUPPORTED_ARCHES: seq<string> := ["x86_64", "aarch64", "i686", "ppc64le", "riscv64", "loongarch64"]

  /** What decides a branch: load-time values, option-typed variables, and the dispatch tuple. */
  datatype Env = Env(staticVars: Vars, optionTyped: set<string>, tuple: Tuple)

  /** The branch survives load-time folding. */
  predicate Survives(staticVars: Vars, optionTyped: set<string>, b: Branch) {
    b.varname == TARGET_ARCH || b.varname == "" || b.varname in optionTyped || b.varname !in staticVars
  }

  /** resolveVarsForTuple's test: single-LHS only, so mixed-LHS branches never pass it. */
  predicate MatchesValue(b: Branch, values: map<string, string>) {
    b.varname in values && values[b.varname] in b.arches
  }

  predicate Satisfied(cs: seq<Constraint>, values: map<string, string>) {
    forall c | c in cs :: c.varname in values && values[c.varname] in c.values
  }

  /** A branch's condition holds under `values`: all constraints of a mixed-LHS branch, else the one test. */
  predicate BranchFires(b: Branch, values: map<string, string>) {
    if b.constraints != [] then Satisfied(b.constraints, values)
    else b.varname != "" && b.varname in values && values[b.varname] in b.arches
  }

  /** applyConditional */
  function Apply(vars: Vars, b: Branch): Vars {
    vars + b.overrides
  }

  predicate FoldsIn(staticVars: Vars, optionTyped: set<string>, b: Branch) {
    !Survives(staticVars, optionTyped, b) && MatchesValue(b, staticVars)
  }

  predicate FiresStatically(env: Env, b: Branch) {
    FoldsIn(env.staticVars, env.optionTyped, b)
  }

  predicate FiresOnTuple(env: Env, b: Branch) {
    Survives(env.staticVars, env.optionTyped, b) && MatchesValue(b, env.tuple)
  }

  /** The value the last branch that passes a test and sets a key gives it. */
  function LastSet(passes: Branch -> bool, bs: seq<Branch>, k: string): Option<string> {
    if bs == [] then None
    else
      var b := bs[|bs| - 1];
      if passes(b) && k in b.overrides then Some(b.overrides[k]) else LastSet(passes, bs[..|bs| - 1], k)
  }

  /** Branch `i` is that branch. */
  ghost predicate LastIs(passes: Branch -> bool, bs: seq<Branch>, i: int, k: string) {
    && 0 <= i < |bs| && passes(bs[i]) && k in bs[i].overrides
    && forall m | i < m < |bs| && passes(bs[m]) :: k !in bs[m].overrides
  }

  lemma {:induction false} LastSetIs(passes: Branch -> bool, bs: seq<Branch>, k: string)
    ensures forall i | LastIs(passes, bs, i, k) :: LastSet(passes, bs, k) == Some(bs[i].overrides[k])
    ensures LastSet(passes, bs, k).Some? <==> exists i :: LastIs(passes, bs, i, k)
  {
    if bs != [] {
      var init, n := bs[..|bs| - 1], |bs| - 1;
      LastSetIs(passes, init, k);
      if passes(bs[n]) && k in bs[n].overrides {
        assert LastIs(passes, bs, n, k);
      } else {
        forall i
          ensures LastIs(passes, bs, i, k) <==> LastIs(passes, init, i, k)
        {
        }
      }
    }
  }

  lemma LastSetStep(passes: Branch -> bool, bs: seq<Branch>, i: nat)
    requires i < |bs|
    ensures forall k :: LastSet(passes, bs[..i + 1], k) ==
                        if passes(bs[i]) && k in bs[i].overrides then Some(bs[i].overrides[k])
                        else LastSet(passes, bs[..i], k)
  {
    PrefixStep(bs, i);
  }

  lemma OneIsLast(passes: Branch -> bool, bs: seq<Branch>, i: int, j: int, k: string)
    requires LastIs(passes, bs, i, k) && LastIs(passes, bs, j, k)
    ensures i == j
  {
  }

  /** The tests: folded in at load time, matching the tuple, surviving and matching, holding in the reference reading. */
  function Folding(staticVars: Vars, optionTyped: set<string>): Branch -> bool {
    b => FoldsIn(staticVars, optionTyped, b)
  }

  function Matching(tuple: Tuple): Branch -> bool {
    b => MatchesValue(b, tuple)
  }

  function Dispatching(env: Env): Branch -> bool {
    b => FiresOnTuple(env, b)
  }

  function Holding(values: map<string, string>): Branch -> bool {
    b => BranchFires(b, values)
  }

  function Lookup(vars: Vars, k: string): Option<string> {
    if k in vars then Some(vars[k]) else None
  }

  function OrElse(a: Option<string>, b: Option<string>): Option<string> {
    if a.Some? then a else b
  }

  // ------------------------------------------------------------- load time

  function Remaining(staticVars: Vars, optionTyped: set<string>, bs: seq<Branch>): seq<Branch> {
    if bs == [] then []
    else
      var before := Remaining(staticVars, optionTyped, bs[..|bs| - 1]);
      if Survives(staticVars, optionTyped, bs[|bs| - 1]) then before + [bs[|bs| - 1]] else before
  }

  /** foldStaticConditionals */
  method FoldStaticConditionals(vars: Vars, branches: seq<Branch>, staticVars: Vars, optionTyped: set<string>)
    returns (out: Vars, remaining: seq<Branch>)
    ensures remaining == Remaining(staticVars, optionTyped, branches)
    ensures forall k :: Lookup(out, k) == OrElse(LastSet(Folding(staticVars, optionTyped), branches, k), Lookup(vars, k))
  {
    out, remaining := vars, [];
    for i := 0 to |branches|
      invariant remaining == Remaining(staticVars, optionTyped, branches[..i])
      invariant forall k ::
        Lookup(out, k) == OrElse(LastSet(Folding(staticVars, optionTyped), branches[..i], k), Lookup(vars, k))
    {
      var b := branches[i];
      LastSetStep(Folding(staticVars, optionTyped), branches, i);
      PrefixStep(branches, i);
      if Survives(staticVars, optionTyped, b) {
        remaining := remaining + [b];
      } else if staticVars[b.varname] in b.arches {
        out := Apply(out, b);
      }
    }
    WholePrefix(branches);
  }

  // ------------------------------------------------------------- per tuple

  /** One layer of resolveVarsForTuple: every matching branch applied in order. */
  method ApplyForTuple(vars: Vars, branches: seq<Branch>, tuple: Tuple) returns (out: Vars)
    ensures forall k :: Lookup(out, k) == OrElse(LastSet(Matching(tuple), branches, k), Lookup(vars, k))
  {
    out := vars;
    for i := 0 to |branches|
      invariant forall k :: Lookup(out, k) == OrElse(LastSet(Matching(tuple), branches[..i], k), Lookup(vars, k))
    {
      var b := branches[i];
      LastSetStep(Matching(tuple), branches, i);
      if b.varname in tuple && tuple[b.varname] in b.arches {
        out := Apply(out, b);
      }
    }
    WholePrefix(branches);
  }

  /** Folding leaves the dispatch branches, in order, and none of the others. */
  lemma {:induction false} RemainingKeepsDispatch(env: Env, bs: seq<Branch>, k: string)
    ensures LastSet(Matching(env.tuple), Remaining(env.staticVars, env.optionTyped, bs), k)
      == LastSet(Dispatching(env), bs, k)
  {
    if bs != [] {
      var before := Remaining(env.staticVars, env.optionTyped, bs[..|bs| - 1]);
      RemainingKeepsDispatch(env, bs[..|bs| - 1], k);
      assert (before + [bs[|bs| - 1]])[..|before|] == before;
    }
  }

  /** What folding at load time and then applying the rest per tuple gives a key. */
  function Compiled(env: Env, vars: Vars, bs: seq<Branch>, k: string): Option<string> {
    OrElse(LastSet(Dispatching(env), bs, k),
           OrElse(LastSet(Folding(env.staticVars, env.optionTyped), bs, k), Lookup(vars, k)))
  }

  /** The two stages together: last matching dispatch branch, else last matching static one, else the base. */
  method FoldThenApply(vars: Vars, branches: seq<Branch>, env: Env) returns (out: Vars)
    ensures forall k :: Lookup(out, k) == Compiled(env, vars, branches, k)
  {
    var folded, remaining := FoldStaticConditionals(vars, branches, env.staticVars, env.optionTyped);
    out := ApplyForTuple(folded, remaining, env.tuple);
    forall k
      ensures Lookup(out, k) == Compiled(env, vars, branches, k)
    {
      RemainingKeepsDispatch(env, branches, k);
    }
  }

  // ------------------------------------------------------------- reference meaning

  /** Known when the graph is loaded, and not a dispatch variable. */
  predicate LoadTime(env: Env, varname: string) {
    varname in env.staticVars && varname != TARGET_ARCH && varname != "" && varname !in env.optionTyped
  }

  /** The value of every variable: load-time variables from the command line, the others from the tuple. */
  function World(env: Env): (values: map<string, string>)
    ensures forall x :: x in values <==> LoadTime(env, x) || x in env.tuple
    ensures forall x | x in values :: values[x] == if LoadTime(env, x) then env.staticVars[x] else env.tuple[x]
  {
    map x | x in env.staticVars.Keys + env.tuple.Keys && (LoadTime(env, x) || x in env.tuple) ::
      if LoadTime(env, x) then env.staticVars[x] else env.tuple[x]
  }

  /** BuildStream's reading: every branch whose condition holds, in declaration order. */
  function InOrder(values: map<string, string>, vars: Vars, bs: seq<Branch>): Vars {
    if bs == [] then vars
    else
      var before := InOrder(values, vars, bs[..|bs| - 1]);
      if BranchFires(bs[|bs| - 1], values) then Apply(before, bs[|bs| - 1]) else before
  }

  lemma {:induction false} InOrderValue(values: map<string, string>, vars: Vars, bs: seq<Branch>, k: string)
    ensures Lookup(InOrder(values, vars, bs), k) == OrElse(LastSet(Holding(values), bs, k), Lookup(vars, k))
  {
    if bs != [] {
      InOrderValue(values, vars, bs[..|bs| - 1], k);
    }
  }

  // ------------------------------------------------------------- where the two part

  predicate Mixed(b: Branch) {
    b.constraints != []
  }

  /** Branches as MakeBranch builds them; no dispatch variable is nameless. */
  ghost predicate WellBuilt(env: Env, bs: seq<Branch>) {
    "" !in env.tuple && forall b | b in bs && Mixed(b) :: b.varname == ""
  }

  /** A branch fires in the reference reading by its constraints, statically, or on the tuple. */
  lemma SingleFires(env: Env, b: Branch)
    requires "" !in env.tuple && (Mixed(b) ==> b.varname == "")
    ensures !Mixed(b) ==> (BranchFires(b, World(env)) <==> FiresStatically(env, b) || FiresOnTuple(env, b))
    ensures Mixed(b) ==> !FiresStatically(env, b) && !FiresOnTuple(env, b)
  {
  }

  /** Branch `j` is the last one that fires and sets `k`. */
  ghost predicate Decides(env: Env, bs: seq<Branch>, j: int, k: string) {
    LastIs(Holding(World(env)), bs, j, k)
  }

  /** Static branch `j` decides `k` after dispatch branch `i`, the last of its kind, gave it another value. */
  ghost predicate Overtakes(env: Env, bs: seq<Branch>, i: int, j: int, k: string) {
    && i < j && LastIs(Dispatching(env), bs, i, k)
    && Decides(env, bs, j, k) && FiresStatically(env, bs[j])
    && bs[i].overrides[k] != bs[j].overrides[k]
  }

  /** The branches on a single variable. */
  function Singles(bs: seq<Branch>): seq<Branch> {
    if bs == [] then []
    else if Mixed(bs[|bs| - 1]) then Singles(bs[..|bs| - 1])
    else Singles(bs[..|bs| - 1]) + [bs[|bs| - 1]]
  }

  /** The last branch that passes the test and sets `k` gives it another value than `v`. */
  ghost predicate GivesOther(passes: Branch -> bool, bs: seq<Branch>, k: string, v: string) {
    exists i :: LastIs(passes, bs, i, k) && bs[i].overrides[k] != v
  }

  ghost predicate NobodyGives(passes: Branch -> bool, bs: seq<Branch>, k: string) {
    forall i | 0 <= i < |bs| && passes(bs[i]) :: k !in bs[i].overrides
  }

  /**
   Mixed-variable branch `j` decides `k`, and what stands in for it gives another value: the last dispatch
   branch that sets `k`, else the last static one, else the base.
   */
  ghost predicate Dropped(env: Env, vars: Vars, bs: seq<Branch>, j: int, k: string) {
    && Decides(env, bs, j, k) && Mixed(bs[j])
    && var v, folding := bs[j].overrides[k], Folding(env.staticVars, env.optionTyped);
      || GivesOther(Dispatching(env), bs, k, v)
      || (NobodyGives(Dispatching(env), bs, k)
          && (GivesOther(folding, bs, k, v)
              || (NobodyGives(folding, bs, k) && Lookup(vars, k) != Some(v))))
  }

  /** Mixed-variable branches have no effect at all on what is compiled. */
  lemma {:induction false} CompiledIgnoresMixed(env: Env, bs: seq<Branch>, k: string)
    requires WellBuilt(env, bs)
    ensures LastSet(Dispatching(env), Singles(bs), k) == LastSet(Dispatching(env), bs, k)
    ensures var folding := Folding(env.staticVars, env.optionTyped);
      LastSet(folding, Singles(bs), k) == LastSet(folding, bs, k)
    ensures forall vars :: Compiled(env, vars, Singles(bs), k) == Compiled(env, vars, bs, k)
  {
    if bs != [] {
      var init, last := bs[..|bs| - 1], bs[|bs| - 1];
      assert bs == init + [last];
      CompiledIgnoresMixed(env, init, k);
      SingleFires(env, last);
      assert (Singles(init) + [last])[..|Singles(init)|] == Singles(init);
    }
  }

  /** The last static branch is the deciding branch, if that one is static. */
  lemma {:induction false} StaticDecides(env: Env, bs: seq<Branch>, j: int, k: string)
    requires WellBuilt(env, bs) && Decides(env, bs, j, k) && FiresStatically(env, bs[j])
    ensures LastIs(Folding(env.staticVars, env.optionTyped), bs, j, k)
  {
    forall m | j < m < |bs| && FiresStatically(env, bs[m])
      ensures k !in bs[m].overrides
    {
      assert bs[m] in bs && Holding(World(env))(bs[m]) by { SingleFires(env, bs[m]); }
    }
  }

  /** Whatever is compiled in fires in the reference reading too. */
  lemma CompiledFires(env: Env, bs: seq<Branch>, i: int)
    requires WellBuilt(env, bs) && 0 <= i < |bs|
    requires FiresStatically(env, bs[i]) || FiresOnTuple(env, bs[i])
    ensures Holding(World(env))(bs[i])
  {
    assert bs[i] in bs;
    SingleFires(env, bs[i]);
  }

  lemma {:induction false} NobodySets(passes: Branch -> bool, bs: seq<Branch>, k: string)
    requires LastSet(passes, bs, k).None?
    ensures NobodyGives(passes, bs, k)
  {
    if bs != [] {
      NobodySets(passes, bs[..|bs| - 1], k);
    }
  }

  lemma NothingDecides(env: Env, bs: seq<Branch>, k: string)
    requires WellBuilt(env, bs) && forall j :: !Decides(env, bs, j, k)
    ensures LastSet(Dispatching(env), bs, k).None?
    ensures LastSet(Folding(env.staticVars, env.optionTyped), bs, k).None?
    ensures LastSet(Holding(World(env)), bs, k).None?
  {
    LastSetIs(Holding(World(env)), bs, k);
    forall j
      ensures !LastIs(Holding(World(env)), bs, j, k)
    {
      assert !Decides(env, bs, j, k);
    }
    NobodySets(Holding(World(env)), bs, k);
    LastSetIs(Dispatching(env), bs, k);
    LastSetIs(Folding(env.staticVars, env.optionTyped), bs, k);
    forall i | 0 <= i < |bs| && (FiresStatically(env, bs[i]) || FiresOnTuple(env, bs[i]))
      ensures k !in bs[i].overrides
    {
      CompiledFires(env, bs, i);
    }
  }

  /** The last dispatch branch gives the deciding value, or an overtaking branch comes later. */
  lemma DispatchOrOvertaken(env: Env, bs: seq<Branch>, i: int, j: int, k: string)
    requires WellBuilt(env, bs) && LastIs(Dispatching(env), bs, i, k) && Decides(env, bs, j, k)
    requires FiresStatically(env, bs[j]) || FiresOnTuple(env, bs[j])
    ensures bs[i].overrides[k] != bs[j].overrides[k] <==> exists i' :: Overtakes(env, bs, i', j, k)
  {
    CompiledFires(env, bs, i);
    if bs[i].overrides[k] != bs[j].overrides[k] {
      assert Dispatching(env)(bs[i]);
      assert i < j;
      assert !Dispatching(env)(bs[j]);
      assert Overtakes(env, bs, i, j, k);
    }
    forall i' | LastIs(Dispatching(env), bs, i', k)
      ensures i' == i
    {
      OneIsLast(Dispatching(env), bs, i, i', k);
    }
  }

  /** The deciding branch is on one variable: the compiled value is its own, unless it overtakes. */
  lemma SingleDecides(env: Env, vars: Vars, bs: seq<Branch>, j: int, k: string)
    requires WellBuilt(env, bs) && Decides(env, bs, j, k) && !Mixed(bs[j])
    ensures Compiled(env, vars, bs, k) == Some(bs[j].overrides[k]) <==> !exists i :: Overtakes(env, bs, i, j, k)
  {
    LastSetIs(Dispatching(env), bs, k);
    assert bs[j] in bs;
    SingleFires(env, bs[j]);
    if i :| LastIs(Dispatching(env), bs, i, k) {
      DispatchOrOvertaken(env, bs, i, j, k);
    } else {
      NobodySets(Dispatching(env), bs, k);
      assert !FiresOnTuple(env, bs[j]) by { assert !Dispatching(env)(bs[j]); }
      StaticDecides(env, bs, j, k);
      LastSetIs(Folding(env.staticVars, env.optionTyped), bs, k);
    }
  }

  /** What one test gives a key is not `v`: the last branch that passes sets another value, or none sets it. */
  lemma OtherThan(passes: Branch -> bool, bs: seq<Branch>, k: string, v: string)
    ensures LastSet(passes, bs, k).Some? && LastSet(passes, bs, k) != Some(v) <==> GivesOther(passes, bs, k, v)
    ensures LastSet(passes, bs, k).None? <==> NobodyGives(passes, bs, k)
  {
    LastSetIs(passes, bs, k);
    if LastSet(passes, bs, k).None? {
      NobodySets(passes, bs, k);
    }
  }

  /** The deciding branch is on several variables: the compiled value is its own, unless it is dropped. */
  lemma MixedDecides(env: Env, vars: Vars, bs: seq<Branch>, j: int, k: string)
    requires Decides(env, bs, j, k) && Mixed(bs[j])
    ensures Compiled(env, vars, bs, k) == Some(bs[j].overrides[k]) <==> !Dropped(env, vars, bs, j, k)
  {
    OtherThan(Dispatching(env), bs, k, bs[j].overrides[k]);
    OtherThan(Folding(env.staticVars, env.optionTyped), bs, k, bs[j].overrides[k]);
  }

  /**
   Main result.  For one key, compiling agrees with declaration order exactly when no static branch
   overtakes the dispatch branch that last set the key and no deciding mixed-variable branch is dropped.
   */
  lemma CompiledAgreesExactly(env: Env, vars: Vars, bs: seq<Branch>, k: string)
    requires WellBuilt(env, bs)
    ensures Compiled(env, vars, bs, k) == Lookup(InOrder(World(env), vars, bs), k)
      <==> !(exists i, j :: Overtakes(env, bs, i, j, k)) && !(exists j :: Dropped(env, vars, bs, j, k))
  {
    InOrderValue(World(env), vars, bs, k);
    if j :| Decides(env, bs, j, k) {
      LastSetIs(Holding(World(env)), bs, k);
      forall m | Decides(env, bs, m, k)
        ensures m == j
      {
        OneIsLast(Holding(World(env)), bs, j, m, k);
      }
      if Mixed(bs[j]) {
        MixedDecides(env, vars, bs, j, k);
      } else {
        SingleDecides(env, vars, bs, j, k);
      }
    } else {
      NothingDecides(env, bs, k);
    }
  }

  /** A concrete block where the two readings differ: the static branch is declared last and loses. */
  lemma {:induction false} StaticDeclaredLastLoses()
    ensures var env := Env(map["host_arch" := "x86_64"], {}, map[TARGET_ARCH := "aarch64"]);
      var bs := [Branch(TARGET_ARCH, ["aarch64"], [], map["flags" := "neon"]),
                 Branch("host_arch", ["x86_64"], [], map["flags" := "cross"])];
      && Compiled(env, map[], bs, "flags") == Some("neon")
      && InOrder(World(env), map[], bs) == map["flags" := "cross"]
  {
    var env := Env(map["host_arch" := "x86_64"], {}, map[TARGET_ARCH := "aarch64"]);
    var b0 := Branch(TARGET_ARCH, ["aarch64"], [], map["flags" := "neon"]);
    var b1 := Branch("host_arch", ["x86_64"], [], map["flags" := "cross"]);
    assert "host_arch"[0] != TARGET_ARCH[0];
    assert FiresOnTuple(env, b0) && FiresStatically(env, b1) && !FiresOnTuple(env, b1);
    assert [b0, b1][..1] == [b0] && [b0][..0] == [];
    assert InOrder(World(env), map[], [b0]) == map["flags" := "neon"];
    assert LastSet(Dispatching(env), [b0], "flags") == Some("neon");
  }

  /** And one with a single branch on two variables: both have the asked value, and nothing is set. */
  lemma {:induction false} MixedBranchIsDropped(env: Env, option: string, b: Branch)
    requires option != TARGET_ARCH && option != ""
    requires env == Env(map[], {option}, map[TARGET_ARCH := "x86_64", option := "True"])
    requires b == Branch("", [], [Constraint(TARGET_ARCH, ["x86_64"]), Constraint(option, ["True"])], map["flags" := "v"])
    ensures Compiled(env, map[], [b], "flags") == None
    ensures InOrder(World(env), map[], [b]) == map["flags" := "v"]
  {
    assert !Dispatching(env)(b) && !Folding(env.staticVars, env.optionTyped)(b);
    LastSetStep(Dispatching(env), [b], 0);
    LastSetStep(Folding(env.staticVars, env.optionTyped), [b], 0);
    WholePrefix([b]);
    assert Satisfied(b.constraints, World(env));
    assert [b][..0] == [];
    assert InOrder(World(env), map[], [b]) == Apply(map[], b);
  }

  /** resolveVarsForTuple: both layers, with the tuple's own values seeded above the project layer. */
  method ResolveVarsForTuple(projectConf: Vars, elemVars: Vars, tuple: Tuple,
                             projectConditionals: seq<Branch>, elemConditionals: seq<Branch>)
    returns (pc: Vars, ev: Vars)
    ensures forall k ::
      Lookup(pc, k)
        == OrElse(Lookup(tuple, k), OrElse(LastSet(Matching(tuple), projectConditionals, k), Lookup(projectConf, k)))
    ensures forall k :: Lookup(ev, k) == OrElse(LastSet(Matching(tuple), elemConditionals, k), Lookup(elemVars, k))
  {
    pc := ApplyForTuple(projectConf, projectConditionals, tuple);
    pc := pc + tuple;
    ev := ApplyForTuple(elemVars, elemConditionals, tuple);
  }
}
