/**
 cmd/write-a/handler_pipeline.go, renderInstallGenruleBody: from an element's own (?): branches to
 what its install rule runs.  The dispatch space is taken from the branches, every tuple of it is
 resolved, and the results are grouped and rendered.
 */
module PipelineInstall {
  import opened Conditional
  import opened ConfigOverrides
  import opened DispatchGroups
  import opened DispatchRender
  import opened DispatchSpace
  import opened Options
  import opened Ordering

  /** The parts of an element that its install rule is made of, with the merged default commands. */
  datatype Element = Element(confVars: Vars, elemVars: Vars, confBranches: seq<Branch>, elemBranches: seq<Branch>,
                             configBranches: seq<ConfigBranch>, base: PhaseCommands)

  datatype VarsOutcome = Known(vars: Vars) | NotDefined(message: string) | Faulty(message: string)

  /** Expanding the variables of the two layers, and substituting them into commands and environment. */
  datatype Resolver = Resolver(resolveVars: (Vars, Vars) -> VarsOutcome, substitute: (Vars, PhaseCommands) -> Resolution)

  function Conditions(bs: seq<ConfigBranch>): seq<Branch> {
    seq(|bs|, i requires 0 <= i < |bs| => bs[i].condition)
  }

  /** Every branch of the element, in the order its dispatch variables are collected. */
  function Branches(e: Element): seq<Branch> {
    e.confBranches + e.elemBranches + Conditions(e.configBranches)
  }

  /** Branches as MakeBranch builds them. */
  ghost predicate Built(bs: seq<Branch>) {
    forall b | b in bs && Mixed(b) :: b.varname == ""
  }

  // ------------------------------------------------------------- one tuple

  /** `vars` with every branch applied that matches the values, in order. */
  function Applied(vars: Vars, bs: seq<Branch>, values: Tuple): Vars {
    if bs == [] then vars
    else
      var before := Applied(vars, bs[..|bs| - 1], values);
      if MatchesValue(bs[|bs| - 1], values) then Apply(before, bs[|bs| - 1]) else before
  }

  lemma {:induction false} AppliedValue(vars: Vars, bs: seq<Branch>, values: Tuple, k: string)
    ensures Lookup(Applied(vars, bs, values), k) == OrElse(LastSet(Matching(values), bs, k), Lookup(vars, k))
  {
    if bs != [] {
      AppliedValue(vars, bs[..|bs| - 1], values, k);
    }
  }

  lemma SameLookups(a: Vars, b: Vars)
    requires forall k :: Lookup(a, k) == Lookup(b, k)
    ensures a == b
  {
    forall k
      ensures k in a <==> k in b
      ensures k in a ==> a[k] == b[k]
    {
      assert Lookup(a, k) == Lookup(b, k);
    }
    assert a.Keys == b.Keys;
  }

  function Override(c: PhaseCommands, o: PipelineCfg): PhaseCommands {
    PhaseCommands(ConfigOverrides.Chosen(ConfigOverrides.Setting(o, Configure), c.configure),
                  ConfigOverrides.Chosen(ConfigOverrides.Setting(o, Build), c.build),
                  ConfigOverrides.Chosen(ConfigOverrides.Setting(o, Install), c.install),
                  ConfigOverrides.Chosen(ConfigOverrides.Setting(o, Strip), c.strip))
  }

  /** The command lists after every config branch that fires; None when one of those does not decode. */
  function OverriddenAt(base: PhaseCommands, bs: seq<ConfigBranch>, values: Tuple): Option<PhaseCommands> {
    if bs == [] then Some(base)
    else
      var before, last := OverriddenAt(base, bs[..|bs| - 1], values), bs[|bs| - 1];
      if before.None? || !BranchFires(last.condition, values) then before
      else if last.override.None? then None
      else Some(Override(before.value, last.override.value))
  }

  lemma {:induction false} OverriddenIs(base: PhaseCommands, bs: seq<ConfigBranch>, values: Tuple, phase: Phase)
    ensures OverriddenAt(base, bs, values).None?
      <==> exists b | b in bs :: BranchFires(b.condition, values) && b.override.None?
    ensures OverriddenAt(base, bs, values).Some? ==>
      ConfigOverrides.Resolved(base, bs, values, phase, Commands(OverriddenAt(base, bs, values).value, phase))
  {
    hide BranchFires;
    if bs != [] {
      var init, n := bs[..|bs| - 1], |bs| - 1;
      OverriddenIs(base, init, values, phase);
      assert bs == init + [bs[n]] && bs[..n + 1] == bs;
      if OverriddenAt(base, bs, values).Some? {
        ResolvedStep(base, bs, values, phase, n, Commands(OverriddenAt(base, init, values).value, phase),
                     Commands(OverriddenAt(base, bs, values).value, phase));
      }
    }
  }

  lemma SameCommandLists(a: PhaseCommands, b: PhaseCommands)
    requires forall phase :: Commands(a, phase) == Commands(b, phase)
    ensures a == b
  {
    assert Commands(a, Configure) == Commands(b, Configure) && Commands(a, Build) == Commands(b, Build);
    assert Commands(a, Install) == Commands(b, Install) && Commands(a, Strip) == Commands(b, Strip);
  }

  const UNDECODED := "decode config:(?): branch"

  /** What the element resolves to when its branches see `values` and `seeds` can be referred to by name. */
  function Decided(e: Element, rs: Resolver, values: Tuple, seeds: Tuple): Resolution {
    match rs.resolveVars(Applied(e.confVars, e.confBranches, values) + seeds, Applied(e.elemVars, e.elemBranches, values))
    case NotDefined(message) => Undefined(message)
    case Faulty(message) => Broken(message)
    case Known(vars) =>
      match OverriddenAt(e.base, e.configBranches, values)
      case None => Broken(UNDECODED)
      case Some(commands) => rs.substitute(vars, commands)
  }

  function ResolverOf(e: Element, rs: Resolver): Tuple -> Resolution {
    t => Decided(e, rs, t, t)
  }

  lemma {:induction false} NothingApplies(vars: Vars, bs: seq<Branch>)
    ensures Applied(vars, bs, map[]) == vars
  {
    if bs != [] {
      NothingApplies(vars, bs[..|bs| - 1]);
    }
  }

  lemma OverridesDetermined(e: Element, values: Tuple, r: Option<PhaseCommands>)
    requires r.None? <==> exists b | b in e.configBranches :: BranchFires(b.condition, values) && b.override.None?
    requires r.Some? ==>
      forall phase :: ConfigOverrides.Resolved(e.base, e.configBranches, values, phase, Commands(r.value, phase))
    ensures r == OverriddenAt(e.base, e.configBranches, values)
  {
    OverriddenIs(e.base, e.configBranches, values, Configure);
    if r.Some? {
      var s := OverriddenAt(e.base, e.configBranches, values).value;
      forall phase
        ensures Commands(r.value, phase) == Commands(s, phase)
      {
        OverriddenIs(e.base, e.configBranches, values, phase);
        ResolvedOnce(e.base, e.configBranches, values, phase, Commands(r.value, phase), Commands(s, phase));
      }
      SameCommandLists(r.value, s);
    }
  }

  lemma LayersDetermined(e: Element, tuple: Tuple, pc: Vars, ev: Vars)
    requires forall k ::
      Lookup(pc, k) == OrElse(Lookup(tuple, k), OrElse(LastSet(Matching(tuple), e.confBranches, k), Lookup(e.confVars, k)))
    requires forall k :: Lookup(ev, k) == OrElse(LastSet(Matching(tuple), e.elemBranches, k), Lookup(e.elemVars, k))
    ensures pc == Applied(e.confVars, e.confBranches, tuple) + tuple
    ensures ev == Applied(e.elemVars, e.elemBranches, tuple)
  {
    forall k
      ensures Lookup(pc, k) == Lookup(Applied(e.confVars, e.confBranches, tuple) + tuple, k)
      ensures Lookup(ev, k) == Lookup(Applied(e.elemVars, e.elemBranches, tuple), k)
    {
      AppliedValue(e.confVars, e.confBranches, tuple, k);
      AppliedValue(e.elemVars, e.elemBranches, tuple, k);
    }
    SameLookups(pc, Applied(e.confVars, e.confBranches, tuple) + tuple);
    SameLookups(ev, Applied(e.elemVars, e.elemBranches, tuple));
  }

  // ------------------------------------------------------------- the same, from the branches alone

  /** A layer: seeds first, else what the last matching branch that sets a variable gives it, else the base. */
  ghost predicate LayerIs(layer: Vars, base: Vars, bs: seq<Branch>, values: Tuple, seeds: Tuple) {
    forall k :: Lookup(layer, k) == OrElse(Lookup(seeds, k), OrElse(LastSet(Matching(values), bs, k), Lookup(base, k)))
  }

  /** Some config branch that fires does not decode. */
  ghost predicate FiresUndecoded(bs: seq<ConfigBranch>, values: Tuple) {
    exists b | b in bs :: BranchFires(b.condition, values) && b.override.None?
  }

  /** Every command list comes from the last config branch that fires and sets it, or else from the base. */
  ghost predicate CommandsAre(e: Element, values: Tuple, c: PhaseCommands) {
    forall phase :: ConfigOverrides.Resolved(e.base, e.configBranches, values, phase, Commands(c, phase))
  }

  /** What becomes of the two layers: errors of the variables first, then a config branch that does not decode. */
  ghost predicate OutcomeIs(e: Element, rs: Resolver, values: Tuple, pc: Vars, ev: Vars, res: Resolution) {
    match rs.resolveVars(pc, ev)
    case NotDefined(message) => res == Undefined(message)
    case Faulty(message) => res == Broken(message)
    case Known(vars) =>
      if FiresUndecoded(e.configBranches, values) then res == Broken(UNDECODED)
      else exists c :: CommandsAre(e, values, c) && res == rs.substitute(vars, c)
  }

  /** The element's branches, seeing `values`, decide on `res`. */
  ghost predicate DecidedBy(e: Element, rs: Resolver, values: Tuple, seeds: Tuple, res: Resolution) {
    exists pc, ev ::
      && LayerIs(pc, e.confVars, e.confBranches, values, seeds)
      && LayerIs(ev, e.elemVars, e.elemBranches, values, map[])
      && OutcomeIs(e, rs, values, pc, ev, res)
  }

  lemma LayerOnce(a: Vars, b: Vars, base: Vars, bs: seq<Branch>, values: Tuple, seeds: Tuple)
    requires LayerIs(a, base, bs, values, seeds) && LayerIs(b, base, bs, values, seeds)
    ensures a == b
  {
    forall k
      ensures Lookup(a, k) == Lookup(b, k)
    {
    }
    SameLookups(a, b);
  }

  lemma AppliedIsLayer(base: Vars, bs: seq<Branch>, values: Tuple, seeds: Tuple)
    ensures LayerIs(Applied(base, bs, values) + seeds, base, bs, values, seeds)
  {
    forall k
      ensures Lookup(Applied(base, bs, values) + seeds, k)
        == OrElse(Lookup(seeds, k), OrElse(LastSet(Matching(values), bs, k), Lookup(base, k)))
    {
      AppliedValue(base, bs, values, k);
    }
  }

  lemma CommandsOnce(e: Element, values: Tuple, c: PhaseCommands)
    ensures OverriddenAt(e.base, e.configBranches, values).None? <==> FiresUndecoded(e.configBranches, values)
    ensures !FiresUndecoded(e.configBranches, values) ==>
      (CommandsAre(e, values, c) <==> OverriddenAt(e.base, e.configBranches, values) == Some(c))
  {
    OverriddenIs(e.base, e.configBranches, values, Configure);
    if !FiresUndecoded(e.configBranches, values) {
      forall phase
        ensures ConfigOverrides.Resolved(e.base, e.configBranches, values, phase,
                                         Commands(OverriddenAt(e.base, e.configBranches, values).value, phase))
      {
        OverriddenIs(e.base, e.configBranches, values, phase);
      }
      if CommandsAre(e, values, c) {
        OverridesDetermined(e, values, Some(c));
      }
    }
  }

  lemma OutcomeOnce(e: Element, rs: Resolver, values: Tuple, seeds: Tuple, res: Resolution)
    ensures OutcomeIs(e, rs, values, Applied(e.confVars, e.confBranches, values) + seeds,
                      Applied(e.elemVars, e.elemBranches, values), res)
      <==> res == Decided(e, rs, values, seeds)
  {
    var commands := OverriddenAt(e.base, e.configBranches, values);
    CommandsOnce(e, values, if commands.Some? then commands.value else e.base);
    forall c
      ensures !FiresUndecoded(e.configBranches, values) ==> (CommandsAre(e, values, c) <==> commands == Some(c))
    {
      CommandsOnce(e, values, c);
    }
  }

  /** The branches decide on exactly one outcome, the one computed. */
  lemma DecidedIs(e: Element, rs: Resolver, values: Tuple, seeds: Tuple, res: Resolution)
    ensures DecidedBy(e, rs, values, seeds, res) <==> res == Decided(e, rs, values, seeds)
  {
    var pc, ev := Applied(e.confVars, e.confBranches, values) + seeds, Applied(e.elemVars, e.elemBranches, values);
    AppliedIsLayer(e.confVars, e.confBranches, values, seeds);
    AppliedIsLayer(e.elemVars, e.elemBranches, values, map[]);
    assert ev + map[] == ev;
    forall a, b
      | LayerIs(a, e.confVars, e.confBranches, values, seeds) && LayerIs(b, e.elemVars, e.elemBranches, values, map[])
      ensures a == pc && b == ev
    {
      LayerOnce(a, pc, e.confVars, e.confBranches, values, seeds);
      LayerOnce(b, ev, e.elemVars, e.elemBranches, values, map[]);
    }
    OutcomeOnce(e, rs, values, seeds, res);
  }

  /** The resolveAt closure. */
  method ResolveAt(e: Element, rs: Resolver, tuple: Tuple) returns (r: Resolution)
    ensures r == ResolverOf(e, rs)(tuple)
    ensures DecidedBy(e, rs, tuple, tuple, r)
  {
    hide Applied, OverriddenAt, LastSet, Lookup, OrElse, ConfigOverrides.Resolved;
    var pc, ev := e.confVars, e.elemVars;
    if |tuple| == 0 {
      assert tuple == map[] && pc + map[] == pc;
      NothingApplies(pc, e.confBranches);
      NothingApplies(ev, e.elemBranches);
    } else {
      pc, ev := ResolveVarsForTuple(e.confVars, e.elemVars, tuple, e.confBranches, e.elemBranches);
      LayersDetermined(e, tuple, pc, ev);
    }
    var outcome := rs.resolveVars(pc, ev);
    match outcome
    case NotDefined(message) =>
      r := Undefined(message);
      DecidedIs(e, rs, tuple, tuple, r);
    case Faulty(message) =>
      r := Broken(message);
      DecidedIs(e, rs, tuple, tuple, r);
    case Known(vars) =>
      var commands := ApplyConfigConditionalOverrides(e.base, e.configBranches, tuple);
      OverridesDetermined(e, tuple, commands);
      if commands.None? {
        r := Broken(UNDECODED);
      } else {
        r := rs.substitute(vars, commands.value);
      }
      DecidedIs(e, rs, tuple, tuple, r);
  }

  // ------------------------------------------------------------- build configurations

  /** A build gives every dispatchable variable one of its values. */
  ghost predicate Configuration(options: map<string, BstOption>, w: Tuple) {
    && (forall n :: n in w <==> n != "" && (n == TARGET_ARCH || n in options))
    && (forall n | n in w :: Allowed(n, w[n], options))
  }

  /** The part of a configuration the element dispatches on. */
  function At(dispatch: seq<DispatchVar>, w: Tuple): Tuple {
    map n | n in w && n in Names(dispatch) :: w[n]
  }

  lemma AtIsTuple(dispatch: seq<DispatchVar>, branches: seq<Branch>, options: map<string, BstOption>, w: Tuple)
    requires SpaceOf(dispatch, branches, options) && Configuration(options, w)
    ensures At(dispatch, w) in Product(dispatch)
  {
    hide Product, Names;
    NamesHold(dispatch);
    SpaceIsDistinct(dispatch);
    ProductMember(dispatch, At(dispatch, w));
  }

  /** A branch decides by the variables it mentions, so it fires alike on a configuration and on its tuple. */
  lemma MentionedDecide(dispatch: seq<DispatchVar>, branches: seq<Branch>, options: map<string, BstOption>,
                        w: Tuple, b: Branch)
    requires SpaceOf(dispatch, branches, options) && Configuration(options, w) && b in branches
    ensures BranchFires(b, At(dispatch, w)) <==> BranchFires(b, w)
    ensures (Mixed(b) ==> b.varname == "") ==> (MatchesValue(b, At(dispatch, w)) <==> MatchesValue(b, w))
  {
    forall n | n in Mentioned(b)
      ensures n in w <==> n in At(dispatch, w)
    {
      assert n in w ==> n in Names(dispatch);
    }
    if Mixed(b) {
      forall c | c in b.constraints
        ensures c.varname in w <==> c.varname in At(dispatch, w)
      {
        var i :| 0 <= i < |b.constraints| && b.constraints[i] == c;
        assert Mentioned(b)[i] == c.varname;
      }
    } else {
      assert Mentioned(b)[0] == b.varname;
    }
  }

  lemma {:induction false} AppliedAlike(vars: Vars, bs: seq<Branch>, t: Tuple, w: Tuple)
    requires forall b | b in bs :: MatchesValue(b, t) <==> MatchesValue(b, w)
    ensures Applied(vars, bs, t) == Applied(vars, bs, w)
  {
    if bs != [] {
      assert bs[|bs| - 1] in bs;
      AppliedAlike(vars, bs[..|bs| - 1], t, w);
    }
  }

  lemma {:induction false} OverriddenAlike(base: PhaseCommands, bs: seq<ConfigBranch>, t: Tuple, w: Tuple)
    requires forall b | b in bs :: BranchFires(b.condition, t) <==> BranchFires(b.condition, w)
    ensures OverriddenAt(base, bs, t) == OverriddenAt(base, bs, w)
  {
    if bs != [] {
      assert bs[|bs| - 1] in bs;
      OverriddenAlike(base, bs[..|bs| - 1], t, w);
    }
  }

  /** Dispatching loses nothing: a tuple resolves to what the branches decide on the whole configuration. */
  lemma TupleDecides(e: Element, rs: Resolver, dispatch: seq<DispatchVar>, options: map<string, BstOption>, w: Tuple)
    requires SpaceOf(dispatch, Branches(e), options) && Built(Branches(e)) && Configuration(options, w)
    ensures ResolverOf(e, rs)(At(dispatch, w)) == Decided(e, rs, w, At(dispatch, w))
    ensures DecidedBy(e, rs, w, At(dispatch, w), ResolverOf(e, rs)(At(dispatch, w)))
  {
    var t := At(dispatch, w);
    DecidedIs(e, rs, w, t, Decided(e, rs, w, t));
    forall b | b in Branches(e)
      ensures BranchFires(b, t) <==> BranchFires(b, w)
      ensures MatchesValue(b, t) <==> MatchesValue(b, w)
    {
      MentionedDecide(dispatch, Branches(e), options, w, b);
    }
    AppliedAlike(e.confVars, e.confBranches, t, w);
    AppliedAlike(e.elemVars, e.elemBranches, t, w);
    forall b | b in e.configBranches
      ensures BranchFires(b.condition, t) <==> BranchFires(b.condition, w)
    {
      var i :| 0 <= i < |e.configBranches| && e.configBranches[i] == b;
      assert Conditions(e.configBranches)[i] == b.condition;
      assert b.condition in Branches(e);
    }
    OverriddenAlike(e.base, e.configBranches, t, w);
  }

  // ------------------------------------------------------------- what a configuration runs

  lemma ValuesAlike(dispatch: seq<DispatchVar>, w: Tuple)
    ensures forall n | n in Names(dispatch) :: ValueOf(At(dispatch, w), n) == ValueOf(w, n)
    ensures forall v | v in dispatch :: v.name in Names(dispatch)
  {
    NamesHold(dispatch);
  }

  lemma LabelsAlike(dispatch: seq<DispatchVar>, w: Tuple)
    ensures SelectLabel(dispatch, At(dispatch, w)) == SelectLabel(dispatch, w)
  {
    ValuesAlike(dispatch, w);
    forall i | 0 <= i < |Names(dispatch)|
      ensures Sanitized(ValueOf(At(dispatch, w), Names(dispatch)[i])) == Sanitized(ValueOf(w, Names(dispatch)[i]))
    {
      assert Names(dispatch)[i] in Names(dispatch);
    }
    assert SanitizedValues(At(dispatch, w), Names(dispatch)) == SanitizedValues(w, Names(dispatch));
    if |dispatch| == 1 {
      assert dispatch[0] in dispatch;
    }
  }

  /** The file asks only for dispatch variables, so a build and its tuple run the same. */
  lemma RunsAlike(dispatch: seq<DispatchVar>, r: Rendered, w: Tuple, p: Phases)
    ensures Runs(dispatch, r, w, p) <==> Runs(dispatch, r, At(dispatch, w), p)
  {
    var t := At(dispatch, w);
    ValuesAlike(dispatch, w);
    LabelsAlike(dispatch, w);
    if r.Select? {
      forall s
        ensures Satisfies(dispatch, w, s) <==> Satisfies(dispatch, t, s)
      {
        assert forall v | v in dispatch :: ValueOf(t, v.name) == ValueOf(w, v.name);
      }
      forall arm | arm in r.arms
        ensures DispatchRender.Chosen(dispatch, r.settings, arm.key, w)
          <==> DispatchRender.Chosen(dispatch, r.settings, arm.key, t)
      {
      }
    }
  }

  /** Every build runs what the element's branches decide on its configuration, and nothing else. */
  ghost predicate RunsDecided(e: Element, rs: Resolver, options: map<string, BstOption>, dispatch: seq<DispatchVar>,
                              r: Rendered)
  {
    forall w, res, p | Configuration(options, w) && DecidedBy(e, rs, w, At(dispatch, w), res) && res.Resolved? ::
      Runs(dispatch, r, w, p) <==> p == res.phases
  }

  /** Every option has a value. */
  ghost predicate Declared(options: map<string, BstOption>) {
    forall n | Dispatchable(n, options) :: VarFor(n, options).values != []
  }

  /** The tuple's values, and any value for the other variables. */
  function Completed(options: map<string, BstOption>, t: Tuple): Tuple
    requires Declared(options)
  {
    map n | n in options.Keys + {TARGET_ARCH} && Dispatchable(n, options) ::
      if n in t then t[n] else VarFor(n, options).values[0]
  }

  lemma CompletedConfigures(options: map<string, BstOption>, t: Tuple)
    requires Declared(options) && forall n | n in t && Dispatchable(n, options) :: t[n] in VarFor(n, options).values
    ensures Configuration(options, Completed(options, t))
  {
    forall n | Dispatchable(n, options)
      ensures n in options.Keys + {TARGET_ARCH}
    {
    }
  }

  lemma ValuesOfTuple(dispatch: seq<DispatchVar>, branches: seq<Branch>, options: map<string, BstOption>, t: Tuple)
    requires SpaceOf(dispatch, branches, options) && t in Product(dispatch)
    ensures forall n :: n in t <==> n in Names(dispatch)
    ensures forall n | n in t :: Dispatchable(n, options) && t[n] in VarFor(n, options).values
  {
    SpaceIsDistinct(dispatch);
    ProductMember(dispatch, t);
    NamesSpan(dispatch, t);
    forall n | n in t
      ensures Dispatchable(n, options) && t[n] in VarFor(n, options).values
    {
      var v :| v in dispatch && v.name == n;
    }
  }

  /** A tuple of the space is the tuple of some configuration. */
  lemma Extended(dispatch: seq<DispatchVar>, branches: seq<Branch>, options: map<string, BstOption>, t: Tuple)
    requires SpaceOf(dispatch, branches, options) && Declared(options) && t in Product(dispatch)
    ensures Configuration(options, Completed(options, t)) && At(dispatch, Completed(options, t)) == t
  {
    hide Product, SpaceOf, Configuration, VarFor;
    ValuesOfTuple(dispatch, branches, options, t);
    CompletedConfigures(options, t);
    assert At(dispatch, Completed(options, t)).Keys == t.Keys;
  }

  /**
   Main result on a rendered element: every build runs what the branches decide on its configuration
   exactly when the BUILD file loads and no two results share a key.
   */
  lemma RunsDecidedExactly(e: Element, rs: Resolver, options: map<string, BstOption>, dispatch: seq<DispatchVar>,
                           r: Rendered)
    requires SpaceOf(dispatch, Branches(e), options) && Built(Branches(e)) && Declared(options)
    requires Faithful(dispatch, ResolverOf(e, rs), r) && !r.Nothing?
    ensures RunsDecided(e, rs, options, dispatch, r) <==> Loads(r) && KeysTellApart(Product(dispatch), ResolverOf(e, rs))
  {
    var resolveAt := ResolverOf(e, rs);
    if RunsOwn(dispatch, r, resolveAt) {
      forall w, res, p | Configuration(options, w) && DecidedBy(e, rs, w, At(dispatch, w), res) && res.Resolved?
        ensures Runs(dispatch, r, w, p) <==> p == res.phases
      {
        DecidedIs(e, rs, w, At(dispatch, w), res);
        AtIsTuple(dispatch, Branches(e), options, w);
        TupleDecides(e, rs, dispatch, options, w);
        RunsAlike(dispatch, r, w, p);
      }
    }
    if RunsDecided(e, rs, options, dispatch, r) {
      forall t, p | t in Product(dispatch) && resolveAt(t).Resolved?
        ensures Runs(dispatch, r, t, p) <==> p == resolveAt(t).phases
      {
        var w := Completed(options, t);
      Extended(dispatch, Branches(e), options, t);
        TupleDecides(e, rs, dispatch, options, w);
        RunsAlike(dispatch, r, w, p);
      }
    }
  }

  /** A build whose branches decide on something unresolvable runs a command exactly when the select() collapsed. */
  lemma UndecidedRuns(e: Element, rs: Resolver, options: map<string, BstOption>, dispatch: seq<DispatchVar>,
                      r: Rendered, w: Tuple)
    requires SpaceOf(dispatch, Branches(e), options) && Built(Branches(e)) && Configuration(options, w)
    requires Faithful(dispatch, ResolverOf(e, rs), r)
    requires exists res :: DecidedBy(e, rs, w, At(dispatch, w), res) && !res.Resolved?
    ensures RunsSomething(dispatch, r, w) <==> r.Plain?
  {
    AtIsTuple(dispatch, Branches(e), options, w);
    TupleDecides(e, rs, dispatch, options, w);
    var res :| DecidedBy(e, rs, w, At(dispatch, w), res) && !res.Resolved?;
    DecidedIs(e, rs, w, At(dispatch, w), res);
    forall p
      ensures Runs(dispatch, r, w, p) <==> Runs(dispatch, r, At(dispatch, w), p)
    {
      RunsAlike(dispatch, r, w, p);
    }
  }

  /** The space the branches of an element dispatch over is determined by them. */
  lemma SpaceOnce(a: seq<DispatchVar>, b: seq<DispatchVar>, branches: seq<Branch>, options: map<string, BstOption>)
    requires SpaceOf(a, branches, options) && SpaceOf(b, branches, options)
    ensures a == b
  {
    SortedDetermined(Names(a), Names(b));
    NamesAre(a);
    NamesAre(b);
    forall i | 0 <= i < |a|
      ensures a[i] == b[i]
    {
      assert a[i] in a && b[i] in b && a[i].name == Names(a)[i] == Names(b)[i] == b[i].name;
    }
  }

  /** What the rendered rule is, given the dispatch space of the element's own branches. */
  ghost predicate Renders(e: Element, options: map<string, BstOption>, rs: Resolver, dispatch: seq<DispatchVar>,
                          r: Rendered)
  {
    && SpaceOf(dispatch, Branches(e), options)
    && (forall t :: DecidedBy(e, rs, t, t, ResolverOf(e, rs)(t)))
    && Faithful(dispatch, ResolverOf(e, rs), r)
    && (Built(Branches(e)) && Declared(options) && !r.Nothing? ==>
      (RunsDecided(e, rs, options, dispatch, r) <==> Loads(r) && KeysTellApart(Product(dispatch), ResolverOf(e, rs))))
  }

  /** renderInstallGenruleBody, from the element's own branches to the rendered rule. */
  method RenderInstallGenruleBody(e: Element, options: map<string, BstOption>, rs: Resolver) returns (r: Rendered)
    ensures exists dispatch :: Renders(e, options, rs, dispatch, r)
  {
    var dispatch := DispatchSpaceFor(Branches(e), options);
    SpaceIsWellSpaced(dispatch, options);
    r := RenderDispatch(dispatch, ResolverOf(e, rs));
    if Built(Branches(e)) && Declared(options) && !r.Nothing? {
      RunsDecidedExactly(e, rs, options, dispatch, r);
    }
    forall t {
      DecidedIs(e, rs, t, t, ResolverOf(e, rs)(t));
    }
    assert Renders(e, options, rs, dispatch, r);
  }
}
