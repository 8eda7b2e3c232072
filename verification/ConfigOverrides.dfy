/**
 cmd/write-a/handler_pipeline.go: per-tuple command lists.  Every config: (?): branch that fires
 replaces the lists it sets, in declaration order.
 */
module ConfigOverrides {
  import opened Conditional
  import opened Expressions
  import opened Options
  import opened Sequences

  datatype PhaseCommands = PhaseCommands(configure: seq<string>, build: seq<string>, install: seq<string>,
                                         strip: seq<string>)

  /** pipelineCfg as a branch writes it: any list may be missing; `commands` stands for install. */
  datatype PipelineCfg = PipelineCfg(configure: Option<seq<string>>, build: Option<seq<string>>,
                                     install: Option<seq<string>>, strip: Option<seq<string>>,
                                     commands: Option<seq<string>>)

  /** A branch condition with its decoded override; None when the override does not decode. */
  datatype ConfigBranch = ConfigBranch(condition: Branch, override: Option<PipelineCfg>)

  datatype Phase = Configure | Build | Install | Strip

  function Commands(c: PhaseCommands, phase: Phase): seq<string> {
    match phase
    case Configure => c.configure
    case Build => c.build
    case Install => c.install
    case Strip => c.strip
  }

  /** What an override says about one phase. */
  function Setting(o: PipelineCfg, phase: Phase): Option<seq<string>> {
    match phase
    case Configure => o.configure
    case Build => o.build
    case Install => if o.commands.Some? then o.commands else o.install
    case Strip => o.strip
  }

  function Chosen(setting: Option<seq<string>>, base: seq<string>): seq<string> {
    if setting.Some? then setting.value else base
  }

  predicate Sets(b: ConfigBranch, tuple: Tuple, phase: Phase) {
    BranchFires(b.condition, tuple) && b.override.Some? && Setting(b.override.value, phase).Some?
  }

  /** The last branch that fires and sets the phase. */
  ghost predicate LastSetter(branches: seq<ConfigBranch>, tuple: Tuple, phase: Phase, i: nat) {
    && i < |branches| && Sets(branches[i], tuple, phase)
    && forall j | i < j < |branches| :: !Sets(branches[j], tuple, phase)
  }

  /** A phase comes from the last branch that sets it, or else from the base. */
  ghost predicate Resolved(base: PhaseCommands, branches: seq<ConfigBranch>, tuple: Tuple, phase: Phase,
                           result: seq<string>)
  {
    && (forall i: nat :: LastSetter(branches, tuple, phase, i) ==>
      Some(result) == Setting(branches[i].override.value, phase))
    && ((forall j | 0 <= j < |branches| :: !Sets(branches[j], tuple, phase)) ==> result == Commands(base, phase))
  }

  /** Some branch sets the phase last, or none sets it: so Resolved leaves no freedom. */
  lemma {:induction false} SetterExists(branches: seq<ConfigBranch>, tuple: Tuple, phase: Phase)
    ensures (exists i: nat :: LastSetter(branches, tuple, phase, i))
         || forall j | 0 <= j < |branches| :: !Sets(branches[j], tuple, phase)
  {
    if branches != [] {
      var last := |branches| - 1;
      if Sets(branches[last], tuple, phase) {
        assert LastSetter(branches, tuple, phase, last);
      } else {
        SetterExists(branches[..last], tuple, phase);
        if i: nat :| LastSetter(branches[..last], tuple, phase, i) {
          assert LastSetter(branches, tuple, phase, i);
        }
      }
    }
  }

  lemma {:induction false} ResolvedOnce(base: PhaseCommands, branches: seq<ConfigBranch>, tuple: Tuple, phase: Phase,
                     a: seq<string>, b: seq<string>)
    requires Resolved(base, branches, tuple, phase, a) && Resolved(base, branches, tuple, phase, b)
    ensures a == b
  {
    SetterExists(branches, tuple, phase);
  }

  /** A last setter that is not the newest branch was the last one before it, too. */
  lemma SetterBefore(branches: seq<ConfigBranch>, tuple: Tuple, phase: Phase, i: nat, k: nat)
    requires i < |branches| && k != i && LastSetter(branches[..i + 1], tuple, phase, k)
    ensures k < i && !Sets(branches[i], tuple, phase) && LastSetter(branches[..i], tuple, phase, k)
  {
    var less, more := branches[..i], branches[..i + 1];
    assert more[i] == branches[i];
    assert forall j | 0 <= j < i :: less[j] == more[j];
  }

  lemma {:induction false} ResolvedStep(base: PhaseCommands, branches: seq<ConfigBranch>, tuple: Tuple, phase: Phase, i: nat,
                     before: seq<string>, after: seq<string>)
    requires i < |branches| && Resolved(base, branches[..i], tuple, phase, before)
    requires if Sets(branches[i], tuple, phase) then Some(after) == Setting(branches[i].override.value, phase)
             else after == before
    ensures Resolved(base, branches[..i + 1], tuple, phase, after)
  {
    var less, more := branches[..i], branches[..i + 1];
    assert more[i] == branches[i] && forall j | 0 <= j < i :: more[j] == less[j];
    forall k: nat | LastSetter(more, tuple, phase, k)
      ensures Some(after) == Setting(more[k].override.value, phase)
    {
      if k != i {
        SetterBefore(branches, tuple, phase, i, k);
      }
    }
  }

  /** What the newest branch says, if it fires: its own lists, `commands` before `install`; the others stay as they were. */
  lemma NewestBranch(base: PhaseCommands, bs: seq<ConfigBranch>, b: ConfigBranch, o: PipelineCfg, tuple: Tuple,
                     phase: Phase, r: seq<string>)
    requires BranchFires(b.condition, tuple) && b.override == Some(o)
    requires Resolved(base, bs + [b], tuple, phase, r)
    ensures phase == Configure && o.configure.Some? ==> r == o.configure.value
    ensures phase == Build && o.build.Some? ==> r == o.build.value
    ensures phase == Strip && o.strip.Some? ==> r == o.strip.value
    ensures phase == Install && o.commands.Some? ==> r == o.commands.value
    ensures phase == Install && o.commands.None? && o.install.Some? ==> r == o.install.value
    ensures (match phase
             case Configure => o.configure.None?
             case Build => o.build.None?
             case Install => o.install.None? && o.commands.None?
             case Strip => o.strip.None?) ==> Resolved(base, bs, tuple, phase, r)
  {
    hide BranchFires;
    var more := bs + [b];
    assert more[|bs|] == b;
    if Setting(o, phase).Some? {
      assert LastSetter(more, tuple, phase, |bs|);
    } else {
      forall i: nat | LastSetter(bs, tuple, phase, i)
        ensures LastSetter(more, tuple, phase, i)
      {
      }
    }
  }

  /** The five tests of the loop body, in their order. */
  method Overridden(c: PhaseCommands, o: PipelineCfg) returns (out: PhaseCommands)
    ensures forall phase :: Commands(out, phase) == Chosen(Setting(o, phase), Commands(c, phase))
  {
    out := c;
    if o.configure.Some? {
      out := out.(configure := o.configure.value);
    }
    if o.build.Some? {
      out := out.(build := o.build.value);
    }
    if o.install.Some? {
      out := out.(install := o.install.value);
    }
    if o.strip.Some? {
      out := out.(strip := o.strip.value);
    }
    if o.commands.Some? {
      out := out.(install := o.commands.value);
    }
  }

  /** applyConfigConditionalOverrides; it fails exactly when a branch that fires does not decode. */
  method ApplyConfigConditionalOverrides(base: PhaseCommands, branches: seq<ConfigBranch>, tuple: Tuple)
    returns (r: Option<PhaseCommands>)
    ensures r.None? <==> exists b | b in branches :: BranchFires(b.condition, tuple) && b.override.None?
    ensures r.Some? ==> forall phase :: Resolved(base, branches, tuple, phase, Commands(r.value, phase))
  {
    var out := base;
    for i := 0 to |branches|
      invariant forall b | b in branches[..i] :: BranchFires(b.condition, tuple) ==> b.override.Some?
      invariant forall phase :: Resolved(base, branches[..i], tuple, phase, Commands(out, phase))
    {
      PrefixStep(branches, i);
      ghost var before := out;
      var fires := BranchMatchesTuple(branches[i].condition, tuple);
      if fires {
        if branches[i].override.None? {
          assert branches[i] in branches;
          return None;
        }
        out := Overridden(out, branches[i].override.value);
      }
      forall phase
        ensures Resolved(base, branches[..i + 1], tuple, phase, Commands(out, phase))
      {
        ResolvedStep(base, branches, tuple, phase, i, Commands(before, phase), Commands(out, phase));
      }
    }
    WholePrefix(branches);
    r := Some(out);
  }
}
