/**
 cmd/write-a/handler_pipeline.go: grouping dispatch tuples by identical resolution.
 */
module DispatchGroups {
  import opened Conditional
  import opened Options
  import opened Sequences

  datatype Phases = Phases(configure: seq<string>, build: seq<string>, install: seq<string>, strip: seq<string>,
                           env: seq<(string, string)>)

  /** resolveAt's outcomes: `Undefined` is the soft "referenced but not defined" error. */
  datatype Resolution = Resolved(phases: Phases) | Undefined(message: string) | Broken(message: string)

  datatype Group = Group(tuples: seq<Tuple>, phases: Phases)

  datatype GroupKey = GroupKey(configure: string, build: string, install: string, rest: string)

  const NUL := '\0'
  const SOH := '\U{0001}'

  /** strings.Join with a one-byte separator. */
  function Joined(parts: seq<string>, sep: char): string {
    if parts == [] then "" else if |parts| == 1 then parts[0] else parts[0] + [sep] + Joined(parts[1..], sep)
  }

  function EnvKey(env: seq<(string, string)>): string {
    if env == [] then "" else env[0].0 + "=" + env[0].1 + [NUL] + EnvKey(env[1..])
  }

  function KeyOf(p: Phases): GroupKey {
    GroupKey(Joined(p.configure, NUL), Joined(p.build, NUL), Joined(p.install, NUL),
             Joined(p.strip, NUL) + [SOH] + EnvKey(p.env))
  }

  // ------------------------------------------------------------- when the key is faithful

  ghost predicate Free(parts: seq<string>, c: char) {
    forall part | part in parts :: c !in part
  }

  ghost predicate CleanEnv(env: seq<(string, string)>) {
    forall kv | kv in env :: '=' !in kv.0 && NUL !in kv.0 && NUL !in kv.1
  }

  /** No separator byte stands inside a command or an environment pair. */
  ghost predicate SeparatorFree(p: Phases) {
    && Free(p.configure, NUL) && Free(p.build, NUL) && Free(p.install, NUL)
    && Free(p.strip, NUL) && Free(p.strip, SOH) && CleanEnv(p.env)
  }

  /** No command at all, or a single empty one. */
  predicate Blank(cmds: seq<string>) {
    cmds == [] || cmds == [""]
  }

  predicate SameCommands(a: seq<string>, b: seq<string>) {
    a == b || (Blank(a) && Blank(b))
  }

  predicate SamePhases(p: Phases, q: Phases) {
    && SameCommands(p.configure, q.configure) && SameCommands(p.build, q.build)
    && SameCommands(p.install, q.install) && SameCommands(p.strip, q.strip)
    && p.env == q.env
  }

  lemma FirstSeparator(a: string, x: string, c: char)
    requires c !in a
    ensures (a + [c] + x)[|a|] == c
    ensures forall i | 0 <= i < |a| :: (a + [c] + x)[i] != c
  {
    forall i | 0 <= i < |a|
      ensures (a + [c] + x)[i] != c
    {
      assert a[i] in a;
    }
  }

  /** Text up to the first separator is determined by the whole. */
  lemma SplitDetermined(a: string, x: string, b: string, y: string, c: char)
    requires a + [c] + x == b + [c] + y && c !in a && c !in b
    ensures a == b && x == y
  {
    FirstSeparator(a, x, c);
    FirstSeparator(b, y, c);
    var s := a + [c] + x;
    assert a == s[..|a|] && b == s[..|b|];
    assert x == s[|a| + 1..] && y == s[|b| + 1..];
  }

  lemma Tails(a: seq<string>, b: seq<string>)
    requires a != [] && b != []
    ensures a == b <==> a[0] == b[0] && a[1..] == b[1..]
    ensures forall part | part in a[1..] :: part in a
    ensures forall part | part in b[1..] :: part in b
  {
    assert a == [a[0]] + a[1..] && b == [b[0]] + b[1..];
  }

  lemma JoinedShape(a: seq<string>, sep: char)
    requires Free(a, sep)
    ensures sep in Joined(a, sep) <==> |a| > 1
    ensures |a| == 1 ==> Joined(a, sep) == a[0] && (a == [""] <==> a[0] == "")
  {
    if a != [] {
      assert a[0] in a;
      assert |a| > 1 ==> Joined(a, sep)[|a[0]|] == sep;
    }
  }

  /** Joining identifies lists of at least one part. */
  lemma {:induction false} JoinedInjective(a: seq<string>, b: seq<string>, sep: char)
    requires Free(a, sep) && Free(b, sep) && a != [] && b != []
    ensures Joined(a, sep) == Joined(b, sep) <==> a == b
  {
    JoinedShape(a, sep);
    JoinedShape(b, sep);
    if |a| > 1 && |b| > 1 {
      assert a[0] in a && b[0] in b;
      Tails(a, b);
      if Joined(a, sep) == Joined(b, sep) {
        SplitDetermined(a[0], Joined(a[1..], sep), b[0], Joined(b[1..], sep), sep);
      }
      JoinedInjective(a[1..], b[1..], sep);
    }
  }

  /** Among all lists the one exception is that no part and one empty part join alike. */
  lemma JoinedExact(a: seq<string>, b: seq<string>, sep: char)
    requires Free(a, sep) && Free(b, sep)
    ensures Joined(a, sep) == Joined(b, sep) <==> SameCommands(a, b)
  {
    if a != [] && b != [] {
      JoinedInjective(a, b, sep);
    } else {
      JoinedShape(a, sep);
      JoinedShape(b, sep);
    }
  }

  lemma {:induction false} JoinedFree(a: seq<string>, sep: char, c: char)
    requires Free(a, c) && c != sep
    ensures c !in Joined(a, sep)
  {
    if |a| == 1 {
      assert a[0] in a;
    } else if |a| > 1 {
      assert a[0] in a;
      JoinedFree(a[1..], sep, c);
    }
  }

  lemma {:induction false} EnvKeyInjective(a: seq<(string, string)>, b: seq<(string, string)>)
    requires CleanEnv(a) && CleanEnv(b) && EnvKey(a) == EnvKey(b)
    ensures a == b
  {
    if a != [] && b != [] {
      assert a[0] in a && b[0] in b;
      var x, y := a[0].0 + "=" + a[0].1, b[0].0 + "=" + b[0].1;
      assert EnvKey(a) == x + [NUL] + EnvKey(a[1..]) && EnvKey(b) == y + [NUL] + EnvKey(b[1..]);
      SplitDetermined(x, EnvKey(a[1..]), y, EnvKey(b[1..]), NUL);
      assert x == a[0].0 + ['='] + a[0].1 && y == b[0].0 + ['='] + b[0].1;
      SplitDetermined(a[0].0, a[0].1, b[0].0, b[0].1, '=');
      EnvKeyInjective(a[1..], b[1..]);
      assert a == [a[0]] + a[1..] && b == [b[0]] + b[1..];
    }
  }

  lemma RestExact(p: Phases, q: Phases)
    requires SeparatorFree(p) && SeparatorFree(q)
    ensures KeyOf(p).rest == KeyOf(q).rest <==> SameCommands(p.strip, q.strip) && p.env == q.env
  {
    JoinedExact(p.strip, q.strip, NUL);
    if KeyOf(p).rest == KeyOf(q).rest {
      JoinedFree(p.strip, NUL, SOH);
      JoinedFree(q.strip, NUL, SOH);
      SplitDetermined(Joined(p.strip, NUL), EnvKey(p.env), Joined(q.strip, NUL), EnvKey(q.env), SOH);
      EnvKeyInjective(p.env, q.env);
    }
  }

  /** The group key identifies a separator-free result up to empty commands that stand alone. */
  lemma KeyExact(p: Phases, q: Phases)
    requires SeparatorFree(p) && SeparatorFree(q)
    ensures KeyOf(p) == KeyOf(q) <==> SamePhases(p, q)
  {
    JoinedExact(p.configure, q.configure, NUL);
    JoinedExact(p.build, q.build, NUL);
    JoinedExact(p.install, q.install, NUL);
    RestExact(p, q);
  }

  /** Results that differ under one key: no command, and one empty command. */
  lemma EmptyCommandCollides()
    ensures KeyOf(Phases([""], [], [], [], [])) == KeyOf(Phases([], [], [], [], []))
  {
  }

  // ------------------------------------------------------------- groupDispatchTuples

  datatype Grouping = Grouped(groups: seq<Group>, lastSkip: Option<string>) | HardError(message: string)

  /** The tuples that resolve, in order. */
  function Resolvable(tuples: seq<Tuple>, resolveAt: Tuple -> Resolution): seq<Tuple> {
    if tuples == [] then []
    else
      var before := Resolvable(tuples[..|tuples| - 1], resolveAt);
      if resolveAt(tuples[|tuples| - 1]).Resolved? then before + [tuples[|tuples| - 1]] else before
  }

  /** Every tuple of every group, with multiplicity. */
  function Emitted(groups: seq<Group>): multiset<Tuple> {
    if groups == [] then multiset{}
    else Emitted(groups[..|groups| - 1]) + multiset(groups[|groups| - 1].tuples)
  }

  /** A group with one more tuple. */
  function Extended(g: Group, t: Tuple): Group {
    g.(tuples := g.tuples + [t])
  }

  lemma {:induction false} EmittedUpdate(groups: seq<Group>, idx: nat, t: Tuple)
    requires idx < |groups|
    ensures Emitted(groups[idx := Extended(groups[idx], t)]) == Emitted(groups) + multiset{t}
  {
    var n := |groups| - 1;
    var updated := groups[idx := Extended(groups[idx], t)];
    if idx == n {
      assert updated[..n] == groups[..n];
    } else {
      EmittedUpdate(groups[..n], idx, t);
      assert updated[..n] == groups[..n][idx := Extended(groups[idx], t)];
    }
  }

  lemma EmittedAppend(groups: seq<Group>, g: Group)
    ensures Emitted(groups + [g]) == Emitted(groups) + multiset(g.tuples)
  {
    assert (groups + [g])[..|groups|] == groups;
  }

  /** The group's tuples all resolve to its key, the first one to its phases. */
  ghost predicate GroupOk(g: Group, resolveAt: Tuple -> Resolution) {
    && g.tuples != [] && resolveAt(g.tuples[0]) == Resolved(g.phases)
    && forall t | t in g.tuples :: resolveAt(t).Resolved? && KeyOf(resolveAt(t).phases) == KeyOf(g.phases)
  }

  /** Every group is sound, and different groups have different keys. */
  ghost predicate WellGrouped(groups: seq<Group>, resolveAt: Tuple -> Resolution) {
    && (forall i | 0 <= i < |groups| :: GroupOk(groups[i], resolveAt))
    && (forall i, j | 0 <= i < j < |groups| :: KeyOf(groups[i].phases) != KeyOf(groups[j].phases))
  }

  ghost predicate Indexed(groups: seq<Group>, groupIdx: map<GroupKey, int>) {
    && (forall k | k in groupIdx :: 0 <= groupIdx[k] < |groups| && KeyOf(groups[groupIdx[k]].phases) == k)
    && (forall i | 0 <= i < |groups| :: KeyOf(groups[i].phases) in groupIdx)
  }

  lemma ExtendedOk(g: Group, t: Tuple, resolveAt: Tuple -> Resolution)
    requires GroupOk(g, resolveAt)
    requires resolveAt(t).Resolved? && KeyOf(resolveAt(t).phases) == KeyOf(g.phases)
    ensures GroupOk(Extended(g, t), resolveAt)
  {
  }

  lemma JoinIndex(groups: seq<Group>, idx: nat, t: Tuple, groupIdx: map<GroupKey, int>)
    requires Indexed(groups, groupIdx) && idx < |groups|
    ensures Indexed(groups[idx := Extended(groups[idx], t)], groupIdx)
  {
    var groups' := groups[idx := Extended(groups[idx], t)];
    assert forall i | 0 <= i < |groups| :: groups'[i].phases == groups[i].phases;
  }

  lemma JoinGroup(groups: seq<Group>, idx: nat, t: Tuple, resolveAt: Tuple -> Resolution)
    requires WellGrouped(groups, resolveAt) && idx < |groups|
    requires resolveAt(t).Resolved? && KeyOf(resolveAt(t).phases) == KeyOf(groups[idx].phases)
    ensures WellGrouped(groups[idx := Extended(groups[idx], t)], resolveAt)
  {
    var groups' := groups[idx := Extended(groups[idx], t)];
    assert forall i | 0 <= i < |groups| :: groups'[i].phases == groups[i].phases;
    ExtendedOk(groups[idx], t, resolveAt);
    forall i | 0 <= i < |groups|
      ensures GroupOk(groups'[i], resolveAt)
    {
      assert GroupOk(groups[i], resolveAt);
    }
    forall i, j | 0 <= i < j < |groups|
      ensures KeyOf(groups'[i].phases) != KeyOf(groups'[j].phases)
    {
      assert KeyOf(groups[i].phases) != KeyOf(groups[j].phases);
    }
  }

  lemma OpenGroup(groups: seq<Group>, t: Tuple, phases: Phases, resolveAt: Tuple -> Resolution, groupIdx: map<GroupKey, int>)
    requires WellGrouped(groups, resolveAt) && Indexed(groups, groupIdx)
    requires resolveAt(t) == Resolved(phases) && KeyOf(phases) !in groupIdx
    ensures WellGrouped(groups + [Group([t], phases)], resolveAt)
  {
    var groups' := groups + [Group([t], phases)];
    forall i | 0 <= i < |groups'|
      ensures GroupOk(groups'[i], resolveAt)
    {
      assert i < |groups| ==> GroupOk(groups[i], resolveAt);
    }
    forall i, j | 0 <= i < j < |groups'|
      ensures KeyOf(groups'[i].phases) != KeyOf(groups'[j].phases)
    {
      assert KeyOf(groups[i].phases) in groupIdx;
      assert j < |groups| ==> KeyOf(groups[i].phases) != KeyOf(groups[j].phases);
    }
  }

  lemma OpenIndex(groups: seq<Group>, g: Group, groupIdx: map<GroupKey, int>)
    requires Indexed(groups, groupIdx) && KeyOf(g.phases) !in groupIdx
    ensures Indexed(groups + [g], groupIdx[KeyOf(g.phases) := |groups|])
  {
  }

  /** Where a resolved tuple goes: into the group with its key, or into a new one. */
  method Place(groups: seq<Group>, groupIdx: map<GroupKey, int>, tuple: Tuple, phases: Phases,
               ghost resolveAt: Tuple -> Resolution)
    returns (groups': seq<Group>, groupIdx': map<GroupKey, int>)
    requires WellGrouped(groups, resolveAt) && Indexed(groups, groupIdx) && resolveAt(tuple) == Resolved(phases)
    ensures WellGrouped(groups', resolveAt) && Indexed(groups', groupIdx')
    ensures Emitted(groups') == Emitted(groups) + multiset{tuple}
  {
    var key := KeyOf(phases);
    if key in groupIdx {
      var idx := groupIdx[key];
      JoinGroup(groups, idx, tuple, resolveAt);
      JoinIndex(groups, idx, tuple, groupIdx);
      EmittedUpdate(groups, idx, tuple);
      groups' := groups[idx := Extended(groups[idx], tuple)];
      groupIdx' := groupIdx;
    } else {
      OpenGroup(groups, tuple, phases, resolveAt, groupIdx);
      OpenIndex(groups, Group([tuple], phases), groupIdx);
      EmittedAppend(groups, Group([tuple], phases));
      groups' := groups + [Group([tuple], phases)];
      groupIdx' := groupIdx[key := |groups|];
    }
  }

  /** groupDispatchTuples */
  method GroupDispatchTuples(tuples: seq<Tuple>, resolveAt: Tuple -> Resolution) returns (r: Grouping)
    ensures r.HardError? <==> exists t :: t in tuples && resolveAt(t).Broken?
    ensures r.Grouped? ==> WellGrouped(r.groups, resolveAt)
    ensures r.Grouped? ==> Emitted(r.groups) == multiset(Resolvable(tuples, resolveAt))
    ensures r.Grouped? ==> (r.lastSkip.Some? <==> exists t :: t in tuples && resolveAt(t).Undefined?)
  {
    var groupIdx: map<GroupKey, int> := map[];
    var groups: seq<Group> := [];
    var lastSkip: Option<string> := None;
    for i := 0 to |tuples|
      invariant forall t | t in tuples[..i] :: !resolveAt(t).Broken?
      invariant WellGrouped(groups, resolveAt) && Indexed(groups, groupIdx)
      invariant Emitted(groups) == multiset(Resolvable(tuples[..i], resolveAt))
      invariant lastSkip.Some? <==> exists t :: t in tuples[..i] && resolveAt(t).Undefined?
    {
      var tuple := tuples[i];
      PrefixStep(tuples, i);
      match resolveAt(tuple)
      case Broken(m) =>
        assert tuple in tuples;
        return HardError(m);
      case Undefined(m) =>
        lastSkip := Some(m);
        assert tuple in tuples[..i + 1];
      case Resolved(phases) =>
        groups, groupIdx := Place(groups, groupIdx, tuple, phases, resolveAt);
    }
    WholePrefix(tuples);
    r := Grouped(groups, lastSkip);
  }

  lemma {:induction false} EmittedMembers(groups: seq<Group>)
    ensures forall t :: t in Emitted(groups) <==> exists g :: g in groups && t in g.tuples
  {
    if groups != [] {
      var n := |groups| - 1;
      EmittedMembers(groups[..n]);
      assert groups == groups[..n] + [groups[n]];
    }
  }

  lemma {:induction false} ResolvableMembers(tuples: seq<Tuple>, resolveAt: Tuple -> Resolution)
    ensures forall t :: t in Resolvable(tuples, resolveAt) <==> t in tuples && resolveAt(t).Resolved?
  {
    if tuples != [] {
      var n := |tuples| - 1;
      ResolvableMembers(tuples[..n], resolveAt);
      assert tuples == tuples[..n] + [tuples[n]];
    }
  }
}
