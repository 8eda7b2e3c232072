/**
 cmd/write-a/handler_pipeline.go: what the BUILD file runs for a dispatch tuple.  One select() arm
 and one config_setting per resolvable tuple, both named after the tuple, or one plain command when
 a single group is left.
 */
module DispatchRender {
  import opened Conditional
  import opened DispatchGroups
  import opened DispatchSpace
  import opened Ordering
  import opened Sequences

  /** A `config_setting` rule: its name, and the tuple whose values it asks for. */
  datatype Setting = Setting(name: string, asks: Tuple)

  /** An entry of the select() dictionary. */
  datatype Arm = Arm(key: string, phases: Phases)

  datatype Rendered = Plain(phases: Phases) | Select(arms: seq<Arm>, settings: seq<Setting>) | Nothing(message: string)

  /** What DispatchSpaceFor guarantees of a dispatch space. */
  ghost predicate WellSpaced(dispatch: seq<DispatchVar>) {
    && StrictlySorted(Names(dispatch))
    && forall v | v in dispatch && v.isPlatform :: v.values == SUPPORTED_ARCHES
  }

  /** What DispatchSpaceFor promises of its result makes it well spaced. */
  lemma SpaceIsWellSpaced(dispatch: seq<DispatchVar>, options: map<string, BstOption>)
    requires StrictlySorted(Names(dispatch))
    requires forall v | v in dispatch :: Dispatchable(v.name, options) && v == VarFor(v.name, options)
    ensures WellSpaced(dispatch)
  {
  }

  // ------------------------------------------------------------- names and labels

  predicate IdentByte(c: char) {
    ('a' <= c <= 'z') || ('A' <= c <= 'Z') || ('0' <= c <= '9') || c == '_'
  }

  function Sanitized(s: string): string {
    seq(|s|, i requires 0 <= i < |s| => if IdentByte(s[i]) then s[i] else '_')
  }

  /** sanitizeIdent */
  method SanitizeIdent(s: string) returns (r: string)
    ensures r == Sanitized(s)
  {
    r := "";
    for i := 0 to |s|
      invariant r == Sanitized(s)[..i]
    {
      PrefixStep(Sanitized(s), i);
      r := r + [if IdentByte(s[i]) then s[i] else '_'];
    }
    WholePrefix(Sanitized(s));
  }

  /** A map lookup in Go: absent keys read as the empty string. */
  function ValueOf(t: Tuple, k: string): string {
    if k in t then t[k] else ""
  }

  function SanitizedValues(t: Tuple, keys: seq<string>): seq<string> {
    seq(|keys|, i requires 0 <= i < |keys| => Sanitized(ValueOf(t, keys[i])))
  }

  /** A tuple's name: its sanitised values, in the order of the sorted variables. */
  function SettingName(dispatch: seq<DispatchVar>, t: Tuple): string {
    Joined(SanitizedValues(t, Names(dispatch)), '_')
  }

  /** tupleConfigSettingName */
  method TupleConfigSettingName(t: Tuple, ghost dispatch: seq<DispatchVar>) returns (name: string)
    requires WellSpaced(dispatch) && forall k :: k in t <==> k in Names(dispatch)
    ensures name == SettingName(dispatch, t)
  {
    var keys := SortedKeys(t.Keys);
    var parts: seq<string> := [];
    for i := 0 to |keys|
      invariant parts == SanitizedValues(t, keys)[..i]
    {
      PrefixStep(SanitizedValues(t, keys), i);
      assert keys[i] in keys;
      var part := SanitizeIdent(t[keys[i]]);
      parts := parts + [part];
    }
    WholePrefix(SanitizedValues(t, keys));
    SortedDetermined(keys, Names(dispatch));
    name := Joined(parts, '_');
  }

  /** archConstraintLabel */
  function ArchConstraintLabel(arch: string): string {
    "@platforms//cpu:" + if arch == "i686" then "x86_32" else arch
  }

  /** needsConfigSettings */
  predicate NeedsConfigSettings(dispatch: seq<DispatchVar>) {
    dispatch != [] && !(|dispatch| == 1 && dispatch[0].isPlatform)
  }

  /** The key of a tuple's arm. */
  function SelectLabel(dispatch: seq<DispatchVar>, t: Tuple): string {
    if |dispatch| == 1 && dispatch[0].isPlatform then ArchConstraintLabel(ValueOf(t, dispatch[0].name))
    else ":" + SettingName(dispatch, t)
  }

  /** A name is as long as the value, keeps its letters, digits and underscores, and has an underscore for any other byte. */
  lemma {:induction false} SanitizedIs(s: string, i: nat)
    requires i < |s|
    ensures |Sanitized(s)| == |s|
    ensures var kept := 'a' <= s[i] <= 'z' || 'A' <= s[i] <= 'Z' || '0' <= s[i] <= '9' || s[i] == '_';
      Sanitized(s)[i] == if kept then s[i] else '_'
  {
  }

  /** Over the architecture alone the keys are platform constraints; Bazel calls one of the six by another name. */
  lemma PlatformKey(dispatch: seq<DispatchVar>, t: Tuple, arch: string)
    requires |dispatch| == 1 && dispatch[0].isPlatform && t == map[dispatch[0].name := arch]
    ensures arch == "i686" ==> SelectLabel(dispatch, t) == "@platforms//cpu:x86_32"
    ensures arch in SUPPORTED_ARCHES && arch != "i686" ==> SelectLabel(dispatch, t) == "@platforms//cpu:" + arch
  {
  }

  // ------------------------------------------------------------- the rendering loops

  function Entries(g: Group, n: nat): seq<(Tuple, Phases)>
    requires n <= |g.tuples|
  {
    seq(n, j requires 0 <= j < n => (g.tuples[j], g.phases))
  }

  /** Every tuple of every group with the group's phases, in the order both loops visit them. */
  function Visited(groups: seq<Group>): seq<(Tuple, Phases)> {
    if groups == [] then []
    else Visited(groups[..|groups| - 1]) + Entries(groups[|groups| - 1], |groups[|groups| - 1].tuples|)
  }

  function ArmsOf(dispatch: seq<DispatchVar>, visited: seq<(Tuple, Phases)>): seq<Arm> {
    seq(|visited|, i requires 0 <= i < |visited| => Arm(SelectLabel(dispatch, visited[i].0), visited[i].1))
  }

  function SettingsOf(dispatch: seq<DispatchVar>, visited: seq<(Tuple, Phases)>): seq<Setting> {
    seq(|visited|, i requires 0 <= i < |visited| => Setting(SettingName(dispatch, visited[i].0), visited[i].0))
  }

  ghost predicate AllSpan(dispatch: seq<DispatchVar>, groups: seq<Group>) {
    forall g, t, k | g in groups && t in g.tuples :: k in t <==> k in Names(dispatch)
  }

  lemma VisitStep(g: Group, j: nat, before: seq<(Tuple, Phases)>)
    requires j < |g.tuples|
    ensures before + Entries(g, j + 1) == before + Entries(g, j) + [(g.tuples[j], g.phases)]
  {
  }

  /** tupleSelectLabel */
  method TupleSelectLabel(dispatch: seq<DispatchVar>, t: Tuple) returns (key: string)
    requires WellSpaced(dispatch) && forall k :: k in t <==> k in Names(dispatch)
    ensures key == SelectLabel(dispatch, t)
  {
    if |dispatch| == 1 && dispatch[0].isPlatform {
      return ArchConstraintLabel(ValueOf(t, dispatch[0].name));
    }
    var name := TupleConfigSettingName(t, dispatch);
    key := ":" + name;
  }

  /** The select() arms of renderPipelineCmdAttr. */
  method RenderArms(dispatch: seq<DispatchVar>, groups: seq<Group>) returns (arms: seq<Arm>)
    requires WellSpaced(dispatch) && AllSpan(dispatch, groups)
    ensures arms == ArmsOf(dispatch, Visited(groups))
  {
    arms := [];
    for i := 0 to |groups|
      invariant arms == ArmsOf(dispatch, Visited(groups[..i]))
    {
      var g := groups[i];
      ghost var before := Visited(groups[..i]);
      for j := 0 to |g.tuples|
        invariant arms == ArmsOf(dispatch, before + Entries(g, j))
      {
        VisitStep(g, j, before);
        assert g in groups && g.tuples[j] in g.tuples;
        var key := TupleSelectLabel(dispatch, g.tuples[j]);
        arms := arms + [Arm(key, g.phases)];
      }
      PrefixStep(groups, i);
    }
    WholePrefix(groups);
  }

  /** renderConfigSettings */
  method RenderConfigSettings(dispatch: seq<DispatchVar>, groups: seq<Group>) returns (settings: seq<Setting>)
    requires WellSpaced(dispatch) && AllSpan(dispatch, groups)
    ensures settings == SettingsOf(dispatch, Visited(groups))
  {
    settings := [];
    for i := 0 to |groups|
      invariant settings == SettingsOf(dispatch, Visited(groups[..i]))
    {
      var g := groups[i];
      ghost var before := Visited(groups[..i]);
      for j := 0 to |g.tuples|
        invariant settings == SettingsOf(dispatch, before + Entries(g, j))
      {
        VisitStep(g, j, before);
        assert g in groups && g.tuples[j] in g.tuples;
        var name := TupleConfigSettingName(g.tuples[j], dispatch);
        settings := settings + [Setting(name, g.tuples[j])];
      }
      PrefixStep(groups, i);
    }
    WholePrefix(groups);
  }

  // ------------------------------------------------------------- what Bazel makes of it

  /** Starlark rejects a dictionary that lists a key twice, and Bazel two rules of one name. */
  ghost predicate Loads(r: Rendered) {
    r.Select? ==> forall i, j | 0 <= i < j < |r.arms| :: r.arms[i].key != r.arms[j].key
  }

  /** A build for `t` has every value the setting asks for: platform values by constraint, options by flag. */
  ghost predicate Satisfies(dispatch: seq<DispatchVar>, t: Tuple, asks: Tuple) {
    forall v | v in dispatch ::
      if v.isPlatform then ArchConstraintLabel(ValueOf(t, v.name)) == ArchConstraintLabel(ValueOf(asks, v.name))
      else ValueOf(t, v.name) == ValueOf(asks, v.name)
  }

  /** The condition a label stands for holds in a build for `t`. */
  ghost predicate Chosen(dispatch: seq<DispatchVar>, settings: seq<Setting>, key: string, t: Tuple) {
    if NeedsConfigSettings(dispatch) then
      exists s :: s in settings && ":" + s.name == key && Satisfies(dispatch, t, s.asks)
    else key == SelectLabel(dispatch, t)
  }

  /** A build for `t` runs `p`. */
  ghost predicate Runs(dispatch: seq<DispatchVar>, r: Rendered, t: Tuple, p: Phases) {
    match r
    case Plain(q) => p == q
    case Select(arms, settings) =>
      Loads(r) && exists arm :: arm in arms && arm.phases == p && Chosen(dispatch, settings, arm.key, t)
    case Nothing(_) => false
  }

  /** Every resolvable tuple runs its own resolution and nothing else. */
  ghost predicate RunsOwn(dispatch: seq<DispatchVar>, r: Rendered, resolveAt: Tuple -> Resolution) {
    forall t, p | t in Product(dispatch) && resolveAt(t).Resolved? ::
      Runs(dispatch, r, t, p) <==> p == resolveAt(t).phases
  }

  ghost predicate RunsSomething(dispatch: seq<DispatchVar>, r: Rendered, t: Tuple) {
    exists p :: Runs(dispatch, r, t, p)
  }

  // ------------------------------------------------------------- conditions on the input

  ghost predicate Stops(tuples: seq<Tuple>, resolveAt: Tuple -> Resolution) {
    (exists t :: t in tuples && resolveAt(t).Broken?) || Resolvable(tuples, resolveAt) == []
  }

  ghost predicate OneKey(tuples: seq<Tuple>, resolveAt: Tuple -> Resolution) {
    forall t, u | t in tuples && u in tuples && resolveAt(t).Resolved? && resolveAt(u).Resolved? ::
      KeyOf(resolveAt(t).phases) == KeyOf(resolveAt(u).phases)
  }

  /** No two results that differ share a key; DispatchGroups.KeyExact says when they could. */
  ghost predicate KeysTellApart(tuples: seq<Tuple>, resolveAt: Tuple -> Resolution) {
    forall t, u | t in tuples && u in tuples && resolveAt(t).Resolved? && resolveAt(u).Resolved?
                  && KeyOf(resolveAt(t).phases) == KeyOf(resolveAt(u).phases) ::
      resolveAt(t).phases == resolveAt(u).phases
  }

  /** Two results the rendered scripts tell apart only by a phase with one empty command. */
  ghost predicate OnlyBlankDiffers(tuples: seq<Tuple>, resolveAt: Tuple -> Resolution, t: Tuple, u: Tuple) {
    && t in tuples && u in tuples && resolveAt(t).Resolved? && resolveAt(u).Resolved?
    && SamePhases(resolveAt(t).phases, resolveAt(u).phases) && resolveAt(t).phases != resolveAt(u).phases
  }

  /** On separator-free results, keys tell results apart exactly when no two differ by such a phase only. */
  lemma KeysTellApartExactly(tuples: seq<Tuple>, resolveAt: Tuple -> Resolution)
    requires forall t | t in tuples && resolveAt(t).Resolved? :: SeparatorFree(resolveAt(t).phases)
    ensures KeysTellApart(tuples, resolveAt) <==> !exists t, u :: OnlyBlankDiffers(tuples, resolveAt, t, u)
  {
    hide KeyOf, SeparatorFree;
    forall t, u | t in tuples && u in tuples && resolveAt(t).Resolved? && resolveAt(u).Resolved?
      ensures KeyOf(resolveAt(t).phases) == KeyOf(resolveAt(u).phases)
        <==> SamePhases(resolveAt(t).phases, resolveAt(u).phases)
    {
      KeyExact(resolveAt(t).phases, resolveAt(u).phases);
    }
    if KeysTellApart(tuples, resolveAt) {
      forall t, u
        ensures !OnlyBlankDiffers(tuples, resolveAt, t, u)
      {
      }
    } else {
      var t, u :| t in tuples && u in tuples && resolveAt(t).Resolved? && resolveAt(u).Resolved?
        && KeyOf(resolveAt(t).phases) == KeyOf(resolveAt(u).phases) && resolveAt(t).phases != resolveAt(u).phases;
      assert OnlyBlankDiffers(tuples, resolveAt, t, u);
    }
  }

  ghost predicate DistinctLabels(dispatch: seq<DispatchVar>, tuples: seq<Tuple>) {
    forall i, j | 0 <= i < j < |tuples| :: SelectLabel(dispatch, tuples[i]) != SelectLabel(dispatch, tuples[j])
  }

  // ------------------------------------------------------------- the arms that are chosen

  lemma ArchLabelInjective(a: string, b: string)
    requires a in SUPPORTED_ARCHES && b in SUPPORTED_ARCHES && ArchConstraintLabel(a) == ArchConstraintLabel(b)
    ensures a == b
  {
    var prefix := "@platforms//cpu:";
    var x, y := if a == "i686" then "x86_32" else a, if b == "i686" then "x86_32" else b;
    Cut(prefix, x);
    Cut(prefix, y);
    assert |"x86_64"| == |"x86_32"| && "x86_64"[4] != "x86_32"[4];
    assert x == y;
  }

  /** Within the space, a tuple satisfies the setting of no other tuple. */
  lemma SatisfiesItselfOnly(dispatch: seq<DispatchVar>, t: Tuple, u: Tuple)
    requires WellSpaced(dispatch) && t in Product(dispatch) && u in Product(dispatch)
    ensures Satisfies(dispatch, t, u) <==> t == u
  {
    SpaceIsDistinct(dispatch);
    ProductMember(dispatch, t);
    ProductMember(dispatch, u);
    if Satisfies(dispatch, t, u) {
      forall v | v in dispatch
        ensures t[v.name] == u[v.name]
      {
        if v.isPlatform {
          ArchLabelInjective(t[v.name], u[v.name]);
        }
      }
      assert t.Keys == u.Keys;
    }
  }

  function TuplesOf(visited: seq<(Tuple, Phases)>): seq<Tuple> {
    seq(|visited|, i requires 0 <= i < |visited| => visited[i].0)
  }

  function SelectOf(dispatch: seq<DispatchVar>, visited: seq<(Tuple, Phases)>): Rendered {
    Select(ArmsOf(dispatch, visited), if NeedsConfigSettings(dispatch) then SettingsOf(dispatch, visited) else [])
  }

  lemma ArmIsChosen(dispatch: seq<DispatchVar>, visited: seq<(Tuple, Phases)>, i: nat)
    requires WellSpaced(dispatch) && dispatch != [] && i < |visited| && visited[i].0 in Product(dispatch)
    ensures Chosen(dispatch, SelectOf(dispatch, visited).settings, ArmsOf(dispatch, visited)[i].key, visited[i].0)
  {
    SatisfiesItselfOnly(dispatch, visited[i].0, visited[i].0);
    if NeedsConfigSettings(dispatch) {
      assert SettingsOf(dispatch, visited)[i] in SettingsOf(dispatch, visited);
    }
  }

  lemma PlatformLabel(dispatch: seq<DispatchVar>, t: Tuple, u: Tuple)
    requires |dispatch| == 1 && dispatch[0].isPlatform && SelectLabel(dispatch, t) == SelectLabel(dispatch, u)
    ensures Satisfies(dispatch, t, u)
  {
  }

  /** With distinct labels, the condition of an arm holds only for the arm's own tuple. */
  lemma ChosenIsOwn(dispatch: seq<DispatchVar>, visited: seq<(Tuple, Phases)>, i: nat, t: Tuple)
    requires WellSpaced(dispatch) && dispatch != [] && t in Product(dispatch)
    requires Loads(SelectOf(dispatch, visited)) && i < |visited|
    requires forall v | v in visited :: v.0 in Product(dispatch)
    requires Chosen(dispatch, SelectOf(dispatch, visited).settings, ArmsOf(dispatch, visited)[i].key, t)
    ensures t == visited[i].0
  {
    var arms := ArmsOf(dispatch, visited);
    assert visited[i] in visited;
    if NeedsConfigSettings(dispatch) {
      var settings := SettingsOf(dispatch, visited);
      var s :| s in settings && ":" + s.name == arms[i].key && Satisfies(dispatch, t, s.asks);
      var j :| 0 <= j < |settings| && settings[j] == s;
      assert arms[j].key == arms[i].key;
      assert j == i;
    } else {
      PlatformLabel(dispatch, t, visited[i].0);
    }
    SatisfiesItselfOnly(dispatch, t, visited[i].0);
  }

  /** A select() that loads runs for a tuple exactly what was visited with it. */
  lemma RunsVisited(dispatch: seq<DispatchVar>, visited: seq<(Tuple, Phases)>, t: Tuple, p: Phases)
    requires WellSpaced(dispatch) && dispatch != [] && t in Product(dispatch)
    requires Loads(SelectOf(dispatch, visited))
    requires forall v | v in visited :: v.0 in Product(dispatch)
    ensures Runs(dispatch, SelectOf(dispatch, visited), t, p) <==> (t, p) in visited
  {
    var r := SelectOf(dispatch, visited);
    if Runs(dispatch, r, t, p) {
      var arm :| arm in r.arms && arm.phases == p && Chosen(dispatch, r.settings, arm.key, t);
      var i :| 0 <= i < |r.arms| && r.arms[i] == arm;
      ChosenIsOwn(dispatch, visited, i, t);
      assert visited[i] == (t, p);
    }
    if (t, p) in visited {
      var i :| 0 <= i < |visited| && visited[i] == (t, p);
      ArmIsChosen(dispatch, visited, i);
      assert r.arms[i] in r.arms;
    }
  }

  lemma {:induction false} VisitedMembers(groups: seq<Group>)
    ensures forall t, p :: (t, p) in Visited(groups) <==> exists g :: g in groups && t in g.tuples && g.phases == p
  {
    if groups != [] {
      var init, last := groups[..|groups| - 1], groups[|groups| - 1];
      VisitedMembers(init);
      assert groups == init + [last];
      forall t, p
        ensures (t, p) in Entries(last, |last.tuples|) <==> t in last.tuples && last.phases == p
      {
        if t in last.tuples && last.phases == p {
          var j :| 0 <= j < |last.tuples| && last.tuples[j] == t;
          assert Entries(last, |last.tuples|)[j] == (t, p);
        }
      }
    }
  }

  lemma {:induction false} VisitedTuples(groups: seq<Group>)
    ensures multiset(TuplesOf(Visited(groups))) == Emitted(groups)
  {
    if groups != [] {
      var init, last := groups[..|groups| - 1], groups[|groups| - 1];
      VisitedTuples(init);
      assert TuplesOf(Entries(last, |last.tuples|)) == last.tuples;
      assert TuplesOf(Visited(groups)) == TuplesOf(Visited(init)) + last.tuples;
    }
  }

  // ------------------------------------------------------------- labels and permutations

  ghost predicate NoRepeat(tuples: seq<Tuple>) {
    forall i, j | 0 <= i < j < |tuples| :: tuples[i] != tuples[j]
  }

  lemma {:induction false} NoRepeatCounts(tuples: seq<Tuple>)
    ensures NoRepeat(tuples) <==> forall t :: multiset(tuples)[t] <= 1
  {
    if tuples != [] {
      var init, last := tuples[..|tuples| - 1], tuples[|tuples| - 1];
      NoRepeatCounts(init);
      assert tuples == init + [last];
      assert last in init <==> multiset(init)[last] > 0;
      if NoRepeat(tuples) {
        assert last !in init;
      } else if last in init {
        assert multiset(tuples)[last] > 1;
      } else {
        assert !NoRepeat(init);
        var t :| multiset(init)[t] > 1;
        assert multiset(tuples)[t] > 1;
      }
    }
  }

  /** Whether labels collide does not depend on the order of the tuples. */
  lemma LabelsOfPermutation(dispatch: seq<DispatchVar>, a: seq<Tuple>, b: seq<Tuple>)
    requires multiset(a) == multiset(b) && DistinctLabels(dispatch, a)
    ensures DistinctLabels(dispatch, b)
  {
    NoRepeatCounts(a);
    NoRepeatCounts(b);
    assert NoRepeat(a);
    forall i, j | 0 <= i < j < |b|
      ensures SelectLabel(dispatch, b[i]) != SelectLabel(dispatch, b[j])
    {
      assert b[i] != b[j];
      assert b[i] in multiset(b) && b[j] in multiset(b);
      var x :| 0 <= x < |a| && a[x] == b[i];
      var y :| 0 <= y < |a| && a[y] == b[j];
    }
  }

  lemma LoadsExactly(dispatch: seq<DispatchVar>, groups: seq<Group>, tuples: seq<Tuple>)
    requires Emitted(groups) == multiset(tuples)
    ensures Loads(SelectOf(dispatch, Visited(groups))) <==> DistinctLabels(dispatch, tuples)
  {
    var visited := Visited(groups);
    VisitedTuples(groups);
    assert Loads(SelectOf(dispatch, visited)) <==> DistinctLabels(dispatch, TuplesOf(visited)) by {
      assert forall i | 0 <= i < |visited| ::
        ArmsOf(dispatch, visited)[i].key == SelectLabel(dispatch, TuplesOf(visited)[i]);
    }
    if DistinctLabels(dispatch, tuples) {
      LabelsOfPermutation(dispatch, tuples, TuplesOf(visited));
    } else if DistinctLabels(dispatch, TuplesOf(visited)) {
      LabelsOfPermutation(dispatch, TuplesOf(visited), tuples);
    }
  }

  // ------------------------------------------------------------- the emitted command

  /** The groups hold exactly the resolvable tuples. */
  lemma {:induction false} Partition(tuples: seq<Tuple>, resolveAt: Tuple -> Resolution, groups: seq<Group>)
    requires WellGrouped(groups, resolveAt) && Emitted(groups) == multiset(Resolvable(tuples, resolveAt))
    ensures forall t :: (t in tuples && resolveAt(t).Resolved?) <==> exists g :: g in groups && t in g.tuples
    ensures groups == [] <==> Resolvable(tuples, resolveAt) == []
    ensures forall g | g in groups :: g.tuples != [] && g.tuples[0] in tuples && resolveAt(g.tuples[0]) == Resolved(g.phases)
  {
    EmittedMembers(groups);
    ResolvableMembers(tuples, resolveAt);
    assert forall t :: t in multiset(Resolvable(tuples, resolveAt)) <==> t in Resolvable(tuples, resolveAt);
    forall g | g in groups
      ensures g.tuples != [] && g.tuples[0] in tuples && resolveAt(g.tuples[0]) == Resolved(g.phases)
    {
      var k :| 0 <= k < |groups| && groups[k] == g;
      assert GroupOk(groups[k], resolveAt);
      assert g.tuples[0] in g.tuples;
    }
    if groups != [] {
      assert groups[0] in groups;
    }
    if Resolvable(tuples, resolveAt) != [] {
      assert Resolvable(tuples, resolveAt)[0] in Resolvable(tuples, resolveAt);
    }
  }

  /** What was visited with a tuple has the key of the tuple's resolution, and something was. */
  lemma VisitedKeys(tuples: seq<Tuple>, resolveAt: Tuple -> Resolution, groups: seq<Group>)
    requires WellGrouped(groups, resolveAt) && Emitted(groups) == multiset(Resolvable(tuples, resolveAt))
    ensures forall v | v in Visited(groups) ::
      v.0 in tuples && resolveAt(v.0).Resolved? && KeyOf(v.1) == KeyOf(resolveAt(v.0).phases)
    ensures forall t | t in tuples && resolveAt(t).Resolved? :: exists p :: (t, p) in Visited(groups)
  {
    VisitedMembers(groups);
    Partition(tuples, resolveAt, groups);
    forall v | v in Visited(groups)
      ensures v.0 in tuples && resolveAt(v.0).Resolved? && KeyOf(v.1) == KeyOf(resolveAt(v.0).phases)
    {
      assert v == (v.0, v.1);
      var g :| g in groups && v.0 in g.tuples && g.phases == v.1;
      var k :| 0 <= k < |groups| && groups[k] == g;
      assert GroupOk(groups[k], resolveAt);
    }
    forall t | t in tuples && resolveAt(t).Resolved?
      ensures exists p :: (t, p) in Visited(groups)
    {
      var g :| g in groups && t in g.tuples;
      assert (t, g.phases) in Visited(groups);
    }
  }

  /** One group is left exactly when all resolvable tuples share a key. */
  lemma OneGroup(tuples: seq<Tuple>, resolveAt: Tuple -> Resolution, groups: seq<Group>)
    requires WellGrouped(groups, resolveAt) && Emitted(groups) == multiset(Resolvable(tuples, resolveAt))
    requires groups != []
    ensures |groups| == 1 <==> OneKey(tuples, resolveAt)
  {
    Partition(tuples, resolveAt, groups);
    if |groups| == 1 {
      assert GroupOk(groups[0], resolveAt);
      forall t | t in tuples && resolveAt(t).Resolved?
        ensures KeyOf(resolveAt(t).phases) == KeyOf(groups[0].phases)
      {
        var g :| g in groups && t in g.tuples;
        assert g == groups[0];
      }
    } else {
      assert groups[0] in groups && groups[1] in groups;
      assert KeyOf(groups[0].phases) != KeyOf(groups[1].phases);
      var t, u := groups[0].tuples[0], groups[1].tuples[0];
      assert t in tuples && u in tuples;
    }
  }

  lemma SameKeySameGroup(resolveAt: Tuple -> Resolution, groups: seq<Group>, i: nat, j: nat)
    requires WellGrouped(groups, resolveAt) && i < |groups| && j < |groups|
    requires KeyOf(groups[i].phases) == KeyOf(groups[j].phases)
    ensures i == j
  {
  }

  /** Two entries with one key come from one group, so they carry the same phases. */
  lemma OneKeyOnePhases(resolveAt: Tuple -> Resolution, groups: seq<Group>, v: (Tuple, Phases), w: (Tuple, Phases))
    requires WellGrouped(groups, resolveAt) && v in Visited(groups) && w in Visited(groups)
    requires KeyOf(v.1) == KeyOf(w.1)
    ensures v.1 == w.1
  {
    VisitedMembers(groups);
    assert v == (v.0, v.1) && w == (w.0, w.1);
    var g :| g in groups && v.0 in g.tuples && g.phases == v.1;
    var h :| h in groups && w.0 in h.tuples && h.phases == w.1;
    var i :| 0 <= i < |groups| && groups[i] == g;
    var j :| 0 <= j < |groups| && groups[j] == h;
    SameKeySameGroup(resolveAt, groups, i, j);
  }

  /** What is visited with a tuple is the resolution of some tuple with the same key. */
  lemma VisitedIsAResolution(tuples: seq<Tuple>, resolveAt: Tuple -> Resolution, groups: seq<Group>, v: (Tuple, Phases))
    requires WellGrouped(groups, resolveAt) && Emitted(groups) == multiset(Resolvable(tuples, resolveAt))
    requires KeysTellApart(tuples, resolveAt) && v in Visited(groups)
    ensures v.0 in tuples && resolveAt(v.0) == Resolved(v.1)
  {
    VisitedKeys(tuples, resolveAt, groups);
    VisitedMembers(groups);
    Partition(tuples, resolveAt, groups);
    assert v == (v.0, v.1);
    var g :| g in groups && v.0 in g.tuples && g.phases == v.1;
    assert resolveAt(g.tuples[0]) == Resolved(g.phases);
  }

  lemma OwnFromKeys(dispatch: seq<DispatchVar>, resolveAt: Tuple -> Resolution, groups: seq<Group>)
    requires WellGrouped(groups, resolveAt) && KeysTellApart(Product(dispatch), resolveAt)
    requires Emitted(groups) == multiset(Resolvable(Product(dispatch), resolveAt))
    ensures forall t, p | t in Product(dispatch) && resolveAt(t).Resolved? ::
      (t, p) in Visited(groups) <==> p == resolveAt(t).phases
  {
    var tuples := Product(dispatch);
    VisitedKeys(tuples, resolveAt, groups);
    forall v | v in Visited(groups)
      ensures resolveAt(v.0) == Resolved(v.1)
    {
      VisitedIsAResolution(tuples, resolveAt, groups, v);
    }
    forall t, p | t in tuples && resolveAt(t).Resolved?
      ensures (t, p) in Visited(groups) <==> p == resolveAt(t).phases
    {
      var q :| (t, q) in Visited(groups);
      assert resolveAt((t, q).0) == Resolved((t, q).1);
      if (t, p) in Visited(groups) {
        assert resolveAt((t, p).0) == Resolved((t, p).1);
      }
    }
  }

  lemma KeysFromOwn(dispatch: seq<DispatchVar>, resolveAt: Tuple -> Resolution, groups: seq<Group>)
    requires WellGrouped(groups, resolveAt)
    requires Emitted(groups) == multiset(Resolvable(Product(dispatch), resolveAt))
    requires forall t, p | t in Product(dispatch) && resolveAt(t).Resolved? ::
      (t, p) in Visited(groups) <==> p == resolveAt(t).phases
    ensures KeysTellApart(Product(dispatch), resolveAt)
  {
    var tuples := Product(dispatch);
    forall t, u | t in tuples && u in tuples && resolveAt(t).Resolved? && resolveAt(u).Resolved?
                  && KeyOf(resolveAt(t).phases) == KeyOf(resolveAt(u).phases)
      ensures resolveAt(t).phases == resolveAt(u).phases
    {
      OneKeyOnePhases(resolveAt, groups, (t, resolveAt(t).phases), (u, resolveAt(u).phases));
    }
  }

  lemma SelectRunsOwn(dispatch: seq<DispatchVar>, resolveAt: Tuple -> Resolution, groups: seq<Group>)
    requires WellSpaced(dispatch) && dispatch != [] && WellGrouped(groups, resolveAt) && groups != []
    requires Emitted(groups) == multiset(Resolvable(Product(dispatch), resolveAt))
    ensures RunsOwn(dispatch, SelectOf(dispatch, Visited(groups)), resolveAt)
      <==> Loads(SelectOf(dispatch, Visited(groups))) && KeysTellApart(Product(dispatch), resolveAt)
  {
    var r, visited, tuples := SelectOf(dispatch, Visited(groups)), Visited(groups), Product(dispatch);
    VisitedKeys(tuples, resolveAt, groups);
    if Loads(r) {
      forall t, p | t in tuples
        ensures Runs(dispatch, r, t, p) <==> (t, p) in visited
      {
        RunsVisited(dispatch, visited, t, p);
      }
      if KeysTellApart(tuples, resolveAt) {
        OwnFromKeys(dispatch, resolveAt, groups);
      }
      if RunsOwn(dispatch, r, resolveAt) {
        KeysFromOwn(dispatch, resolveAt, groups);
      }
    } else {
      Partition(tuples, resolveAt, groups);
      var t := groups[0].tuples[0];
      assert groups[0] in groups && t in tuples && resolveAt(t).Resolved?;
      assert !Runs(dispatch, r, t, resolveAt(t).phases);
    }
  }

  /** A tuple outside the groups has no arm. */
  lemma SelectSkipsOthers(dispatch: seq<DispatchVar>, resolveAt: Tuple -> Resolution, groups: seq<Group>, t: Tuple)
    requires WellSpaced(dispatch) && dispatch != [] && WellGrouped(groups, resolveAt) && t in Product(dispatch)
    requires Emitted(groups) == multiset(Resolvable(Product(dispatch), resolveAt)) && !resolveAt(t).Resolved?
    ensures !RunsSomething(dispatch, SelectOf(dispatch, Visited(groups)), t)
  {
    var r := SelectOf(dispatch, Visited(groups));
    VisitedKeys(Product(dispatch), resolveAt, groups);
    if Loads(r) {
      forall p
        ensures !Runs(dispatch, r, t, p)
      {
        RunsVisited(dispatch, Visited(groups), t, p);
      }
    }
  }

  /** All that is promised of the rendered command. */
  ghost predicate Faithful(dispatch: seq<DispatchVar>, resolveAt: Tuple -> Resolution, r: Rendered) {
    var tuples := Product(dispatch);
    && (r.Nothing? <==> Stops(tuples, resolveAt))
    && (r.Plain? <==> !Stops(tuples, resolveAt) && OneKey(tuples, resolveAt))
    && (r.Plain? ==> exists t :: t in tuples && resolveAt(t) == Resolved(r.phases))
    && (r.Select? ==> (Loads(r) <==> DistinctLabels(dispatch, Resolvable(tuples, resolveAt))))
    && (!r.Nothing? ==> (RunsOwn(dispatch, r, resolveAt) <==> Loads(r) && KeysTellApart(tuples, resolveAt)))
    && (forall t | t in tuples && !resolveAt(t).Resolved? :: RunsSomething(dispatch, r, t) <==> r.Plain?)
  }

  lemma PlainRunsOwn(dispatch: seq<DispatchVar>, resolveAt: Tuple -> Resolution, t: Tuple)
    requires t in Product(dispatch) && resolveAt(t).Resolved? && OneKey(Product(dispatch), resolveAt)
    ensures RunsOwn(dispatch, Plain(resolveAt(t).phases), resolveAt) <==> KeysTellApart(Product(dispatch), resolveAt)
  {
    var r := Plain(resolveAt(t).phases);
    if RunsOwn(dispatch, r, resolveAt) {
      forall u | u in Product(dispatch) && resolveAt(u).Resolved?
        ensures resolveAt(u).phases == resolveAt(t).phases
      {
        assert Runs(dispatch, r, u, resolveAt(u).phases);
      }
    }
  }

  lemma PlainIsFaithful(dispatch: seq<DispatchVar>, resolveAt: Tuple -> Resolution, t: Tuple)
    requires t in Product(dispatch) && resolveAt(t).Resolved?
    requires !Stops(Product(dispatch), resolveAt) && OneKey(Product(dispatch), resolveAt)
    ensures Faithful(dispatch, resolveAt, Plain(resolveAt(t).phases))
  {
    var r := Plain(resolveAt(t).phases);
    PlainRunsOwn(dispatch, resolveAt, t);
    forall u
      ensures RunsSomething(dispatch, r, u)
    {
      assert Runs(dispatch, r, u, resolveAt(t).phases);
    }
  }

  lemma SelectIsFaithful(dispatch: seq<DispatchVar>, resolveAt: Tuple -> Resolution, groups: seq<Group>)
    requires WellSpaced(dispatch) && dispatch != [] && WellGrouped(groups, resolveAt) && |groups| > 1
    requires Emitted(groups) == multiset(Resolvable(Product(dispatch), resolveAt))
    requires forall t | t in Product(dispatch) :: !resolveAt(t).Broken?
    ensures Faithful(dispatch, resolveAt, SelectOf(dispatch, Visited(groups)))
  {
    var tuples := Product(dispatch);
    Partition(tuples, resolveAt, groups);
    OneGroup(tuples, resolveAt, groups);
    LoadsExactly(dispatch, groups, Resolvable(tuples, resolveAt));
    SelectRunsOwn(dispatch, resolveAt, groups);
    forall t | t in tuples && !resolveAt(t).Resolved?
      ensures !RunsSomething(dispatch, SelectOf(dispatch, Visited(groups)), t)
    {
      SelectSkipsOthers(dispatch, resolveAt, groups, t);
    }
  }

  lemma NothingIsFaithful(dispatch: seq<DispatchVar>, resolveAt: Tuple -> Resolution, message: string)
    requires Stops(Product(dispatch), resolveAt)
    ensures Faithful(dispatch, resolveAt, Nothing(message))
  {
  }

  lemma GroupsSpan(dispatch: seq<DispatchVar>, resolveAt: Tuple -> Resolution, groups: seq<Group>)
    requires WellSpaced(dispatch) && WellGrouped(groups, resolveAt)
    requires Emitted(groups) == multiset(Resolvable(Product(dispatch), resolveAt))
    ensures AllSpan(dispatch, groups)
  {
    Partition(Product(dispatch), resolveAt, groups);
    SpaceIsDistinct(dispatch);
    forall g, t | g in groups && t in g.tuples
      ensures forall k :: k in t <==> k in Names(dispatch)
    {
      ProductMember(dispatch, t);
      NamesSpan(dispatch, t);
    }
  }

  lemma WithoutDispatch(resolveAt: Tuple -> Resolution)
    ensures match resolveAt(map[])
      case Resolved(phases) => Faithful([], resolveAt, Plain(phases))
      case Undefined(message) => Faithful([], resolveAt, Nothing(message))
      case Broken(message) => Faithful([], resolveAt, Nothing(message))
  {
    assert Product([]) == [map[]];
    ResolvableMembers([map[]], resolveAt);
    if resolveAt(map[]).Resolved? {
      assert map[] in Resolvable(Product([]), resolveAt);
      PlainIsFaithful([], resolveAt, map[]);
    } else {
      assert forall t :: t !in Resolvable(Product([]), resolveAt);
      assert Resolvable(Product([]), resolveAt) == [];
    }
  }

  /** The dispatch part of renderInstallGenruleBody, from the dispatch space to the emitted command. */
  method RenderDispatch(dispatch: seq<DispatchVar>, resolveAt: Tuple -> Resolution) returns (r: Rendered)
    requires WellSpaced(dispatch)
    ensures Faithful(dispatch, resolveAt, r)
  {
    if dispatch == [] {
      WithoutDispatch(resolveAt);
      match resolveAt(map[])
      case Resolved(phases) =>
        return Plain(phases);
      case Undefined(message) =>
        return Nothing(message);
      case Broken(message) =>
        return Nothing(message);
    }
    var tuples := CartesianTuples(dispatch);
    var grouping := GroupDispatchTuples(tuples, resolveAt);
    if grouping.HardError? {
      NothingIsFaithful(dispatch, resolveAt, grouping.message);
      return Nothing(grouping.message);
    }
    var groups := grouping.groups;
    Partition(tuples, resolveAt, groups);
    if |groups| == 0 {
      NothingIsFaithful(dispatch, resolveAt, "every dispatch tuple was unresolvable");
      return Nothing("every dispatch tuple was unresolvable");
    }
    assert groups[0] in groups;
    if |groups| == 1 {
      OneGroup(tuples, resolveAt, groups);
      PlainIsFaithful(dispatch, resolveAt, groups[0].tuples[0]);
      return Plain(groups[0].phases);
    }
    GroupsSpan(dispatch, resolveAt, groups);
    var settings: seq<Setting> := [];
    if NeedsConfigSettings(dispatch) {
      settings := RenderConfigSettings(dispatch, groups);
    }
    var arms := RenderArms(dispatch, groups);
    r := Select(arms, settings);
    SelectIsFaithful(dispatch, resolveAt, groups);
  }

  // ------------------------------------------------------------- when labels collide

  lemma NameOfOne(v: DispatchVar, t: Tuple)
    requires v.name in t
    ensures SettingName([v], t) == Sanitized(t[v.name])
  {
    assert Names([v]) == [v.name];
    assert SanitizedValues(t, [v.name]) == [Sanitized(t[v.name])];
  }

  /** One option: two values share a label exactly when they read alike after sanitising. */
  lemma OneOptionLabels(v: DispatchVar, t: Tuple, u: Tuple)
    requires !v.isPlatform && v.name in t && v.name in u
    ensures SelectLabel([v], t) == SelectLabel([v], u) <==> Sanitized(t[v.name]) == Sanitized(u[v.name])
  {
    NameOfOne(v, t);
    NameOfOne(v, u);
    Cut(":", Sanitized(t[v.name]));
    Cut(":", Sanitized(u[v.name]));
  }

  /** The architecture alone: labels never collide. */
  lemma PlatformLabelsDiffer(dispatch: seq<DispatchVar>, t: Tuple, u: Tuple)
    requires WellSpaced(dispatch) && |dispatch| == 1 && dispatch[0].isPlatform
    requires t in Product(dispatch) && u in Product(dispatch) && t != u
    ensures SelectLabel(dispatch, t) != SelectLabel(dispatch, u)
  {
    SatisfiesItselfOnly(dispatch, t, u);
    if SelectLabel(dispatch, t) == SelectLabel(dispatch, u) {
      PlatformLabel(dispatch, t, u);
    }
  }

  /** A letter-and-digit value is its own sanitised form. */
  predicate Alphanumeric(s: string) {
    forall c | c in s :: IdentByte(c) && c != '_'
  }

  lemma SameValues(names: seq<string>, t: Tuple, u: Tuple)
    requires forall k :: k in t <==> k in names
    requires forall k :: k in u <==> k in names
    requires forall i | 0 <= i < |names| :: t[names[i]] == u[names[i]]
    ensures t == u
  {
    assert t.Keys == u.Keys;
  }

  lemma ValuesUnchanged(t: Tuple, names: seq<string>)
    requires forall k | k in names :: k in t && Alphanumeric(t[k])
    ensures forall i | 0 <= i < |names| :: SanitizedValues(t, names)[i] == t[names[i]]
    ensures Free(SanitizedValues(t, names), '_')
  {
    forall i | 0 <= i < |names|
      ensures SanitizedValues(t, names)[i] == t[names[i]] && '_' !in SanitizedValues(t, names)[i]
    {
      assert names[i] in names;
      assert forall j | 0 <= j < |t[names[i]]| :: t[names[i]][j] in t[names[i]];
      assert Sanitized(t[names[i]]) == t[names[i]];
    }
  }

  /** Any number of variables with letter-and-digit values: labels never collide. */
  lemma PlainLabelsDiffer(dispatch: seq<DispatchVar>, t: Tuple, u: Tuple)
    requires WellSpaced(dispatch) && NeedsConfigSettings(dispatch)
    requires t in Product(dispatch) && u in Product(dispatch)
    requires forall k | k in t :: Alphanumeric(t[k])
    requires forall k | k in u :: Alphanumeric(u[k])
    ensures SelectLabel(dispatch, t) == SelectLabel(dispatch, u) ==> t == u
  {
    SpaceIsDistinct(dispatch);
    ProductMember(dispatch, t);
    ProductMember(dispatch, u);
    NamesSpan(dispatch, t);
    NamesSpan(dispatch, u);
    var names := Names(dispatch);
    NamesAre(dispatch);
    ValuesUnchanged(t, names);
    ValuesUnchanged(u, names);
    JoinedInjective(SanitizedValues(t, names), SanitizedValues(u, names), '_');
    Cut(":", SettingName(dispatch, t));
    Cut(":", SettingName(dispatch, u));
    if SelectLabel(dispatch, t) == SelectLabel(dispatch, u) {
      SameValues(names, t, u);
    }
  }

  // ------------------------------------------------------------- two concrete elements

  const OPTION := "grade"

  function TwoValued(a: string, b: string): seq<DispatchVar> {
    [DispatchVar(OPTION, [a, b], false)]
  }

  function First(a: string, p: Resolution, q: Resolution): Tuple -> Resolution {
    (t: Tuple) => if t == map[OPTION := a] then p else q
  }

  lemma TwoTuples(a: string, b: string)
    ensures Product(TwoValued(a, b)) == [map[OPTION := a], map[OPTION := b]]
  {
    var v := DispatchVar(OPTION, [a, b], false);
    assert TwoValued(a, b)[..0] == [];
    assert Product([]) == [map[]];
    assert Expand([map[]], v) == Row(map[], v, 2);
  }

  lemma ResolvableOfTwo(a: string, b: string, p: Resolution, q: Resolution)
    requires a != b && p.Resolved?
    ensures var tuples := Product(TwoValued(a, b));
      Resolvable(tuples, First(a, p, q)) == if q.Resolved? then tuples else [map[OPTION := a]]
  {
    TwoTuples(a, b);
    var x, y := map[OPTION := a], map[OPTION := b];
    assert x[OPTION] == a && y[OPTION] == b;
    var one: seq<Tuple> := [x];
    assert [x, y][..1] == one && one[..0] == [];
    assert Resolvable(one, First(a, p, q)) == one;
  }

  /** The second value does not resolve, the first does: a build for the second runs the first one's command. */
  lemma UnresolvedValueIsServed(p: Phases, message: string, r: Rendered)
    requires Faithful(TwoValued("devel", "stable"), First("devel", Resolved(p), Undefined(message)), r)
    ensures !First("devel", Resolved(p), Undefined(message))(map[OPTION := "stable"]).Resolved?
    ensures r == Plain(p) && Runs(TwoValued("devel", "stable"), r, map[OPTION := "stable"], p)
  {
    hide RunsOwn, Loads, DistinctLabels;
    assert "devel"[0] != "stable"[0];
    TwoTuples("devel", "stable");
    ResolvableOfTwo("devel", "stable", Resolved(p), Undefined(message));
    assert map[OPTION := "stable"][OPTION] != "devel";
  }

  lemma TwoResults(a: string, b: string, p: Phases, q: Phases)
    requires a != b && KeyOf(p) != KeyOf(q)
    ensures var tuples, resolveAt := Product(TwoValued(a, b)), First(a, Resolved(p), Resolved(q));
      !Stops(tuples, resolveAt) && !OneKey(tuples, resolveAt)
  {
    TwoTuples(a, b);
    ResolvableOfTwo(a, b, Resolved(p), Resolved(q));
    var x: Tuple, y: Tuple := map[OPTION := a], map[OPTION := b];
    assert x[OPTION] == a && y[OPTION] == b;
    assert x in Product(TwoValued(a, b)) && y in Product(TwoValued(a, b));
  }

  lemma TwoLabels(dispatch: seq<DispatchVar>, a: string, b: string)
    requires dispatch == TwoValued(a, b)
    ensures DistinctLabels(dispatch, [map[OPTION := a], map[OPTION := b]]) <==> Sanitized(a) != Sanitized(b)
  {
    var x: Tuple, y: Tuple := map[OPTION := a], map[OPTION := b];
    OneOptionLabels(dispatch[0], x, y);
    assert [x, y][0] == x && [x, y][1] == y;
  }

  /** Two values with commands of their own: the BUILD file loads exactly when their sanitised forms differ. */
  lemma TwoValuesLoad(a: string, b: string, p: Phases, q: Phases, r: Rendered)
    requires a != b && KeyOf(p) != KeyOf(q)
    requires Faithful(TwoValued(a, b), First(a, Resolved(p), Resolved(q)), r)
    ensures r.Select? && (Loads(r) <==> Sanitized(a) != Sanitized(b))
    ensures RunsOwn(TwoValued(a, b), r, First(a, Resolved(p), Resolved(q))) ==> Loads(r)
  {
    var dispatch, resolveAt := TwoValued(a, b), First(a, Resolved(p), Resolved(q));
    TwoResults(a, b, p, q);
    TwoTuples(a, b);
    ResolvableOfTwo(a, b, Resolved(p), Resolved(q));
    TwoLabels(dispatch, a, b);
  }

  lemma VersionsSanitiseAlike()
    ensures "1.2" != "1_2" && Sanitized("1.2") == Sanitized("1_2")
  {
    assert "1.2"[1] != "1_2"[1];
  }

  /** Two versions that sanitise alike. */
  lemma CollidingValuesDoNotLoad(p: Phases, q: Phases, r: Rendered)
    requires KeyOf(p) != KeyOf(q)
    requires Faithful(TwoValued("1.2", "1_2"), First("1.2", Resolved(p), Resolved(q)), r)
    ensures r.Select? && !Loads(r) && !RunsOwn(TwoValued("1.2", "1_2"), r, First("1.2", Resolved(p), Resolved(q)))
  {
    VersionsSanitiseAlike();
    TwoValuesLoad("1.2", "1_2", p, q, r);
  }
}
