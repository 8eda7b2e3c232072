/**
 cmd/convert-element-trace/main.go: recovering cc_library and cc_binary rules, keeping a
 toolchain-default flag only where the makefile asked for it.
 */
module RuleRecovery {
  import opened CompileIndex
  import Db = MakeDatabase
  import opened Options
  import opened Ordering
  import opened Paths
  import opened Sequences
  import opened Text

  datatype RuleKind = CcLibrary | CcBinary

  datatype CCRule = CCRule(kind: RuleKind, name: string, srcs: seq<string>, copts: seq<string>,
                           defines: seq<string>, deps: seq<string>)

  // ------------------------------------------------------------- flags

  const PIC_FLAGS: set<string> := {"-fPIC", "-fpic", "-fPIE", "-fpie"}
  const DEBUG_FLAGS: set<string> := {
    "-g", "-g0", "-g1", "-g2", "-g3", "-ggdb", "-ggdb0", "-ggdb1", "-ggdb2", "-ggdb3"
  }
  const FLAG_VARIABLES: set<string> := {"CFLAGS", "CXXFLAGS", "CPPFLAGS", "CCASFLAGS"}

  /** isDefaultToolchainFlag */
  predicate IsDefaultFlag(flag: string) {
    flag in PIC_FLAGS || HasPrefix(flag, "-O") || flag in DEBUG_FLAGS
  }

  /** The makefile declares the flag for this target; without a database it declares nothing. */
  ghost predicate Declares(db: Option<Db.TargetVars>, target: string, flag: string) {
    db.Some? && target in db.value
    && exists tv | tv in db.value[target] :: tv.name in FLAG_VARIABLES && flag in Fields(tv.value)
  }

  /** The flags a toolchain adds by itself: optimisation, debug information, position independence. */
  lemma {:induction false} ToolchainDefaults(level: string, flag: string)
    ensures IsDefaultFlag("-O" + level)
    ensures flag in {"-g", "-g0", "-g1", "-g2", "-g3", "-ggdb", "-ggdb0", "-ggdb1", "-ggdb2", "-ggdb3"} ==>
      IsDefaultFlag(flag)
    ensures flag in {"-fPIC", "-fpic", "-fPIE", "-fpie"} ==> IsDefaultFlag(flag)
    ensures IsDefaultFlag(flag) ==> |flag| >= 2 && (flag[1] == 'O' || flag[1] == 'g' || flag[1] == 'f')
  {
    assert ("-O" + level)[..2] == "-O";
    if HasPrefix(flag, "-O") {
      assert flag[1] == flag[..2][1];
    }
  }

  /** The variables that are read for them. */
  lemma DeclaringVariables(db: Option<Db.TargetVars>, target: string, flag: string)
    ensures Declares(db, target, flag) <==>
      && db.Some? && target in db.value
      && exists tv | tv in db.value[target] ::
           (tv.name == "CFLAGS" || tv.name == "CXXFLAGS" || tv.name == "CPPFLAGS" || tv.name == "CCASFLAGS")
           && flag in Fields(tv.value)
  {
  }

  ghost predicate Survives(db: Option<Db.TargetVars>, target: string, flag: string) {
    !IsDefaultFlag(flag) || Declares(db, target, flag)
  }

  ghost predicate DeclaredIn(tvs: seq<Db.TargetVar>, flag: string) {
    exists tv | tv in tvs :: tv.name in FLAG_VARIABLES && flag in Fields(tv.value)
  }

  /** perTargetIntentFlags */
  method PerTargetIntentFlags(db: Option<Db.TargetVars>, target: string) returns (intent: set<string>)
    ensures forall flag :: flag in intent <==> Declares(db, target, flag)
  {
    intent := {};
    if db.None? || target !in db.value {
      return;
    }
    var tvs := db.value[target];
    for i := 0 to |tvs|
      invariant forall flag :: flag in intent <==> DeclaredIn(tvs[..i], flag)
    {
      PrefixStep(tvs, i);
      if tvs[i].name in FLAG_VARIABLES {
        intent := intent + set tok | tok in Fields(tvs[i].value);
      }
    }
    WholePrefix(tvs);
  }

  function Stripped(copts: seq<string>, intent: set<string>): (r: seq<string>)
    ensures forall flag :: flag in r <==> flag in copts && (!IsDefaultFlag(flag) || flag in intent)
  {
    if copts == [] then []
    else
      var last := |copts| - 1;
      assert copts == copts[..last] + [copts[last]];
      Stripped(copts[..last], intent)
      + if !IsDefaultFlag(copts[last]) || copts[last] in intent then [copts[last]] else []
  }

  /** stripDefaultsRespectingIntent keeps the order of the flags it keeps. */
  method StripDefaults(copts: seq<string>, intent: set<string>) returns (out: seq<string>)
    ensures out == Stripped(copts, intent)
  {
    out := [];
    for i := 0 to |copts|
      invariant out == Stripped(copts[..i], intent)
    {
      PrefixStep(copts, i);
      if !IsDefaultFlag(copts[i]) || copts[i] in intent {
        out := out + [copts[i]];
      }
    }
    WholePrefix(copts);
  }

  // ------------------------------------------------------------- what a rule is made of

  /** One compile that goes into a rule, and the make target its flags belong to. */
  datatype Part = Part(target: string, compile: Event)

  function ResolvedParts(events: seq<Event>, cwd: string, objs: seq<string>): seq<Part> {
    if objs == [] then []
    else
      var last := |objs| - 1;
      var c := Resolve(events, cwd, objs[last]);
      ResolvedParts(events, cwd, objs[..last]) + if c.Some? then [Part(Base(objs[last]), c.value)] else []
  }

  /** A link compiles its own sources too. */
  function PartsOf(events: seq<Event>, ev: Event): seq<Part> {
    (if ev.kind == Link then [Part(Base(ev.out), ev)] else []) + ResolvedParts(events, ev.cwd, ev.objs)
  }

  lemma {:induction false} ResolvedPartsAre(events: seq<Event>, cwd: string, objs: seq<string>, p: Part)
    ensures p in ResolvedParts(events, cwd, objs) <==>
      exists obj | obj in objs :: Resolve(events, cwd, obj) == Some(p.compile) && p.target == Base(obj)
  {
    if objs != [] {
      var last := |objs| - 1;
      assert objs == objs[..last] + [objs[last]];
      ResolvedPartsAre(events, cwd, objs[..last], p);
    }
  }

  ghost predicate SourceOf(parts: seq<Part>, s: string) {
    exists p | p in parts :: s in p.compile.srcs
  }

  ghost predicate DefineOf(parts: seq<Part>, d: string) {
    exists p | p in parts :: d in p.compile.defines
  }

  ghost predicate FlagOf(parts: seq<Part>, db: Option<Db.TargetVars>, flag: string) {
    exists p | p in parts :: flag in p.compile.copts && Survives(db, p.target, flag)
  }

  /** What the library argument `lib` of a link turns into, if anything. */
  ghost predicate DepFor(events: seq<Event>, imports: map<string, string>, lib: string, dep: string) {
    if IsLocal(events, lib) then dep == ":" + lib else lib in imports && dep == imports[lib]
  }

  ghost predicate DepAmong(events: seq<Event>, imports: map<string, string>, libs: seq<string>, dep: string) {
    exists lib | lib in libs :: DepFor(events, imports, lib, dep)
  }

  /** The rule holds the members the trace and the database justify, and nothing else. */
  ghost predicate Recovers(events: seq<Event>, db: Option<Db.TargetVars>, imports: map<string, string>,
                           ev: Event, rule: CCRule)
  {
    var parts := PartsOf(events, ev);
    && rule.kind == (if ev.kind == Link then CcBinary else CcLibrary)
    && rule.name == (if ev.kind == Link then Base(ev.out) else LibraryName(ev.out))
    && StrictlySorted(rule.srcs) && (forall s :: s in rule.srcs <==> SourceOf(parts, s))
    && StrictlySorted(rule.copts) && (forall f :: f in rule.copts <==> FlagOf(parts, db, f))
    && StrictlySorted(rule.defines) && (forall d :: d in rule.defines <==> DefineOf(parts, d))
    && StrictlySorted(rule.deps)
    && (forall d :: d in rule.deps <==> ev.kind == Link && DepAmong(events, imports, ev.libs, d))
  }

  /**
   Main result on flags: a default flag is in a library exactly when the compile of some object
   carried it and the database declares it for that same object.
   */
  lemma DefaultFlagExact(events: seq<Event>, db: Option<Db.TargetVars>, imports: map<string, string>,
                         ev: Event, rule: CCRule, flag: string)
    requires Recovers(events, db, imports, ev, rule) && IsDefaultFlag(flag)
    ensures flag in rule.copts <==>
      || (ev.kind == Link && flag in ev.copts && Declares(db, Base(ev.out), flag))
      || exists obj | obj in ev.objs ::
        var c := Resolve(events, ev.cwd, obj);
        c.Some? && flag in c.value.copts && Declares(db, Base(obj), flag)
  {
    var parts := PartsOf(events, ev);
    var objects := ResolvedParts(events, ev.cwd, ev.objs);
    if flag in rule.copts {
      var p :| p in parts && flag in p.compile.copts && Survives(db, p.target, flag);
      ResolvedPartsAre(events, ev.cwd, ev.objs, p);
      assert p in objects || (ev.kind == Link && p == Part(Base(ev.out), ev));
    }
    if ev.kind == Link && flag in ev.copts && Declares(db, Base(ev.out), flag) {
      assert Part(Base(ev.out), ev) in parts;
      assert Survives(db, Base(ev.out), flag);
    }
    forall obj | obj in ev.objs && Resolve(events, ev.cwd, obj).Some?
      ensures Part(Base(obj), Resolve(events, ev.cwd, obj).value) in parts
    {
      ResolvedPartsAre(events, ev.cwd, ev.objs, Part(Base(obj), Resolve(events, ev.cwd, obj).value));
    }
  }

  /** Nothing a compile did is lost, apart from default flags. */
  lemma {:induction false} NothingElseIsLost(events: seq<Event>, db: Option<Db.TargetVars>, imports: map<string, string>,
                          ev: Event, rule: CCRule, obj: string)
    requires Recovers(events, db, imports, ev, rule)
    requires obj in ev.objs && Resolve(events, ev.cwd, obj).Some?
    ensures var c := Resolve(events, ev.cwd, obj).value;
      && (forall s | s in c.srcs :: s in rule.srcs)
      && (forall d | d in c.defines :: d in rule.defines)
      && forall f | f in c.copts && !IsDefaultFlag(f) :: f in rule.copts
  {
    var c := Resolve(events, ev.cwd, obj).value;
    ResolvedPartsAre(events, ev.cwd, ev.objs, Part(Base(obj), c));
    assert Part(Base(obj), c) in PartsOf(events, ev);
    assert forall f | f in c.copts && !IsDefaultFlag(f) :: Survives(db, Base(obj), f);
  }

  /** The compiles of a rule: those its objects resolve to, and a link itself. */
  ghost predicate Contributes(events: seq<Event>, ev: Event, c: Event) {
    || (ev.kind == Link && c == ev)
    || exists obj | obj in ev.objs :: Resolve(events, ev.cwd, obj) == Some(c)
  }

  lemma PartsContribute(events: seq<Event>, ev: Event, c: Event)
    ensures Contributes(events, ev, c) <==> exists p | p in PartsOf(events, ev) :: p.compile == c
  {
    var own, objects := if ev.kind == Link then [Part(Base(ev.out), ev)] else [], ResolvedParts(events, ev.cwd, ev.objs);
    assert forall p :: p in PartsOf(events, ev) <==> p in own || p in objects;
    if ev.kind == Link && c == ev {
      assert own[0] in PartsOf(events, ev);
    }
    if obj :| obj in ev.objs && Resolve(events, ev.cwd, obj) == Some(c) {
      ResolvedPartsAre(events, ev.cwd, ev.objs, Part(Base(obj), c));
      assert Part(Base(obj), c) in PartsOf(events, ev);
    }
    if p :| p in PartsOf(events, ev) && p.compile == c {
      ResolvedPartsAre(events, ev.cwd, ev.objs, p);
    }
  }

  /** Sources and defines of a rule are exactly those of its compiles; a link's own are among them. */
  lemma {:induction false} MembersExact(events: seq<Event>, db: Option<Db.TargetVars>, imports: map<string, string>,
                                       ev: Event, rule: CCRule, x: string)
    requires Recovers(events, db, imports, ev, rule)
    ensures x in rule.srcs <==> exists c :: Contributes(events, ev, c) && x in c.srcs
    ensures x in rule.defines <==> exists c :: Contributes(events, ev, c) && x in c.defines
  {
    forall c
      ensures Contributes(events, ev, c) <==> exists p | p in PartsOf(events, ev) :: p.compile == c
    {
      PartsContribute(events, ev, c);
    }
    hide PartsOf, Contributes;
    var parts := PartsOf(events, ev);
    assert forall p | p in parts :: Contributes(events, ev, p.compile);
  }

  /** A library is named by what stands between `lib` and `.a`, a binary by its file name. */
  lemma RuleNamed(events: seq<Event>, db: Option<Db.TargetVars>, imports: map<string, string>, ev: Event, rule: CCRule,
                  dir: string, name: string)
    requires Recovers(events, db, imports, ev, rule) && name != "" && '/' !in name
    ensures ev.kind != Link && ev.out == dir + "/" + ("lib" + name + ".a") ==> rule.kind == CcLibrary && rule.name == name
    ensures ev.kind == Link && ev.out == dir + "/" + name ==> rule.kind == CcBinary && rule.name == name
  {
    LibraryNameRead(dir, name);
    BaseOfFile(dir, name);
  }

  /** The dependencies of a binary: a label for each library archived here, else the imported one. */
  lemma DepsExact(events: seq<Event>, db: Option<Db.TargetVars>, imports: map<string, string>, ev: Event, rule: CCRule)
    requires Recovers(events, db, imports, ev, rule) && ev.kind == Link
    ensures forall lib | lib in ev.libs && IsLocal(events, lib) :: ":" + lib in rule.deps
    ensures forall lib | lib in ev.libs && !IsLocal(events, lib) && lib in imports :: imports[lib] in rule.deps
    ensures forall d | d in rule.deps :: exists lib | lib in ev.libs ::
      if IsLocal(events, lib) then d == ":" + lib else lib in imports && d == imports[lib]
  {
    forall lib | lib in ev.libs && IsLocal(events, lib)
      ensures ":" + lib in rule.deps
    {
      assert DepFor(events, imports, lib, ":" + lib);
    }
    forall lib | lib in ev.libs && !IsLocal(events, lib) && lib in imports
      ensures imports[lib] in rule.deps
    {
      assert DepFor(events, imports, lib, imports[lib]);
    }
  }

  /** The members determine the rule. */
  lemma RecoveredOnce(events: seq<Event>, db: Option<Db.TargetVars>, imports: map<string, string>,
                      ev: Event, a: CCRule, b: CCRule)
    requires Recovers(events, db, imports, ev, a) && Recovers(events, db, imports, ev, b)
    ensures a == b
  {
    SortedDetermined(a.srcs, b.srcs);
    SortedDetermined(a.copts, b.copts);
    SortedDetermined(a.defines, b.defines);
    SortedDetermined(a.deps, b.deps);
  }

  // ------------------------------------------------------------- buildRules

  /** The three lists the loops fill, related to the parts seen so far. */
  ghost predicate Gathered(parts: seq<Part>, db: Option<Db.TargetVars>, srcs: seq<string>,
                           copts: seq<string>, defines: seq<string>)
  {
    && (forall s :: s in srcs <==> SourceOf(parts, s))
    && (forall f :: f in copts <==> FlagOf(parts, db, f))
    && (forall d :: d in defines <==> DefineOf(parts, d))
  }

  /** Add one compile to the lists. */
  method Gather(p: Part, db: Option<Db.TargetVars>, srcs: seq<string>, copts: seq<string>, defines: seq<string>,
                ghost parts: seq<Part>)
    returns (srcs': seq<string>, copts': seq<string>, defines': seq<string>)
    requires Gathered(parts, db, srcs, copts, defines)
    ensures Gathered(parts + [p], db, srcs', copts', defines')
  {
    var intent := PerTargetIntentFlags(db, p.target);
    var kept := StripDefaults(p.compile.copts, intent);
    srcs', copts', defines' := srcs + p.compile.srcs, copts + kept, defines + p.compile.defines;
    var more := parts + [p];
    assert forall q :: q in more <==> q in parts || q == p;
    assert forall s :: SourceOf(more, s) <==> SourceOf(parts, s) || s in p.compile.srcs;
    assert forall d :: DefineOf(more, d) <==> DefineOf(parts, d) || d in p.compile.defines;
    assert forall f :: FlagOf(more, db, f) <==> FlagOf(parts, db, f) || f in kept;
  }

  /** The body shared by both loops: everything an archive or a link is made of. */
  lemma GatheredNone(db: Option<Db.TargetVars>)
    ensures Gathered([], db, [], [], [])
  {
  }

  method GatherAll(g: Graph, db: Option<Db.TargetVars>, ev: Event, ghost events: seq<Event>)
    returns (srcs: seq<string>, copts: seq<string>, defines: seq<string>)
    requires g.Indexes(events)
    ensures Gathered(PartsOf(events, ev), db, srcs, copts, defines)
  {
    GatheredNone(db);
    hide Gathered;
    srcs, copts, defines := [], [], [];
    ghost var own: seq<Part> := [];
    if ev.kind == Link {
      srcs, copts, defines := Gather(Part(Base(ev.out), ev), db, srcs, copts, defines, []);
      own := [Part(Base(ev.out), ev)];
      assert [] + own == own;
    }
    assert ResolvedParts(events, ev.cwd, ev.objs[..0]) == [] && own + [] == own;
    for i := 0 to |ev.objs|
      invariant Gathered(own + ResolvedParts(events, ev.cwd, ev.objs[..i]), db, srcs, copts, defines)
    {
      PrefixStep(ev.objs, i);
      ghost var before := ResolvedParts(events, ev.cwd, ev.objs[..i]);
      var c := g.LookupCompile(ev.cwd, ev.objs[i], events);
      if c.Some? {
        var p := Part(Base(ev.objs[i]), c.value);
        srcs, copts, defines := Gather(p, db, srcs, copts, defines, own + before);
        Assoc(own, before, [p]);
      } else {
        assert before + [] == before;
      }
    }
    WholePrefix(ev.objs);
  }

  lemma OneMoreDep(events: seq<Event>, imports: map<string, string>, libs: seq<string>, i: nat)
    requires i < |libs|
    ensures forall d :: DepAmong(events, imports, libs[..i + 1], d) <==>
      DepAmong(events, imports, libs[..i], d) || DepFor(events, imports, libs[i], d)
  {
    PrefixStep(libs, i);
    assert libs[i] in libs[..i + 1];
  }

  /** Library arguments become local labels or imported ones; the rest are dropped. */
  method ResolveDeps(g: Graph, imports: map<string, string>, libs: seq<string>, ghost events: seq<Event>)
    returns (deps: seq<string>)
    requires g.Indexes(events)
    ensures forall d :: d in deps <==> DepAmong(events, imports, libs, d)
  {
    deps := [];
    for i := 0 to |libs|
      invariant forall d :: d in deps <==> DepAmong(events, imports, libs[..i], d)
    {
      PrefixStep(libs, i);
      OneMoreDep(events, imports, libs, i);
      ghost var before := deps;
      var found := g.HasLibrary(libs[i], events);
      if found {
        deps := deps + [":" + libs[i]];
      } else if libs[i] in imports {
        deps := deps + [imports[libs[i]]];
      }
      assert forall d :: d in deps <==> d in before || DepFor(events, imports, libs[i], d);
    }
    WholePrefix(libs);
  }

  ghost predicate IsRuleFor(events: seq<Event>, db: Option<Db.TargetVars>, imports: map<string, string>,
                            ev: Event, r: Option<CCRule>)
  {
    && (r.Some? <==> exists s :: SourceOf(PartsOf(events, ev), s))
    && (r.Some? ==> Recovers(events, db, imports, ev, r.value))
  }

  /** A rule for one archive or link, unless no source is known. */
  method BuildRule(g: Graph, imports: map<string, string>, db: Option<Db.TargetVars>, ev: Event,
                   ghost events: seq<Event>)
    returns (r: Option<CCRule>)
    requires g.Indexes(events)
    ensures IsRuleFor(events, db, imports, ev, r)
  {
    var srcs, copts, defines := GatherAll(g, db, ev, events);
    if srcs == [] {
      return None;
    }
    assert SourceOf(PartsOf(events, ev), srcs[0]);
    var deps := [];
    if ev.kind == Link {
      deps := ResolveDeps(g, imports, ev.libs, events);
    }
    r := Some(CCRule(
      if ev.kind == Link then CcBinary else CcLibrary,
      if ev.kind == Link then Base(ev.out) else LibraryName(ev.out),
      SortedUnique(srcs), SortedUnique(copts), SortedUnique(defines), SortedUnique(deps)));
  }

  predicate SortedByName(rules: seq<CCRule>) {
    forall i, j | 0 <= i < j < |rules| :: !Less(rules[j].name, rules[i].name)
  }

  /** One rule per event that has sources, in event order. */
  ghost predicate Lists(events: seq<Event>, db: Option<Db.TargetVars>, imports: map<string, string>,
                        evs: seq<Event>, rules: seq<CCRule>)
    decreases |evs|
  {
    if evs == [] then rules == []
    else
      var last := |evs| - 1;
      if exists s :: SourceOf(PartsOf(events, evs[last]), s) then
        rules != [] && Recovers(events, db, imports, evs[last], rules[|rules| - 1])
        && Lists(events, db, imports, evs[..last], rules[..|rules| - 1])
      else Lists(events, db, imports, evs[..last], rules)
  }

  method BuildAll(g: Graph, imports: map<string, string>, db: Option<Db.TargetVars>, evs: seq<Event>,
                  ghost events: seq<Event>)
    returns (rules: seq<CCRule>)
    requires g.Indexes(events)
    ensures Lists(events, db, imports, evs, rules)
  {
    rules := [];
    for i := 0 to |evs|
      invariant Lists(events, db, imports, evs[..i], rules)
    {
      PrefixStep(evs, i);
      var r := BuildRule(g, imports, db, evs[i], events);
      if r.Some? {
        Cut(rules, [r.value]);
        rules := rules + [r.value];
      }
    }
    WholePrefix(evs);
  }

  lemma NotLessTransitive(a: string, b: string, c: string)
    requires !Less(b, a) && (b == c || !Less(c, b))
    ensures !Less(c, a)
  {
    LessTotal(a, b);
    LessTotal(b, c);
    if Less(c, a) {
      LessAsymmetric(c, a);
      if a != b {
        LessTransitive(c, a, b);
      }
    }
  }

  /** Insertion keeps rules ordered by name and loses none. */
  function InsertRule(r: CCRule, rules: seq<CCRule>): (out: seq<CCRule>)
    requires SortedByName(rules)
    ensures SortedByName(out) && multiset(out) == multiset(rules) + multiset{r}
  {
    if rules == [] then [r]
    else
      assert rules == [rules[0]] + rules[1..];
      if !Less(rules[0].name, r.name) then
        assert forall i | 0 <= i < |rules| :: !Less(rules[i].name, r.name) by {
          forall i | 0 <= i < |rules| ensures !Less(rules[i].name, r.name) {
            NotLessTransitive(r.name, rules[0].name, rules[i].name);
          }
        }
        [r] + rules
      else
        var rest := InsertRule(r, rules[1..]);
        assert forall i | 0 <= i < |rest| :: !Less(rest[i].name, rules[0].name) by {
          LessAsymmetric(rules[0].name, r.name);
          forall i | 0 <= i < |rest| ensures !Less(rest[i].name, rules[0].name) {
            assert rest[i] in multiset(rest);
            assert rest[i] == r || rest[i] in rules[1..];
          }
        }
        [rules[0]] + rest
  }

  /** sort.Slice by name. */
  method SortRules(rules: seq<CCRule>) returns (out: seq<CCRule>)
    ensures SortedByName(out) && multiset(out) == multiset(rules)
  {
    out := [];
    for i := 0 to |rules|
      invariant SortedByName(out) && multiset(out) == multiset(rules[..i])
    {
      PrefixStep(rules, i);
      out := InsertRule(rules[i], out);
    }
    WholePrefix(rules);
  }

  /** `sorted` holds the rules of all events of one kind, ordered by name. */
  ghost predicate SortedRulesOf(events: seq<Event>, db: Option<Db.TargetVars>, imports: map<string, string>,
                                kind: Kind, sorted: seq<CCRule>)
  {
    && SortedByName(sorted)
    && exists rules :: Lists(events, db, imports, OfKind(events, kind), rules) && multiset(rules) == multiset(sorted)
  }

  /** buildRules: libraries sorted by name, then binaries sorted by name. */
  method BuildRules(g: Graph, imports: map<string, string>, db: Option<Db.TargetVars>, ghost events: seq<Event>)
    returns (rules: seq<CCRule>)
    requires g.Indexes(events)
    ensures exists k | 0 <= k <= |rules| ::
      && SortedRulesOf(events, db, imports, Archive, rules[..k])
      && SortedRulesOf(events, db, imports, Link, rules[k..])
  {
    var ls := BuildAll(g, imports, db, g.archives, events);
    var bs := BuildAll(g, imports, db, g.links, events);
    var libs := SortRules(ls);
    var bins := SortRules(bs);
    rules := libs + bins;
    Cut(libs, bins);
    assert SortedRulesOf(events, db, imports, Archive, rules[..|libs|]);
  }
}
