/**
 cmd/stage-b/main.go: merging converted outputs into project B and reporting what changed.
 Project B is a map from paths to bytes, updated in place.
 */
module StageB {
  import opened Options
  import opened Ordering
  import opened Sequences
  import opened Text

  /** What project A's build left for one element. */
  datatype Converted =
    | Split(members: map<string, string>)
    | Single(build: string, todos: Option<string>, flags: Option<string>, options: Option<string>)
    | NoOutput

  type Files = map<string, string>

  const OPTIONS_PATH := "options/BUILD.bazel"
  const BUILD_FILE := "BUILD.bazel"
  const TODOS_FILE := "conversion-todos.json"
  const FLAGS_FILE := "common_compile_flags.bzl"

  function ElementPath(name: string, rel: string): string {
    "elements/" + name + "/" + rel
  }

  /** A missing file reads as empty. */
  function Content(files: Files, path: string): string {
    if path in files then files[path] else ""
  }

  /** Directory names hold no slash and are pairwise distinct. */
  predicate DirectoryNames(names: seq<string>) {
    && (forall n | n in names :: '/' !in n)
    && forall i, j | 0 <= i < j < |names| :: names[i] != names[j]
  }

  /** The files whose difference counts: the BUILD file, or every member of a split tree. */
  function Compared(c: Converted): map<string, string> {
    match c
    case Split(members) => members
    case Single(build, _, _, _) => map[BUILD_FILE := build]
    case NoOutput => map[]
  }

  function OneFile(rel: string, body: Option<string>): map<string, string> {
    if body.Some? then map[rel := body.value] else map[]
  }

  /** The files that travel along without counting as a change. */
  function Sidecars(c: Converted): map<string, string> {
    match c
    case Single(_, todos, flags, _) => OneFile(TODOS_FILE, todos) + OneFile(FLAGS_FILE, flags)
    case _ => map[]
  }

  /** The element lifted options: its options file declares at least one flag. */
  predicate LiftsOptions(c: Converted) {
    c.Single? && c.options.Some? && Contains(c.options.value, "_flag(")
  }

  function OutputOf(a: map<string, Converted>, name: string): Converted {
    if name in a then a[name] else NoOutput
  }

  // ------------------------------------------------------------- what staging means

  predicate Same(before: Files, after: Files, path: string) {
    (path in before <==> path in after) && (path in before ==> before[path] == after[path])
  }

  /** A compared file is rewritten only when its content differs. */
  predicate Landed(before: Files, after: Files, path: string, body: string) {
    if Content(before, path) == body then Same(before, after, path) else path in after && after[path] == body
  }

  predicate Copied(after: Files, path: string, body: string) {
    path in after && after[path] == body
  }

  predicate TargetOf(c: Converted, name: string, path: string) {
    || (exists rel | rel in Compared(c) :: path == ElementPath(name, rel))
    || (exists rel | rel in Sidecars(c) :: path == ElementPath(name, rel))
  }

  /** All files of one element are in place. */
  ghost predicate ElementStaged(c: Converted, name: string, before: Files, after: Files) {
    && (forall rel | rel in Compared(c) :: Landed(before, after, ElementPath(name, rel), Compared(c)[rel]))
    && (forall rel | rel in Sidecars(c) :: Copied(after, ElementPath(name, rel), Sidecars(c)[rel]))
  }

  ghost predicate OthersSame(c: Converted, name: string, before: Files, after: Files) {
    forall path | !TargetOf(c, name, path) :: Same(before, after, path)
  }

  /** Some compared file of the element differs from what is staged. */
  ghost predicate Differs(c: Converted, name: string, before: Files) {
    exists rel | rel in Compared(c) :: Content(before, ElementPath(name, rel)) != Compared(c)[rel]
  }

  ghost predicate AnyTarget(a: map<string, Converted>, names: seq<string>, path: string) {
    exists n | n in names :: TargetOf(OutputOf(a, n), n, path)
  }

  /** The first element, in name order, that lifted options. */
  ghost predicate FirstLifter(a: map<string, Converted>, names: seq<string>, n: string) {
    && n in names && LiftsOptions(OutputOf(a, n))
    && forall m | m in names && LiftsOptions(OutputOf(a, m)) :: m == n || Less(n, m)
  }

  ghost predicate OptionsStaged(a: map<string, Converted>, names: seq<string>, before: Files, after: Files) {
    && (forall n | FirstLifter(a, names, n) :: Landed(before, after, OPTIONS_PATH, OutputOf(a, n).options.value))
    && ((forall n | n in names :: !LiftsOptions(OutputOf(a, n))) ==> Same(before, after, OPTIONS_PATH))
  }

  ghost predicate OptionsDiffer(a: map<string, Converted>, names: seq<string>, before: Files) {
    exists n :: FirstLifter(a, names, n) && Content(before, OPTIONS_PATH) != OutputOf(a, n).options.value
  }

  ghost predicate IsReported(a: map<string, Converted>, names: seq<string>, before: Files, x: string) {
    || (exists n | n in names :: x == "elements/" + n && Differs(OutputOf(a, n), n, before))
    || (x == "options" && OptionsDiffer(a, names, before))
  }

  /** What one run of the tool does to project B, and what it reports. */
  ghost predicate IsRun(a: map<string, Converted>, names: seq<string>, before: Files, after: Files,
                        changed: seq<string>)
  {
    && (forall n | n in names :: ElementStaged(OutputOf(a, n), n, before, after))
    && OptionsStaged(a, names, before, after)
    && (forall path | path != OPTIONS_PATH && !AnyTarget(a, names, path) :: Same(before, after, path))
    && StrictlySorted(changed)
    && (forall x :: x in changed <==> IsReported(a, names, before, x))
  }

  // ------------------------------------------------------------- paths

  /** Paths of different elements, or of different files of one element, differ. */
  lemma PathsDiffer(n: string, rel: string, n': string, rel': string)
    requires '/' !in n && '/' !in n' && ElementPath(n, rel) == ElementPath(n', rel')
    ensures n == n' && rel == rel'
  {
    var p := ElementPath(n, rel)[9..];
    assert p == n + "/" + rel && p == n' + "/" + rel';
    FoundAfter(n, "/", rel);
    FoundAfter(n', "/", rel');
    assert p[..|n|] == n && p[..|n'|] == n';
    assert p[|n| + 1..] == rel && p[|n'| + 1..] == rel';
  }

  lemma TargetsDiffer(c: Converted, n: string, c': Converted, n': string, path: string)
    requires '/' !in n && '/' !in n' && TargetOf(c, n, path) && TargetOf(c', n', path)
    ensures n == n'
  {
    var rel :| path == ElementPath(n, rel);
    var rel' :| path == ElementPath(n', rel');
    PathsDiffer(n, rel, n', rel');
  }

  lemma OptionsIsNoTarget(c: Converted, n: string)
    ensures !TargetOf(c, n, OPTIONS_PATH)
  {
    forall rel
      ensures ElementPath(n, rel) != OPTIONS_PATH
    {
      assert ElementPath(n, rel)[0] == 'e' && OPTIONS_PATH[0] == 'o';
    }
  }

  // ------------------------------------------------------------- project B

  ghost predicate Reached(name: string, rels: seq<string>, i: nat, path: string)
    requires i <= |rels|
  {
    exists k | 0 <= k < i :: path == ElementPath(name, rels[k])
  }

  /** Progress of stageSplitDir: the first `i` members have been compared and staged. */
  ghost predicate MembersStaged(members: map<string, string>, name: string, rels: seq<string>, i: nat,
                                before: Files, now: Files, changed: bool)
    requires i <= |rels| && forall k | 0 <= k < |rels| :: rels[k] in members
  {
    && (forall k | 0 <= k < i :: Landed(before, now, ElementPath(name, rels[k]), members[rels[k]]))
    && (forall path | !Reached(name, rels, i, path) :: Same(before, now, path))
    && (changed <==> exists k | 0 <= k < i :: Content(before, ElementPath(name, rels[k])) != members[rels[k]])
  }

  lemma MemberStep(members: map<string, string>, name: string, rels: seq<string>, i: nat, before: Files,
                   now: Files, changed: bool)
    requires '/' !in name && i < |rels| && forall k | 0 <= k < |rels| :: rels[k] in members
    requires forall j, k | 0 <= j < k < |rels| :: rels[j] != rels[k]
    requires MembersStaged(members, name, rels, i, before, now, changed)
    ensures var path := ElementPath(name, rels[i]);
      var differs := Content(now, path) != members[rels[i]];
      MembersStaged(members, name, rels, i + 1, before,
                    if differs then now[path := members[rels[i]]] else now, changed || differs)
  {
    var path := ElementPath(name, rels[i]);
    forall k | 0 <= k < i
      ensures ElementPath(name, rels[k]) != path
    {
      if ElementPath(name, rels[k]) == path {
        PathsDiffer(name, rels[k], name, rels[i]);
      }
    }
    assert !Reached(name, rels, i, path);
    assert Same(before, now, path);
    var body := members[rels[i]];
    var next := if Content(now, path) != body then now[path := body] else now;
    assert Landed(before, next, path, body);
    forall p | !Reached(name, rels, i + 1, p)
      ensures Same(before, next, p)
    {
      assert path == ElementPath(name, rels[i]) && !Reached(name, rels, i, p);
    }
    assert Content(before, path) == Content(now, path);
  }

  function With(files: Files, path: string, body: Option<string>): Files {
    if body.Some? then files[path := body.value] else files
  }

  lemma ThreePaths(name: string)
    ensures ElementPath(name, BUILD_FILE) != ElementPath(name, TODOS_FILE)
    ensures ElementPath(name, BUILD_FILE) != ElementPath(name, FLAGS_FILE)
    ensures ElementPath(name, TODOS_FILE) != ElementPath(name, FLAGS_FILE)
  {
    var at := |"elements/" + name + "/"|;
    assert ElementPath(name, BUILD_FILE)[at] == 'B';
    assert ElementPath(name, TODOS_FILE)[at + 2] == 'n';
    assert ElementPath(name, FLAGS_FILE)[at + 2] == 'm';
    assert ElementPath(name, FLAGS_FILE)[at] == 'c' && ElementPath(name, TODOS_FILE)[at] == 'c';
  }

  /** The files after a single BUILD file and its sidecars have been staged. */
  ghost predicate SingleWritten(c: Converted, name: string, before: Files, after: Files)
    requires c.Single?
  {
    var sidecars := With(With(before, ElementPath(name, TODOS_FILE), c.todos), ElementPath(name, FLAGS_FILE), c.flags);
    var path := ElementPath(name, BUILD_FILE);
    after == if Content(sidecars, path) != c.build then sidecars[path := c.build] else sidecars
  }

  lemma SingleLanded(c: Converted, name: string, before: Files, after: Files)
    requires c.Single? && SingleWritten(c, name, before, after)
    ensures ElementStaged(c, name, before, after)
  {
    ThreePaths(name);
    hide ElementPath;
  }

  lemma SingleKeepsOthers(c: Converted, name: string, before: Files, after: Files)
    requires c.Single? && SingleWritten(c, name, before, after)
    ensures OthersSame(c, name, before, after)
  {
    hide ElementPath;
    assert BUILD_FILE in Compared(c);
    assert c.todos.Some? ==> TODOS_FILE in Sidecars(c);
    assert c.flags.Some? ==> FLAGS_FILE in Sidecars(c);
  }

  lemma SingleDiffers(c: Converted, name: string, before: Files)
    requires c.Single?
    ensures Differs(c, name, before) <==>
      Content(With(With(before, ElementPath(name, TODOS_FILE), c.todos), ElementPath(name, FLAGS_FILE), c.flags),
              ElementPath(name, BUILD_FILE)) != c.build
  {
    ThreePaths(name);
    hide ElementPath;
    assert BUILD_FILE in Compared(c);
  }

  lemma SingleStaged(c: Converted, name: string, before: Files, after: Files)
    requires c.Single? && SingleWritten(c, name, before, after)
    ensures ElementStaged(c, name, before, after) && OthersSame(c, name, before, after)
    ensures Differs(c, name, before) <==>
      Content(With(With(before, ElementPath(name, TODOS_FILE), c.todos), ElementPath(name, FLAGS_FILE), c.flags),
              ElementPath(name, BUILD_FILE)) != c.build
  {
    SingleLanded(c, name, before, after);
    SingleKeepsOthers(c, name, before, after);
    SingleDiffers(c, name, before);
  }

  lemma SortedDistinct(s: seq<string>)
    requires StrictlySorted(s)
    ensures forall i, j | 0 <= i < j < |s| :: s[i] != s[j]
  {
    forall i, j | 0 <= i < j < |s|
      ensures s[i] != s[j]
    {
      LessIrreflexive(s[i]);
    }
  }

  lemma FirstIsLeast(s: seq<string>)
    requires StrictlySorted(s) && s != []
    ensures forall x | x in s :: x == s[0] || Less(s[0], x)
  {
  }

  class ProjectB {
    var files: Files

    constructor (files: Files)
      ensures this.files == files
    {
      this.files := files;
    }

    /** Write one file if its content differs. */
    method Stage(path: string, body: string) returns (changed: bool)
      modifies this
      ensures changed <==> Content(old(files), path) != body
      ensures files == if changed then old(files)[path := body] else old(files)
    {
      changed := Content(files, path) != body;
      if changed {
        files := files[path := body];
      }
    }

    /** stageSidecar: unlike a BUILD file, a missing sidecar is written even when empty. */
    method StageSidecar(path: string, body: Option<string>)
      modifies this
      ensures files == With(old(files), path, body)
    {
      if body.None? {
        return;
      }
      if path in files && files[path] == body.value {
        return;
      }
      files := files[path := body.value];
    }

    /** stageSplitDir */
    method StageSplitDir(name: string, members: map<string, string>) returns (changed: bool)
      requires '/' !in name
      modifies this
      ensures ElementStaged(Split(members), name, old(files), files)
      ensures OthersSame(Split(members), name, old(files), files)
      ensures changed <==> Differs(Split(members), name, old(files))
    {
      hide ElementPath;
      ghost var before := files;
      var rels := SortedKeys(members.Keys);
      SortedDistinct(rels);
      changed := false;
      assert forall k | 0 <= k < |rels| :: rels[k] in rels;
      for i := 0 to |rels|
        invariant MembersStaged(members, name, rels, i, before, files, changed)
      {
        ghost var now, soFar := files, changed;
        var differs := Stage(ElementPath(name, rels[i]), members[rels[i]]);
        changed := changed || differs;
        MemberStep(members, name, rels, i, before, now, soFar);
      }
      forall rel | rel in members
        ensures Landed(before, files, ElementPath(name, rel), members[rel])
      {
        assert rel in rels;
      }
    }

    /** One turn of run's loop over the elements. */
    method StageElement(name: string, c: Converted) returns (changed: bool)
      requires '/' !in name
      modifies this
      ensures ElementStaged(c, name, old(files), files)
      ensures OthersSame(c, name, old(files), files)
      ensures changed <==> Differs(c, name, old(files))
    {
      match c
      case Split(members) => changed := StageSplitDir(name, members);
      case NoOutput => changed := false;
      case Single(build, todos, flags, options) =>
        ghost var before := files;
        StageSidecar(ElementPath(name, TODOS_FILE), todos);
        StageSidecar(ElementPath(name, FLAGS_FILE), flags);
        changed := Stage(ElementPath(name, BUILD_FILE), build);
        SingleStaged(c, name, before, files);
    }

    /** stageOptionsPackage: the first lifter's package wins. */
    method StageOptionsPackage(a: map<string, Converted>, names: seq<string>, lifters: set<string>)
      returns (changed: bool)
      requires forall n :: n in lifters <==> n in names && LiftsOptions(OutputOf(a, n))
      modifies this
      ensures OptionsStaged(a, names, old(files), files)
      ensures forall path | path != OPTIONS_PATH :: Same(old(files), files, path)
      ensures changed <==> OptionsDiffer(a, names, old(files))
    {
      if lifters == {} {
        return false;
      }
      var sorted := SortedKeys(lifters);
      assert sorted != [] by {
        var n :| n in lifters;
        assert n in sorted;
      }
      var first := sorted[0];
      assert first in sorted;
      FirstIsLeast(sorted);
      assert FirstLifter(a, names, first);
      assert forall n | FirstLifter(a, names, n) :: n == first by {
        forall n | FirstLifter(a, names, n)
          ensures n == first
        {
          if n != first {
            LessAsymmetric(n, first);
          }
        }
      }
      changed := Stage(OPTIONS_PATH, a[first].options.value);
    }
  }

  // ------------------------------------------------------------- run

  /** Progress of the loop over the elements. */
  ghost predicate StagedSoFar(a: map<string, Converted>, done: seq<string>, before: Files, now: Files) {
    && (forall n | n in done :: ElementStaged(OutputOf(a, n), n, before, now))
    && forall path | !AnyTarget(a, done, path) :: Same(before, now, path)
  }

  /** An element not yet staged finds its files as they were. */
  lemma ElementStillOld(a: map<string, Converted>, names: seq<string>, i: nat, before: Files, now: Files, path: string)
    requires DirectoryNames(names) && i < |names| && StagedSoFar(a, names[..i], before, now)
    requires TargetOf(OutputOf(a, names[i]), names[i], path)
    ensures Same(before, now, path)
  {
    if AnyTarget(a, names[..i], path) {
      var n :| n in names[..i] && TargetOf(OutputOf(a, n), n, path);
      TargetsDiffer(OutputOf(a, n), n, OutputOf(a, names[i]), names[i], path);
    }
  }

  lemma EarlierStays(a: map<string, Converted>, names: seq<string>, i: nat, n: string, before: Files, now: Files,
                     next: Files)
    requires DirectoryNames(names) && i < |names| && n in names[..i]
    requires ElementStaged(OutputOf(a, n), n, before, now)
    requires OthersSame(OutputOf(a, names[i]), names[i], now, next)
    ensures ElementStaged(OutputOf(a, n), n, before, next)
  {
    var c := OutputOf(a, n);
    forall path | TargetOf(c, n, path)
      ensures Same(now, next, path)
    {
      if TargetOf(OutputOf(a, names[i]), names[i], path) {
        TargetsDiffer(c, n, OutputOf(a, names[i]), names[i], path);
      }
    }
    assert forall rel | rel in Compared(c) :: TargetOf(c, n, ElementPath(n, rel));
    assert forall rel | rel in Sidecars(c) :: TargetOf(c, n, ElementPath(n, rel));
  }

  lemma ElementStep(a: map<string, Converted>, names: seq<string>, i: nat, before: Files, now: Files, next: Files)
    requires DirectoryNames(names) && i < |names| && StagedSoFar(a, names[..i], before, now)
    requires ElementStaged(OutputOf(a, names[i]), names[i], now, next)
    requires OthersSame(OutputOf(a, names[i]), names[i], now, next)
    ensures StagedSoFar(a, names[..i + 1], before, next)
    ensures Differs(OutputOf(a, names[i]), names[i], now) <==> Differs(OutputOf(a, names[i]), names[i], before)
  {
    var name, c := names[i], OutputOf(a, names[i]);
    PrefixStep(names, i);
    forall rel | rel in Compared(c)
      ensures Same(before, now, ElementPath(name, rel))
    {
      ElementStillOld(a, names, i, before, now, ElementPath(name, rel));
    }
    assert ElementStaged(c, name, before, next);
    forall n | n in names[..i]
      ensures ElementStaged(OutputOf(a, n), n, before, next)
    {
      EarlierStays(a, names, i, n, before, now, next);
    }
    forall path | !AnyTarget(a, names[..i + 1], path)
      ensures Same(before, next, path)
    {
      assert names[i] in names[..i + 1];
      assert !AnyTarget(a, names[..i], path);
    }
  }

  ghost predicate ElementReported(a: map<string, Converted>, names: seq<string>, before: Files, x: string) {
    exists n | n in names :: x == "elements/" + n && Differs(OutputOf(a, n), n, before)
  }

  lemma OptionsUntouched(a: map<string, Converted>, names: seq<string>, before: Files, staged: Files)
    requires StagedSoFar(a, names, before, staged)
    ensures Same(before, staged, OPTIONS_PATH)
  {
    forall n | n in names
      ensures !TargetOf(OutputOf(a, n), n, OPTIONS_PATH)
    {
      OptionsIsNoTarget(OutputOf(a, n), n);
    }
    assert !AnyTarget(a, names, OPTIONS_PATH);
  }

  lemma ElementUntouched(c: Converted, n: string, before: Files, staged: Files, after: Files)
    requires ElementStaged(c, n, before, staged)
    requires forall path | path != OPTIONS_PATH :: Same(staged, after, path)
    ensures ElementStaged(c, n, before, after)
  {
    OptionsIsNoTarget(c, n);
    forall rel | rel in Compared(c) || rel in Sidecars(c)
      ensures Same(staged, after, ElementPath(n, rel))
    {
      assert TargetOf(c, n, ElementPath(n, rel));
    }
  }

  /** The options package does not interfere with the elements. */
  lemma OptionsLast(a: map<string, Converted>, names: seq<string>, before: Files, staged: Files, after: Files)
    requires StagedSoFar(a, names, before, staged) && OptionsStaged(a, names, staged, after)
    requires forall path | path != OPTIONS_PATH :: Same(staged, after, path)
    ensures forall n | n in names :: ElementStaged(OutputOf(a, n), n, before, after)
    ensures OptionsStaged(a, names, before, after)
    ensures OptionsDiffer(a, names, staged) <==> OptionsDiffer(a, names, before)
    ensures forall path | path != OPTIONS_PATH && !AnyTarget(a, names, path) :: Same(before, after, path)
  {
    OptionsUntouched(a, names, before, staged);
    forall n | n in names
      ensures ElementStaged(OutputOf(a, n), n, before, after)
    {
      ElementUntouched(OutputOf(a, n), n, before, staged, after);
    }
    forall path | path != OPTIONS_PATH && !AnyTarget(a, names, path)
      ensures Same(before, after, path)
    {
      assert Same(before, staged, path) && Same(staged, after, path);
    }
  }

  ghost predicate LiftersAre(a: map<string, Converted>, done: seq<string>, lifters: set<string>) {
    forall n :: n in lifters <==> n in done && LiftsOptions(OutputOf(a, n))
  }

  ghost predicate ReportedAre(a: map<string, Converted>, done: seq<string>, before: Files, reported: seq<string>) {
    forall x :: x in reported <==> ElementReported(a, done, before, x)
  }

  /** What the run has done after the first elements. */
  ghost predicate Progress(a: map<string, Converted>, done: seq<string>, before: Files, now: Files,
                           lifters: set<string>, reported: seq<string>)
  {
    StagedSoFar(a, done, before, now) && LiftersAre(a, done, lifters) && ReportedAre(a, done, before, reported)
  }

  lemma NoProgress(a: map<string, Converted>, names: seq<string>, files: Files)
    ensures Progress(a, names[..0], files, files, {}, [])
  {
  }

  lemma ReportStep(a: map<string, Converted>, names: seq<string>, i: nat, before: Files, reported: seq<string>, ch: bool)
    requires i < |names| && ReportedAre(a, names[..i], before, reported)
    requires ch <==> Differs(OutputOf(a, names[i]), names[i], before)
    ensures ReportedAre(a, names[..i + 1], before, if ch then reported + ["elements/" + names[i]] else reported)
  {
    hide Differs, OutputOf;
    PrefixStep(names, i);
  }

  lemma ProgressStep(a: map<string, Converted>, names: seq<string>, i: nat, before: Files, now: Files, next: Files,
                     lifters: set<string>, reported: seq<string>, ch: bool)
    requires DirectoryNames(names) && i < |names| && Progress(a, names[..i], before, now, lifters, reported)
    requires ElementStaged(OutputOf(a, names[i]), names[i], now, next)
    requires OthersSame(OutputOf(a, names[i]), names[i], now, next)
    requires ch <==> Differs(OutputOf(a, names[i]), names[i], now)
    ensures Progress(a, names[..i + 1], before, next,
                     if LiftsOptions(OutputOf(a, names[i])) then lifters + {names[i]} else lifters,
                     if ch then reported + ["elements/" + names[i]] else reported)
  {
    hide ElementStaged, OthersSame, Differs, StagedSoFar, ReportedAre;
    ElementStep(a, names, i, before, now, next);
    ReportStep(a, names, i, before, reported, ch);
    PrefixStep(names, i);
  }

  lemma ProgressEnds(a: map<string, Converted>, names: seq<string>, before: Files, staged: Files, after: Files,
                     lifters: set<string>, reported: seq<string>, ch: bool)
    requires Progress(a, names, before, staged, lifters, reported)
    requires OptionsStaged(a, names, staged, after) && (ch <==> OptionsDiffer(a, names, staged))
    requires forall path | path != OPTIONS_PATH :: Same(staged, after, path)
    ensures IsRun(a, names, before, after, SortedUnique(if ch then reported + ["options"] else reported))
  {
    OptionsLast(a, names, before, staged, after);
  }

  /** run; `names` are the directories under project B's elements/. */
  method Run(a: map<string, Converted>, b: ProjectB, names: seq<string>) returns (changed: seq<string>)
    requires DirectoryNames(names)
    modifies b
    ensures IsRun(a, names, old(b.files), b.files, changed)
  {
    hide IsRun, StagedSoFar, ReportedAre, ElementStaged, OthersSame, Differs, OptionsStaged, OptionsDiffer, Same;
    ghost var before := b.files;
    var lifters: set<string> := {};
    var reported: seq<string> := [];
    NoProgress(a, names, before);
    for i := 0 to |names|
      invariant Progress(a, names[..i], before, b.files, lifters, reported)
    {
      ghost var now, lifted, soFar := b.files, lifters, reported;
      var c := OutputOf(a, names[i]);
      assert names[i] in names;
      if LiftsOptions(c) {
        lifters := lifters + {names[i]};
      }
      var ch := b.StageElement(names[i], c);
      if ch {
        reported := reported + ["elements/" + names[i]];
      }
      ProgressStep(a, names, i, before, now, b.files, lifted, soFar, ch);
    }
    WholePrefix(names);
    ghost var staged, elements := b.files, reported;
    var ch := b.StageOptionsPackage(a, names, lifters);
    if ch {
      reported := reported + ["options"];
    }
    ProgressEnds(a, names, before, staged, b.files, lifters, elements, ch);
    changed := SortedUnique(reported);
  }

  // ------------------------------------------------------------- main results

  /** After a run every staged file reads as its source. */
  lemma StagedEqualsSource(a: map<string, Converted>, names: seq<string>, before: Files, after: Files,
                           changed: seq<string>, n: string, rel: string)
    requires IsRun(a, names, before, after, changed) && n in names
    ensures rel in Compared(OutputOf(a, n)) ==>
      Content(after, ElementPath(n, rel)) == Compared(OutputOf(a, n))[rel]
    ensures rel in Sidecars(OutputOf(a, n)) ==>
      Content(after, ElementPath(n, rel)) == Sidecars(OutputOf(a, n))[rel]
  {
    assert ElementStaged(OutputOf(a, n), n, before, after);
  }

  lemma EmptyOrMember(s: seq<string>)
    ensures s == [] || exists x :: x in s
  {
    assert s != [] ==> s[0] in s;
  }

  ghost function LiftersOf(a: map<string, Converted>, names: seq<string>): (r: seq<string>)
    ensures forall n :: n in r <==> n in names && LiftsOptions(OutputOf(a, n))
  {
    if names == [] then []
    else
      assert names == [names[0]] + names[1..];
      (if LiftsOptions(OutputOf(a, names[0])) then [names[0]] else []) + LiftersOf(a, names[1..])
  }

  lemma {:induction false} SomeoneIsFirst(a: map<string, Converted>, names: seq<string>, n: string)
    requires n in names && LiftsOptions(OutputOf(a, n))
    ensures exists m :: FirstLifter(a, names, m)
  {
    var lifters := SortedUnique(LiftersOf(a, names));
    FirstIsLeast(lifters);
    assert n in lifters;
    assert lifters[0] in lifters;
    assert FirstLifter(a, names, lifters[0]);
  }

  lemma FileKept(a: map<string, Converted>, names: seq<string>, before: Files, after: Files,
                 changed: seq<string>, after': Files, changed': seq<string>, path: string)
    requires IsRun(a, names, before, after, changed) && IsRun(a, names, after, after', changed')
    ensures Same(after, after', path)
  {
    if path == OPTIONS_PATH {
      if n :| n in names && LiftsOptions(OutputOf(a, n)) {
        SomeoneIsFirst(a, names, n);
        var m :| FirstLifter(a, names, m);
        assert Content(after, OPTIONS_PATH) == OutputOf(a, m).options.value;
      }
    } else if AnyTarget(a, names, path) {
      var n :| n in names && TargetOf(OutputOf(a, n), n, path);
      var c := OutputOf(a, n);
      assert ElementStaged(c, n, before, after) && ElementStaged(c, n, after, after');
      if rel :| rel in Compared(c) && path == ElementPath(n, rel) {
        StagedEqualsSource(a, names, before, after, changed, n, rel);
      }
    }
  }

  lemma SameFiles(a: Files, b: Files)
    requires forall path :: Same(a, b, path)
    ensures a == b
  {
    assert a.Keys == b.Keys by {
      forall p
        ensures p in a.Keys <==> p in b.Keys
      {
        assert Same(a, b, p);
      }
    }
    forall p | p in a
      ensures a[p] == b[p]
    {
      assert Same(a, b, p);
    }
  }

  /** An immediate second run reports nothing and leaves every file as it is. */
  lemma SecondRunIsQuiet(a: map<string, Converted>, names: seq<string>, before: Files, after: Files,
                         changed: seq<string>, after': Files, changed': seq<string>)
    requires IsRun(a, names, before, after, changed) && IsRun(a, names, after, after', changed')
    ensures changed' == [] && after' == after
  {
    forall n | n in names
      ensures !Differs(OutputOf(a, n), n, after)
    {
      forall rel | rel in Compared(OutputOf(a, n))
        ensures Content(after, ElementPath(n, rel)) == Compared(OutputOf(a, n))[rel]
      {
        StagedEqualsSource(a, names, before, after, changed, n, rel);
      }
    }
    assert forall n | FirstLifter(a, names, n) :: Content(after, OPTIONS_PATH) == OutputOf(a, n).options.value;
    assert forall x :: !IsReported(a, names, after, x);
    EmptyOrMember(changed');
    forall path
      ensures Same(after, after', path)
    {
      FileKept(a, names, before, after, changed, after', changed', path);
    }
    SameFiles(after, after');
  }

  /** The files of one element after a run: its BUILD file and sidecars, or every member of its split tree. */
  lemma {:induction false} ElementFiles(a: map<string, Converted>, names: seq<string>, before: Files, after: Files,
                                       changed: seq<string>, n: string)
    requires IsRun(a, names, before, after, changed) && n in names && n in a
    ensures match a[n]
      case Single(build, todos, flags, _) =>
        var dir := "elements/" + n + "/";
        && Content(after, dir + "BUILD.bazel") == build
        && (todos.Some? ==> dir + "conversion-todos.json" in after && after[dir + "conversion-todos.json"] == todos.value)
        && (flags.Some? ==>
             dir + "common_compile_flags.bzl" in after && after[dir + "common_compile_flags.bzl"] == flags.value)
        && ("elements/" + n in changed <== Content(before, dir + "BUILD.bazel") != build)
      case Split(members) => forall rel | rel in members :: Content(after, "elements/" + n + "/" + rel) == members[rel]
      case NoOutput => true
  {
    var c := OutputOf(a, n);
    assert ElementStaged(c, n, before, after);
    match a[n]
    case Single(build, todos, flags, _) =>
      SidecarsAre(c);
      assert BUILD_FILE in Compared(c) && ElementPath(n, BUILD_FILE) == "elements/" + n + "/" + "BUILD.bazel";
      if todos.Some? {
        assert Copied(after, ElementPath(n, TODOS_FILE), Sidecars(c)[TODOS_FILE]);
      }
      if flags.Some? {
        assert Copied(after, ElementPath(n, FLAGS_FILE), Sidecars(c)[FLAGS_FILE]);
      }
      if Content(before, ElementPath(n, BUILD_FILE)) != build {
        assert Differs(c, n, before);
        assert IsReported(a, names, before, "elements/" + n);
      }
    case Split(members) =>
      assert forall rel | rel in members :: rel in Compared(c);
    case NoOutput =>
  }

  lemma SidecarsAre(c: Converted)
    requires c.Single?
    ensures c.todos.Some? ==> TODOS_FILE in Sidecars(c) && Sidecars(c)[TODOS_FILE] == c.todos.value
    ensures c.flags.Some? ==> FLAGS_FILE in Sidecars(c) && Sidecars(c)[FLAGS_FILE] == c.flags.value
  {
    assert TODOS_FILE[3] != FLAGS_FILE[3];
  }

  /** The element's options file declares a flag. */
  ghost predicate Lifts(a: map<string, Converted>, n: string) {
    n in a && a[n].Single? && a[n].options.Some? && Contains(a[n].options.value, "_flag(")
  }

  /** The options package is that of the first element by name that declares a flag; with none it stays as it was. */
  lemma OptionsFile(a: map<string, Converted>, names: seq<string>, before: Files, after: Files, changed: seq<string>)
    requires IsRun(a, names, before, after, changed)
    ensures forall n | n in names && Lifts(a, n) && forall m | m in names && Lifts(a, m) :: m == n || Less(n, m) ::
      Content(after, "options/BUILD.bazel") == a[n].options.value
    ensures (forall n | n in names :: !Lifts(a, n)) ==> Same(before, after, "options/BUILD.bazel")
  {
    forall n
      ensures LiftsOptions(OutputOf(a, n)) <==> Lifts(a, n)
    {
    }
    forall n | n in names && Lifts(a, n) && forall m | m in names && Lifts(a, m) :: m == n || Less(n, m)
      ensures Content(after, OPTIONS_PATH) == a[n].options.value
    {
      assert FirstLifter(a, names, n);
    }
  }
}
