/**
 cmd/finalize-b/main.go: stripping the conversion scaffolding from a converged project, on
 abstract syntax trees.  Parsing and formatting BUILD files are parameters.
 */
module Finalize {
  import opened Options
  import opened Ordering
  import opened Paths
  import opened Sequences
  import opened Text

  datatype Import = Import(to: string, from: string)

  datatype Expr =
    | Ident(name: string)
    | Str(value: string)
    | ListOf(items: seq<Expr>)
    | Assign(lhs: Expr, rhs: Expr)
    | Call(fn: Expr, args: seq<Expr>)
    | Load(file: string, imports: seq<Import>)
    | Node(children: seq<Expr>)

  /** The BUILD-file library: a parser that may refuse, and a formatter. */
  datatype Syntax = Syntax(parse: string -> Option<seq<Expr>>, format: seq<Expr> -> string)

  /** Formatted files parse back to the same statements. */
  ghost predicate Faithful(sx: Syntax) {
    forall stmts :: sx.parse(sx.format(stmts)) == Some(stmts)
  }

  const FINE_RULES: set<string> := {"cc_library", "cc_binary", "cc_import", "cc_test"}
  const RULES_PACKAGE := "rules_buildstream_bazel"
  const RULES_LABEL := "@rules_buildstream_bazel//"
  const BUILD_FILE := "BUILD.bazel"
  const MODULE_FILE := "MODULE.bazel"

  // ------------------------------------------------------------- reading a call

  /** callIdent, with the empty name for a callee that is no identifier. */
  function CallIdent(e: Expr): string {
    if e.Call? && e.fn.Ident? then e.fn.name else ""
  }

  function StringAttrOf(args: seq<Expr>, attr: string): string {
    if args == [] then ""
    else if args[0].Assign? && args[0].lhs == Ident(attr) && args[0].rhs.Str? then args[0].rhs.value
    else StringAttrOf(args[1..], attr)
  }

  function StringAttr(call: Expr, attr: string): string
    requires call.Call?
  {
    StringAttrOf(call.args, attr)
  }

  /** hasStringInListAttr */
  predicate HasStringInListAttr(call: Expr, attr: string, needle: string)
    requires call.Call?
  {
    exists i | 0 <= i < |call.args| ::
      call.args[i].Assign? && call.args[i].lhs == Ident(attr) && call.args[i].rhs.ListOf?
      && Str(needle) in call.args[i].rhs.items
  }

  predicate HasTag(call: Expr, tag: string)
    requires call.Call?
  {
    HasStringInListAttr(call, "tags", tag)
  }

  /** A converted rule: a cc rule that is not a fallback stub. */
  predicate IsFine(stmt: Expr) {
    && stmt.Call? && CallIdent(stmt) in FINE_RULES
    && !HasTag(stmt, "cmake-codegen-target-fallback") && !HasTag(stmt, "meson-codegen-target-fallback")
  }

  predicate Converged(stmts: seq<Expr>) {
    exists i | 0 <= i < |stmts| :: IsFine(stmts[i])
  }

  /** elemInstallName, with a name no target has at the top level. */
  function ElemInstallName(rel: string): string {
    var base := Base(Dir(rel));
    if base == "." || base == "/" || base == "" then "\0" else base + "_install"
  }

  /** The name is made from the directory that holds the BUILD file. */
  lemma InstallNameOf(parent: string, elem: string)
    requires elem != "" && elem != "." && '/' !in elem
    ensures ElemInstallName(parent + "/" + elem + "/" + BUILD_FILE) == elem + "_install"
  {
    DirOfFile(parent + "/" + elem, BUILD_FILE);
    BaseOfFile(parent, elem);
    assert elem != "/" by {
      assert elem[0] in elem;
    }
  }

  predicate IsScaffolding(stmt: Expr, rel: string) {
    stmt.Call? &&
    ( || CallIdent(stmt) == "trace_load" || CallIdent(stmt) == "zero_files"
      || HasTag(stmt, "trace_build")
      || (CallIdent(stmt) == "filegroup" && StringAttr(stmt, "name") in
          {"install_tree.tar", "cmake_config_bundle", "pkg_config_bundle", "build_bazel", ElemInstallName(rel)})
      || HasTag(stmt, "cmake-codegen-execute-process-fallback-extract")
      || HasTag(stmt, "meson-codegen-target-fallback-extract"))
  }

  // ------------------------------------------------------------- calls in a statement

  function Called(e: Expr): set<string> {
    match e
    case Ident(_) => {}
    case Str(_) => {}
    case ListOf(items) => CalledAll(items)
    case Assign(l, r) => Called(l) + Called(r)
    case Call(f, args) => (if f.Ident? then {f.name} else {}) + Called(f) + CalledAll(args)
    case Load(_, _) => {}
    case Node(children) => CalledAll(children)
  }

  function CalledAll(es: seq<Expr>): set<string> {
    if es == [] then {} else Called(es[0]) + CalledAll(es[1..])
  }

  lemma {:induction false} CalledAllIs(es: seq<Expr>, name: string)
    ensures name in CalledAll(es) <==> exists e | e in es :: name in Called(e)
  {
    if es != [] {
      CalledAllIs(es[1..], name);
      assert es[0] in es;
      if e :| e in es && name in Called(e) && e != es[0] {
        assert es == [es[0]] + es[1..];
        assert e in es[1..];
      }
    }
  }

  // ------------------------------------------------------------- the two rewrites

  function Stripped(stmts: seq<Expr>, rel: string): (r: seq<Expr>)
    ensures forall e :: e in r <==> e in stmts && !IsScaffolding(e, rel)
  {
    if stmts == [] then []
    else
      var last := |stmts| - 1;
      assert stmts == stmts[..last] + [stmts[last]];
      Stripped(stmts[..last], rel) + if IsScaffolding(stmts[last], rel) then [] else [stmts[last]]
  }

  function UsedImports(imports: seq<Import>, called: set<string>): (r: seq<Import>)
    ensures forall m :: m in r <==> m in imports && m.to in called
  {
    if imports == [] then []
    else
      var last := |imports| - 1;
      assert imports == imports[..last] + [imports[last]];
      UsedImports(imports[..last], called) + if imports[last].to in called then [imports[last]] else []
  }

  /** What pruning leaves of one statement: nothing of a load without a used name. */
  function PrunedOne(stmt: Expr, called: set<string>): seq<Expr> {
    if !stmt.Load? then [stmt]
    else if UsedImports(stmt.imports, called) == [] then []
    else [Load(stmt.file, UsedImports(stmt.imports, called))]
  }

  function Pruned(stmts: seq<Expr>, called: set<string>): seq<Expr> {
    if stmts == [] then []
    else Pruned(stmts[..|stmts| - 1], called) + PrunedOne(stmts[|stmts| - 1], called)
  }

  function CleanStatements(stmts: seq<Expr>, rel: string): seq<Expr> {
    Pruned(Stripped(stmts, rel), CalledAll(Stripped(stmts, rel)))
  }

  /** Files that do not parse, and files without a converted rule, are left alone. */
  function CleanBuild(sx: Syntax, body: string, rel: string): string {
    var f := sx.parse(body);
    if f.None? || !Converged(f.value) then body else sx.format(CleanStatements(f.value, rel))
  }

  /** The loop that looks for a converted rule. */
  method HasFineCC(stmts: seq<Expr>) returns (hasFineCC: bool)
    ensures hasFineCC <==> Converged(stmts)
  {
    hasFineCC := false;
    for i := 0 to |stmts|
      invariant hasFineCC <==> exists k | 0 <= k < i :: IsFine(stmts[k])
    {
      if stmts[i].Call? && CallIdent(stmts[i]) in FINE_RULES {
        if !(HasTag(stmts[i], "cmake-codegen-target-fallback") || HasTag(stmts[i], "meson-codegen-target-fallback")) {
          hasFineCC := true;
        }
      }
    }
  }

  /** The strip loop of cleanupBuild. */
  method StripScaffolding(stmts: seq<Expr>, rel: string) returns (stripped: seq<Expr>)
    ensures stripped == Stripped(stmts, rel)
  {
    stripped := [];
    for i := 0 to |stmts|
      invariant stripped == Stripped(stmts[..i], rel)
    {
      PrefixStep(stmts, i);
      if !IsScaffolding(stmts[i], rel) {
        stripped := stripped + [stmts[i]];
      }
    }
    WholePrefix(stmts);
  }

  method KeepUsed(imports: seq<Import>, calleeNames: set<string>) returns (keep: seq<Import>)
    ensures keep == UsedImports(imports, calleeNames)
  {
    keep := [];
    for i := 0 to |imports|
      invariant keep == UsedImports(imports[..i], calleeNames)
    {
      PrefixStep(imports, i);
      if imports[i].to in calleeNames {
        keep := keep + [imports[i]];
      }
    }
    WholePrefix(imports);
  }

  /** pruneUnusedLoads */
  method PruneUnusedLoads(stmts: seq<Expr>) returns (out: seq<Expr>)
    ensures out == Pruned(stmts, CalledAll(stmts))
  {
    var calleeNames := CalledAll(stmts);
    out := [];
    for i := 0 to |stmts|
      invariant out == Pruned(stmts[..i], calleeNames)
    {
      PrefixStep(stmts, i);
      if stmts[i].Load? {
        var keep := KeepUsed(stmts[i].imports, calleeNames);
        if keep != [] {
          out := out + [Load(stmts[i].file, keep)];
        }
      } else {
        out := out + [stmts[i]];
      }
    }
    WholePrefix(stmts);
  }

  /** cleanupBuild */
  method CleanupBuild(sx: Syntax, body: string, rel: string) returns (r: string)
    ensures r == CleanBuild(sx, body, rel)
  {
    var f := sx.parse(body);
    if f.None? {
      return body;
    }
    var hasFineCC := HasFineCC(f.value);
    if !hasFineCC {
      return body;
    }
    var stripped := StripScaffolding(f.value, rel);
    var pruned := PruneUnusedLoads(stripped);
    r := sx.format(pruned);
  }

  // ------------------------------------------------------------- what the rewrites keep

  lemma {:induction false} CalledAppend(a: seq<Expr>, b: seq<Expr>)
    ensures CalledAll(a + b) == CalledAll(a) + CalledAll(b)
  {
    if a == [] {
      assert a + b == b;
    } else {
      assert (a + b)[1..] == a[1..] + b;
      CalledAppend(a[1..], b);
    }
  }

  lemma SingleCalls(stmt: Expr, called: set<string>)
    ensures CalledAll(PrunedOne(stmt, called)) == CalledAll([stmt])
  {
    assert [stmt][1..] == [];
    if stmt.Load? {
      assert CalledAll([stmt]) == {};
      var p := PrunedOne(stmt, called);
      assert p != [] ==> p[1..] == [];
    }
  }

  /** Loads hold no calls, so pruning changes no call. */
  lemma {:induction false} PrunedCalls(stmts: seq<Expr>, called: set<string>)
    ensures CalledAll(Pruned(stmts, called)) == CalledAll(stmts)
  {
    if stmts != [] {
      var last := |stmts| - 1;
      PrunedCalls(stmts[..last], called);
      CalledAppend(Pruned(stmts[..last], called), PrunedOne(stmts[last], called));
      CalledAppend(stmts[..last], [stmts[last]]);
      assert stmts == stmts[..last] + [stmts[last]];
      SingleCalls(stmts[last], called);
    }
  }

  ghost predicate Settled(stmts: seq<Expr>, called: set<string>) {
    forall e | e in stmts :: PrunedOne(e, called) == [e]
  }

  lemma {:induction false} UsedStay(imports: seq<Import>, called: set<string>)
    requires forall m | m in imports :: m.to in called
    ensures UsedImports(imports, called) == imports
  {
    if imports != [] {
      var last := |imports| - 1;
      assert imports == imports[..last] + [imports[last]];
      UsedStay(imports[..last], called);
    }
  }

  lemma {:induction false} PrunedSettles(stmts: seq<Expr>, called: set<string>)
    ensures Settled(Pruned(stmts, called), called)
    ensures forall e | e in Pruned(stmts, called) :: e.Load? || e in stmts
  {
    if stmts != [] {
      var last := |stmts| - 1;
      PrunedSettles(stmts[..last], called);
      assert stmts == stmts[..last] + [stmts[last]];
      if stmts[last].Load? {
        UsedStay(UsedImports(stmts[last].imports, called), called);
      }
    }
  }

  lemma {:induction false} SettledStays(stmts: seq<Expr>, called: set<string>)
    requires Settled(stmts, called)
    ensures Pruned(stmts, called) == stmts
  {
    if stmts != [] {
      var last := |stmts| - 1;
      assert stmts == stmts[..last] + [stmts[last]];
      SettledStays(stmts[..last], called);
    }
  }

  lemma {:induction false} CleanStays(stmts: seq<Expr>, rel: string)
    requires forall e | e in stmts :: !IsScaffolding(e, rel)
    ensures Stripped(stmts, rel) == stmts
  {
    if stmts != [] {
      var last := |stmts| - 1;
      assert stmts == stmts[..last] + [stmts[last]];
      CleanStays(stmts[..last], rel);
    }
  }

  lemma CleanStatementsTwice(stmts: seq<Expr>, rel: string)
    ensures CleanStatements(CleanStatements(stmts, rel), rel) == CleanStatements(stmts, rel)
  {
    var kept := Stripped(stmts, rel);
    var called := CalledAll(kept);
    var clean := Pruned(kept, called);
    PrunedSettles(kept, called);
    CleanStays(clean, rel);
    PrunedCalls(kept, called);
    SettledStays(clean, called);
  }

  /** Cleaning a BUILD file again changes nothing, even if the first pass removed its last cc rule. */
  lemma CleanBuildTwice(sx: Syntax, body: string, rel: string)
    requires Faithful(sx)
    ensures CleanBuild(sx, CleanBuild(sx, body, rel), rel) == CleanBuild(sx, body, rel)
  {
    var f := sx.parse(body);
    if f.Some? && Converged(f.value) {
      CleanStatementsTwice(f.value, rel);
    }
  }

  ghost predicate Loads(stmts: seq<Expr>, m: Import) {
    exists e | e in stmts :: e.Load? && m in e.imports
  }

  lemma {:induction false} PrunedLoads(stmts: seq<Expr>, called: set<string>, m: Import)
    ensures Loads(Pruned(stmts, called), m) <==> Loads(stmts, m) && m.to in called
    ensures forall e: Expr | !e.Load? :: e in Pruned(stmts, called) <==> e in stmts
  {
    if stmts != [] {
      var last := |stmts| - 1;
      var s := stmts[last];
      PrunedLoads(stmts[..last], called, m);
      assert stmts == stmts[..last] + [s];
      assert Loads(stmts, m) <==> Loads(stmts[..last], m) || (s.Load? && m in s.imports);
      assert Loads(PrunedOne(s, called), m) <==> s.Load? && m in s.imports && m.to in called by {
        if s.Load? && m in s.imports && m.to in called {
          assert m in UsedImports(s.imports, called);
          assert Load(s.file, UsedImports(s.imports, called)) in PrunedOne(s, called);
        }
      }
    }
  }

  /**
   Main result on one file: among what is not a load exactly the scaffolding goes, and a loaded
   name stays exactly when some statement that stays still calls it.
   */
  lemma CleanedExactly(stmts: seq<Expr>, rel: string, m: Import)
    ensures var clean := CleanStatements(stmts, rel);
      && (forall e: Expr | !e.Load? :: e in clean <==> e in stmts && !IsScaffolding(e, rel))
      && (Loads(clean, m) <==> Loads(stmts, m) && exists e | e in clean :: m.to in Called(e))
  {
    var kept := Stripped(stmts, rel);
    var called := CalledAll(kept);
    PrunedLoads(kept, called, m);
    PrunedCalls(kept, called);
    CalledAllIs(CleanStatements(stmts, rel), m.to);
    assert Loads(kept, m) <==> Loads(stmts, m);
  }

  // ------------------------------------------------------------- the statements in their order

  function Stays(rel: string): Expr -> bool {
    (e: Expr) => !e.Load? && !IsScaffolding(e, rel)
  }

  function NoLoad(): Expr -> bool {
    (e: Expr) => !e.Load?
  }

  /** Every imported name with the file it is loaded from, in order. */
  function ImportsFrom(file: string, imports: seq<Import>): seq<(string, Import)> {
    seq(|imports|, i requires 0 <= i < |imports| => (file, imports[i]))
  }

  function Imported(stmts: seq<Expr>): seq<(string, Import)> {
    if stmts == [] then []
    else
      var last := stmts[|stmts| - 1];
      Imported(stmts[..|stmts| - 1]) + if last.Load? then ImportsFrom(last.file, last.imports) else []
  }

  /** Some statement calls the imported name. */
  function CalledBy(stmts: seq<Expr>): ((string, Import)) -> bool {
    (m: (string, Import)) => exists e | e in stmts :: m.1.to in Called(e)
  }

  function CalledIn(called: set<string>): ((string, Import)) -> bool {
    (m: (string, Import)) => m.1.to in called
  }

  lemma {:induction false} ImportedAppend(a: seq<Expr>, b: seq<Expr>)
    ensures Imported(a + b) == Imported(a) + Imported(b)
  {
    if b == [] {
      assert a + b == a;
    } else {
      InitAppend(a, b);
      ImportedAppend(a, b[..|b| - 1]);
    }
  }

  lemma NothingImported()
    ensures Imported([]) == []
  {
  }

  lemma ImportedOne(e: Expr)
    ensures Imported([e]) == if e.Load? then ImportsFrom(e.file, e.imports) else []
  {
    assert [e][..0] == [];
  }

  lemma ScaffoldingIsCall(e: Expr, rel: string)
    ensures Stays(rel)(e) <==> NoLoad()(e) && !IsScaffolding(e, rel)
    ensures NoLoad()(e) <==> !e.Load?
    ensures IsScaffolding(e, rel) ==> !e.Load?
  {
  }

  lemma StrippedStep(init: seq<Expr>, last: Expr, rel: string)
    ensures Stripped(init + [last], rel) == Stripped(init, rel) + if IsScaffolding(last, rel) then [] else [last]
  {
    assert (init + [last])[..|init|] == init;
  }

  lemma {:induction false} StrippedInOrder(stmts: seq<Expr>, rel: string)
    ensures Filter(NoLoad(), Stripped(stmts, rel)) == Filter(Stays(rel), stmts)
    ensures Imported(Stripped(stmts, rel)) == Imported(stmts)
  {
    if stmts != [] {
      hide *;
      var init, last := stmts[..|stmts| - 1], stmts[|stmts| - 1];
      var kept := Stripped(init, rel);
      StrippedInOrder(init, rel);
      assert stmts == init + [last];
      StrippedStep(init, last, rel);
      FilterAppend(Stays(rel), init, [last]);
      FilterOne(Stays(rel), last);
      ImportedAppend(init, [last]);
      ImportedOne(last);
      ScaffoldingIsCall(last, rel);
      if !IsScaffolding(last, rel) {
        FilterAppend(NoLoad(), kept, [last]);
        FilterOne(NoLoad(), last);
        ImportedAppend(kept, [last]);
      } else {
        assert kept + [] == kept && Imported(init) + [] == Imported(init);
      }
    }
  }

  lemma {:induction false} UsedInOrder(file: string, imports: seq<Import>, called: set<string>)
    ensures ImportsFrom(file, UsedImports(imports, called)) == Filter(CalledIn(called), ImportsFrom(file, imports))
  {
    if imports != [] {
      var n := |imports| - 1;
      UsedInOrder(file, imports[..n], called);
      assert ImportsFrom(file, imports)[..n] == ImportsFrom(file, imports[..n]);
      var kept := UsedImports(imports[..n], called);
      assert ImportsFrom(file, kept + [imports[n]]) == ImportsFrom(file, kept) + [(file, imports[n])];
    }
  }

  /** What pruning makes of one statement, in order. */
  lemma PrunedOneInOrder(stmt: Expr, called: set<string>)
    ensures Filter(NoLoad(), PrunedOne(stmt, called)) == Filter(NoLoad(), [stmt])
    ensures Imported(PrunedOne(stmt, called)) == Filter(CalledIn(called), Imported([stmt]))
  {
    hide Filter, Imported;
    ImportedOne(stmt);
    FilterOne(NoLoad(), stmt);
    NothingFiltered(CalledIn(called));
    if stmt.Load? {
      UsedInOrder(stmt.file, stmt.imports, called);
      NothingFiltered(NoLoad());
      NothingImported();
      var used := UsedImports(stmt.imports, called);
      ImportedOne(Load(stmt.file, used));
      FilterOne(NoLoad(), Load(stmt.file, used));
      assert used == [] ==> ImportsFrom(stmt.file, used) == [];
    }
  }

  lemma PrunedStep(stmts: seq<Expr>, called: set<string>)
    requires stmts != []
    ensures Pruned(stmts, called) == Pruned(stmts[..|stmts| - 1], called) + PrunedOne(stmts[|stmts| - 1], called)
  {
  }

  lemma {:induction false} PrunedInOrder(stmts: seq<Expr>, called: set<string>)
    ensures Filter(NoLoad(), Pruned(stmts, called)) == Filter(NoLoad(), stmts)
    ensures Imported(Pruned(stmts, called)) == Filter(CalledIn(called), Imported(stmts))
  {
    if stmts != [] {
      PrunedStep(stmts, called);
      hide *;
      var init, last := stmts[..|stmts| - 1], stmts[|stmts| - 1];
      PrunedInOrder(init, called);
      PrunedOneInOrder(last, called);
      assert stmts == init + [last];
      FilterAppend(NoLoad(), Pruned(init, called), PrunedOne(last, called));
      FilterAppend(NoLoad(), init, [last]);
      ImportedAppend(Pruned(init, called), PrunedOne(last, called));
      ImportedAppend(init, [last]);
      FilterAppend(CalledIn(called), Imported(init), Imported([last]));
    }
  }

  /**
   A cleaned file: without its loads it is the file without loads and scaffolding, in the same order;
   and it loads, in the same order and from the same files, the names that are still called in it.
   */
  ghost predicate CleanedFrom(clean: seq<Expr>, stmts: seq<Expr>, rel: string) {
    && Filter(NoLoad(), clean) == Filter(Stays(rel), stmts)
    && Imported(clean) == Filter(CalledBy(clean), Imported(stmts))
    && forall e | e in clean && e.Load? :: e.imports != []
  }

  lemma {:induction false} NoEmptyLoad(stmts: seq<Expr>, called: set<string>)
    ensures forall e | e in Pruned(stmts, called) && e.Load? :: e.imports != []
  {
    if stmts != [] {
      NoEmptyLoad(stmts[..|stmts| - 1], called);
    }
  }

  lemma CleanedInOrder(stmts: seq<Expr>, rel: string)
    ensures CleanedFrom(CleanStatements(stmts, rel), stmts, rel)
  {
    var kept := Stripped(stmts, rel);
    var called := CalledAll(kept);
    var clean := CleanStatements(stmts, rel);
    StrippedInOrder(stmts, rel);
    PrunedInOrder(kept, called);
    PrunedCalls(kept, called);
    NoEmptyLoad(kept, called);
    forall m | m in Imported(stmts)
      ensures CalledIn(called)(m) <==> CalledBy(clean)(m)
    {
      CalledAllIs(clean, m.1.to);
    }
    FilterAlike(CalledIn(called), CalledBy(clean), Imported(stmts));
  }

  // ------------------------------------------------------------- calls anywhere in a statement

  function Children(e: Expr): seq<Expr> {
    match e
    case Ident(_) => []
    case Str(_) => []
    case ListOf(items) => items
    case Assign(l, r) => [l, r]
    case Call(f, args) => [f] + args
    case Load(_, _) => []
    case Node(children) => children
  }

  /** `sub` occurs in `e`, at any depth. */
  ghost predicate Within(sub: Expr, e: Expr) {
    sub == e || exists c | c in Children(e) :: Within(sub, c)
  }

  ghost predicate CallsTo(call: Expr, name: string) {
    call.Call? && call.fn == Ident(name)
  }

  lemma OfAll(c: Expr, cs: seq<Expr>, name: string)
    ensures (exists x | x in [c] + cs :: name in Called(x)) <==> name in Called(c) || exists x | x in cs :: name in Called(x)
  {
    hide Called;
    assert c in [c] + cs;
    assert forall x | x in cs :: x in [c] + cs;
  }

  /** One level of it. */
  lemma ChildrenCalls(e: Expr, name: string)
    ensures name in Called(e) <==> CallsTo(e, name) || exists c | c in Children(e) :: name in Called(c)
  {
    match e
    case Ident(_) =>
    case Str(_) =>
    case Load(_, _) =>
    case ListOf(items) =>
      CalledAllIs(items, name);
    case Assign(l, r) =>
      assert l in Children(e) && r in Children(e);
    case Call(f, args) =>
      CalledAllIs(args, name);
      OfAll(f, args, name);
    case Node(children) =>
      CalledAllIs(children, name);
  }

  /** A name is called in a statement exactly when a call of it occurs there, however deep. */
  lemma {:induction false} CalledIs(e: Expr, name: string)
    ensures name in Called(e) <==> exists call :: Within(call, e) && CallsTo(call, name)
    decreases e
  {
    forall c | c in Children(e)
      ensures name in Called(c) <==> exists call :: Within(call, c) && CallsTo(call, name)
    {
      CalledIs(c, name);
    }
    ChildrenCalls(e, name);
    if call :| Within(call, e) && CallsTo(call, name) && call != e {
      var c :| c in Children(e) && Within(call, c);
    }
    if CallsTo(e, name) {
      assert Within(e, e);
    }
    if c :| c in Children(e) && name in Called(c) {
      var call :| Within(call, c) && CallsTo(call, name);
      assert Within(call, e);
    }
  }

  /** A loaded name that is only mentioned, never called, is dropped from the file. */
  lemma MentionedNamesAreDropped(stmts: seq<Expr>, rel: string, m: Import)
    requires forall e | e in stmts :: m.to !in Called(e)
    ensures !Loads(CleanStatements(stmts, rel), m)
  {
    var kept := Stripped(stmts, rel);
    CalledAllIs(kept, m.to);
    PrunedLoads(kept, CalledAll(kept), m);
  }

  // ------------------------------------------------------------- MODULE.bazel

  /** bazel_dep and local_path_override of the rules package. */
  predicate IsRulesDep(stmt: Expr) {
    stmt.Call? &&
    ( || (CallIdent(stmt) == "bazel_dep" && StringAttr(stmt, "name") == RULES_PACKAGE)
      || (CallIdent(stmt) == "local_path_override" && StringAttr(stmt, "module_name") == RULES_PACKAGE))
  }

  function WithoutRulesDep(stmts: seq<Expr>): (r: seq<Expr>)
    ensures forall e :: e in r <==> e in stmts && !IsRulesDep(e)
  {
    if stmts == [] then []
    else
      var last := |stmts| - 1;
      assert stmts == stmts[..last] + [stmts[last]];
      WithoutRulesDep(stmts[..last]) + if IsRulesDep(stmts[last]) then [] else [stmts[last]]
  }

  lemma {:induction false} WithoutStays(stmts: seq<Expr>)
    requires forall e | e in stmts :: !IsRulesDep(e)
    ensures WithoutRulesDep(stmts) == stmts
  {
    if stmts != [] {
      var last := |stmts| - 1;
      assert stmts == stmts[..last] + [stmts[last]];
      WithoutStays(stmts[..last]);
    }
  }

  function CleanModule(sx: Syntax, body: string, stillUsed: bool): string {
    var f := sx.parse(body);
    if stillUsed || f.None? then body else sx.format(WithoutRulesDep(f.value))
  }

  class CleanupPlan {
    var rulesPackageStillUsed: bool

    constructor ()
      ensures !rulesPackageStillUsed
    {
      rulesPackageStillUsed := false;
    }
  }

  /** cleanupModule */
  method CleanupModule(sx: Syntax, body: string, plan: CleanupPlan) returns (r: string)
    ensures r == CleanModule(sx, body, plan.rulesPackageStillUsed)
  {
    if plan.rulesPackageStillUsed {
      return body;
    }
    var f := sx.parse(body);
    if f.None? {
      return body;
    }
    var out := [];
    for i := 0 to |f.value|
      invariant out == WithoutRulesDep(f.value[..i])
    {
      PrefixStep(f.value, i);
      if !IsRulesDep(f.value[i]) {
        out := out + [f.value[i]];
      }
    }
    WholePrefix(f.value);
    r := sx.format(out);
  }

  // ------------------------------------------------------------- the tree

  type Tree = map<string, string>

  predicate IsBuild(path: string) {
    Base(path) == BUILD_FILE
  }

  /** The file at `p` is a BUILD file that names the rules package once cleaned. */
  ghost predicate MentionsRules(sx: Syntax, body: string, p: string) {
    IsBuild(p) && Contains(CleanBuild(sx, body, p), RULES_LABEL)
  }

  /** mentionsRulesPackage of some BUILD file, after cleaning. */
  ghost predicate StillUsed(sx: Syntax, files: Tree) {
    exists p | p in files :: MentionsRules(sx, files[p], p)
  }

  ghost function CleanFile(sx: Syntax, files: Tree, p: string): string
    requires p in files
  {
    if IsBuild(p) then CleanBuild(sx, files[p], p)
    else if p == MODULE_FILE then CleanModule(sx, files[p], StillUsed(sx, files))
    else files[p]
  }

  ghost function Finalized(sx: Syntax, files: Tree): Tree {
    map p | p in files :: CleanFile(sx, files, p)
  }

  /** The visitor of computeCleanupPlan. */
  method MentionsRulesPackage(sx: Syntax, body: string, p: string) returns (mentions: bool)
    ensures mentions <==> MentionsRules(sx, body, p)
  {
    if !IsBuild(p) {
      return false;
    }
    var cleaned := CleanupBuild(sx, body, p);
    mentions := Contains(cleaned, RULES_LABEL);
  }

  /** computeCleanupPlan */
  method ComputeCleanupPlan(sx: Syntax, files: Tree) returns (plan: CleanupPlan)
    ensures fresh(plan)
    ensures plan.rulesPackageStillUsed <==> StillUsed(sx, files)
  {
    hide MentionsRules;
    plan := new CleanupPlan();
    var paths := SortedKeys(files.Keys);
    assert forall k | 0 <= k < |paths| :: paths[k] in paths;
    for i := 0 to |paths|
      invariant forall k | 0 <= k < |paths| :: paths[k] in files
      invariant plan.rulesPackageStillUsed <==> exists k | 0 <= k < i :: MentionsRules(sx, files[paths[k]], paths[k])
    {
      var mentions := MentionsRulesPackage(sx, files[paths[i]], paths[i]);
      if mentions {
        plan.rulesPackageStillUsed := true;
      }
    }
    assert forall p | p in files :: p in paths;
  }

  /** run, from the input tree to the output tree. */
  method Run(sx: Syntax, files: Tree) returns (out: Tree)
    ensures out == Finalized(sx, files)
  {
    hide MentionsRules, StillUsed, CleanBuild, CleanModule;
    var plan := ComputeCleanupPlan(sx, files);
    var paths := SortedKeys(files.Keys);
    out := map[];
    for i := 0 to |paths|
      invariant plan.rulesPackageStillUsed <==> StillUsed(sx, files)
      invariant forall p :: p in out <==> p in paths[..i]
      invariant forall p | p in out :: p in files && out[p] == CleanFile(sx, files, p)
    {
      PrefixStep(paths, i);
      var p := paths[i];
      assert p in paths;
      var body := files[p];
      if IsBuild(p) {
        body := CleanupBuild(sx, body, p);
      } else if p == MODULE_FILE {
        body := CleanupModule(sx, body, plan);
      }
      out := out[p := body];
    }
    WholePrefix(paths);
  }

  lemma ModuleIsNoBuild()
    ensures !IsBuild(MODULE_FILE)
  {
    AfterSlashPlain(MODULE_FILE);
  }

  /** The second run sees the same mentions as the first. */
  lemma StillUsedTwice(sx: Syntax, files: Tree)
    requires Faithful(sx)
    ensures StillUsed(sx, Finalized(sx, files)) <==> StillUsed(sx, files)
  {
    var out := Finalized(sx, files);
    forall p | p in files && IsBuild(p)
      ensures CleanBuild(sx, out[p], p) == CleanBuild(sx, files[p], p)
    {
      CleanBuildTwice(sx, files[p], p);
    }
  }

  /** Main result: finalising a finalised tree changes no file. */
  lemma FinalizeTwice(sx: Syntax, files: Tree)
    requires Faithful(sx)
    ensures Finalized(sx, Finalized(sx, files)) == Finalized(sx, files)
  {
    var out := Finalized(sx, files);
    StillUsedTwice(sx, files);
    forall p | p in files
      ensures CleanFile(sx, out, p) == out[p]
    {
      if IsBuild(p) {
        CleanBuildTwice(sx, files[p], p);
      } else if p == MODULE_FILE {
        var f := sx.parse(files[p]);
        if f.Some? && !StillUsed(sx, files) {
          WithoutStays(WithoutRulesDep(f.value));
        }
      }
    }
  }

  ghost predicate DependsOnRules(sx: Syntax, files: Tree) {
    MODULE_FILE in files && sx.parse(files[MODULE_FILE]).Some?
    && exists e | e in sx.parse(files[MODULE_FILE]).value :: IsRulesDep(e)
  }

  /** The dependency on the rules package goes exactly when no finished BUILD file mentions it. */
  lemma {:induction false} DependencyDroppedExactly(sx: Syntax, files: Tree)
    requires Faithful(sx)
    ensures DependsOnRules(sx, Finalized(sx, files)) <==>
      DependsOnRules(sx, files)
      && exists p | p in Finalized(sx, files) :: IsBuild(p) && Contains(Finalized(sx, files)[p], RULES_LABEL)
  {
    ModuleIsNoBuild();
    var out := Finalized(sx, files);
    assert StillUsed(sx, files) <==> exists p | p in out :: IsBuild(p) && Contains(out[p], RULES_LABEL);
  }

  /** Unconverged BUILD files and everything that is neither BUILD nor MODULE come through as they are. */
  lemma OthersUntouched(sx: Syntax, files: Tree, p: string)
    requires p in files && p != MODULE_FILE
    requires IsBuild(p) ==> sx.parse(files[p]).None? || !Converged(sx.parse(files[p]).value)
    ensures Finalized(sx, files)[p] == files[p]
  {
  }

  // ------------------------------------------------------------- the finished files

  /** Main result on a finished BUILD file: what it parses to. */
  lemma FinishedBuild(sx: Syntax, files: Tree, p: string, stmts: seq<Expr>)
    requires Faithful(sx) && p in files && IsBuild(p) && sx.parse(files[p]) == Some(stmts) && Converged(stmts)
    ensures sx.parse(Finalized(sx, files)[p]).Some?
    ensures CleanedFrom(sx.parse(Finalized(sx, files)[p]).value, stmts, p)
  {
    CleanedInOrder(stmts, p);
  }

  function OtherThanRules(): Expr -> bool {
    (e: Expr) => !IsRulesDep(e)
  }

  lemma {:induction false} WithoutIsFilter(stmts: seq<Expr>)
    ensures WithoutRulesDep(stmts) == Filter(OtherThanRules(), stmts)
  {
    if stmts != [] {
      WithoutIsFilter(stmts[..|stmts| - 1]);
    }
  }

  /** And the finished module file: only the dependency goes, and only when no finished BUILD file mentions it. */
  lemma FinishedModule(sx: Syntax, files: Tree, stmts: seq<Expr>)
    requires Faithful(sx) && "MODULE.bazel" in files && sx.parse(files["MODULE.bazel"]) == Some(stmts)
    ensures var out := Finalized(sx, files);
      sx.parse(out["MODULE.bazel"]) ==
        Some(if exists p | p in out :: IsBuild(p) && Contains(out[p], "@rules_buildstream_bazel//") then stmts
             else Filter(OtherThanRules(), stmts))
  {
    ModuleIsNoBuild();
    WithoutIsFilter(stmts);
    var out := Finalized(sx, files);
    assert StillUsed(sx, files) <==> exists p | p in out :: IsBuild(p) && Contains(out[p], RULES_LABEL);
  }

  // ------------------------------------------------------------- what counts as what

  /** The first string given to an attribute. */
  ghost predicate Gives(args: seq<Expr>, attr: string, value: string) {
    exists i | 0 <= i < |args| ::
      && args[i] == Assign(Ident(attr), Str(value))
      && forall j | 0 <= j < i :: !(args[j].Assign? && args[j].lhs == Ident(attr) && args[j].rhs.Str?)
  }

  lemma {:induction false} StringAttrIs(args: seq<Expr>, attr: string, value: string)
    requires value != ""
    ensures StringAttrOf(args, attr) == value <==> Gives(args, attr, value)
  {
    if args != [] {
      var rest := args[1..];
      if args[0].Assign? && args[0].lhs == Ident(attr) && args[0].rhs.Str? {
        assert Gives(args, attr, args[0].rhs.value);
      } else {
        StringAttrIs(rest, attr, value);
        if Gives(rest, attr, value) {
          var i :| 0 <= i < |rest| && rest[i] == Assign(Ident(attr), Str(value))
            && forall j | 0 <= j < i :: !(rest[j].Assign? && rest[j].lhs == Ident(attr) && rest[j].rhs.Str?);
          assert args[i + 1] == rest[i] && forall j | 0 < j < i + 1 :: args[j] == rest[j - 1];
        }
        if Gives(args, attr, value) {
          var i :| 0 <= i < |args| && args[i] == Assign(Ident(attr), Str(value))
            && forall j | 0 <= j < i :: !(args[j].Assign? && args[j].lhs == Ident(attr) && args[j].rhs.Str?);
          assert rest[i - 1] == args[i] && forall j | 0 <= j < i - 1 :: rest[j] == args[j + 1];
        }
      }
    }
  }

  ghost predicate Tagged(args: seq<Expr>, tag: string) {
    exists i, items :: 0 <= i < |args| && args[i] == Assign(Ident("tags"), ListOf(items)) && Str(tag) in items
  }

  lemma TaggedIs(call: Expr, tag: string)
    requires call.Call?
    ensures HasTag(call, tag) <==> Tagged(call.args, tag)
  {
    if HasTag(call, tag) {
      var i :| 0 <= i < |call.args| && call.args[i].Assign? && call.args[i].lhs == Ident("tags")
        && call.args[i].rhs.ListOf? && Str(tag) in call.args[i].rhs.items;
      assert call.args[i] == Assign(Ident("tags"), ListOf(call.args[i].rhs.items));
    }
  }

  /** The scaffolding: trace loads, zero files, five filegroups, and what the converters tag for removal. */
  lemma ScaffoldingIs(name: string, args: seq<Expr>, rel: string)
    ensures IsScaffolding(Call(Ident(name), args), rel) <==>
      || name == "trace_load" || name == "zero_files"
      || (name == "filegroup" &&
          ( || Gives(args, "name", "install_tree.tar") || Gives(args, "name", "cmake_config_bundle")
            || Gives(args, "name", "pkg_config_bundle") || Gives(args, "name", "build_bazel")
            || Gives(args, "name", ElemInstallName(rel))))
      || Tagged(args, "trace_build")
      || Tagged(args, "cmake-codegen-execute-process-fallback-extract")
      || Tagged(args, "meson-codegen-target-fallback-extract")
  {
    var call := Call(Ident(name), args);
    assert CallIdent(call) == name;
    StringAttrIs(args, "name", "install_tree.tar");
    StringAttrIs(args, "name", "cmake_config_bundle");
    StringAttrIs(args, "name", "pkg_config_bundle");
    StringAttrIs(args, "name", "build_bazel");
    StringAttrIs(args, "name", ElemInstallName(rel));
    TaggedIs(call, "trace_build");
    TaggedIs(call, "cmake-codegen-execute-process-fallback-extract");
    TaggedIs(call, "meson-codegen-target-fallback-extract");
    hide StringAttrOf, Gives, Tagged, HasTag, ElemInstallName;
  }

  /** A file at the top has no install filegroup of its own: the name is none a target can have. */
  lemma TopLevelInstallName()
    ensures ElemInstallName(BUILD_FILE) == "\0"
  {
    assert '/' !in BUILD_FILE;
    DirOfPlain(BUILD_FILE);
  }

  lemma {:induction false} DirOfPlain(p: string)
    requires '/' !in p
    ensures Dir(p) == "."
  {
    if p != "" {
      assert p[|p| - 1] in p;
      assert forall c | c in p[..|p| - 1] :: c in p;
      DirOfPlain(p[..|p| - 1]);
    }
  }

  /** What makes a file converged: one of the four rules, and not a stub of either converter. */
  lemma FineIs(name: string, args: seq<Expr>)
    ensures IsFine(Call(Ident(name), args)) <==>
      && (name == "cc_library" || name == "cc_binary" || name == "cc_import" || name == "cc_test")
      && !Tagged(args, "cmake-codegen-target-fallback") && !Tagged(args, "meson-codegen-target-fallback")
  {
    TaggedIs(Call(Ident(name), args), "cmake-codegen-target-fallback");
    TaggedIs(Call(Ident(name), args), "meson-codegen-target-fallback");
  }

  /** The statements that make up the dependency. */
  lemma RulesDepIs(name: string, args: seq<Expr>)
    ensures IsRulesDep(Call(Ident(name), args)) <==>
      || (name == "bazel_dep" && Gives(args, "name", "rules_buildstream_bazel"))
      || (name == "local_path_override" && Gives(args, "module_name", "rules_buildstream_bazel"))
  {
    StringAttrIs(args, "name", "rules_buildstream_bazel");
    StringAttrIs(args, "module_name", "rules_buildstream_bazel");
  }

  /** BUILD files are known by their last segment, in any directory. */
  lemma BuildFilesAnywhere(dir: string, file: string)
    requires file != "" && '/' !in file
    ensures IsBuild(dir + "/" + file) <==> file == "BUILD.bazel"
    ensures IsBuild(file) <==> file == "BUILD.bazel"
  {
    BaseOfFile(dir, file);
    AfterSlashPlain(file);
  }
}
